/** Flow control of the Script language.
  *
  * `Script.evaluate` pops commands off the front of one flat list. A conditional opcode scans that
  * list for its ENDIF, drops both branches out of it and splices the chosen one back in front.
  * The specification below gives the same scripts a structured meaning, over nested blocks, and
  * proves that the splicing machine computes it for every command list.
  */
module ScriptFlow {
  import opened Digits
  import opened ScriptNum
  import opened Wrappers

  const OP_0: nat := 0
  const OP_1NEGATE: nat := 79
  const OP_1: nat := 81
  const OP_16: nat := 96
  const OP_IF: nat := 99
  const OP_NOTIF: nat := 100
  const OP_ELSE: nat := 103
  const OP_ENDIF: nat := 104

  /** An element of the command list: Python's `int` or `bytes`. */
  datatype Command = Op(code: nat) | Data(bytes: Bytes)

  /** What running commands leads to: a stack to go on with, `return False`, or an exception that
      leaves `evaluate`. */
  datatype Step = Next(stack: seq<Bytes>) | Fail | Raise

  /** The opcodes other than constants and conditionals. An opcode without a method raises; a method
      that returns False or raises makes `evaluate` return False. */
  type OpTable = (nat, seq<Bytes>) -> Step

  // ---------------------------------------------------------------- the flat machine

  predicate IsConditional(c: Command) {
    c == Op(OP_IF) || c == Op(OP_NOTIF)
  }

  predicate IsFlow(c: Command) {
    IsConditional(c) || c == Op(OP_ELSE) || c == Op(OP_ENDIF)
  }

  function RunPlain(ops: OpTable, c: Command, s: seq<Bytes>): Step {
    match c
    case Data(d) => Next(s + [d])
    case Op(code) =>
      if code == OP_0 then Next(s + [EncodeNum(0)])
      else if code == OP_1NEGATE then Next(s + [EncodeNum(-1)])
      else if OP_1 <= code <= OP_16 then Next(s + [EncodeNum(code - 80)])
      else ops(code, s)
  }

  /** The two arrays `op_if` fills, and the one it is appending to. */
  datatype Branches = Branches(thn: seq<Command>, els: seq<Command>, inElse: bool) {
    function Put(items: seq<Command>): Branches {
      if inElse then this.(els := els + items) else this.(thn := thn + items)
    }

    lemma PutPut(x: seq<Command>, y: seq<Command>)
      ensures Put(x).Put(y) == Put(x + y)
    {
      assert els + x + y == els + (x + y);
      assert thn + x + y == thn + (x + y);
    }

    lemma PutNothing()
      ensures Put([]) == this
    {
      assert els + [] == els && thn + [] == thn;
    }
  }

  const NO_BRANCHES := Branches([], [], false)

  datatype Split = Split(b: Branches, rest: seq<Command>)

  /** The scan of `op_if`: `depth` ENDIFs are still needed, and items go to the false branch once
      an ELSE of this conditional has been seen. */
  function Scan(cmds: seq<Command>, depth: nat, b: Branches): (r: Option<Split>)
    requires depth >= 1
    ensures r.Some? ==> |r.value.b.thn| + |r.value.b.els| + |r.value.rest| < |b.thn| + |b.els| + |cmds|
    decreases |cmds|
  {
    if cmds == [] then None
    else
      var item, rest := cmds[0], cmds[1..];
      if depth == 1 && item == Op(OP_ENDIF) then Some(Split(b, rest))
      else if depth == 1 && item == Op(OP_ELSE) then Scan(rest, depth, b.(inElse := true))
      else
        var depth' :=
          if IsConditional(item) then depth + 1
          else if item == Op(OP_ENDIF) then depth - 1
          else depth;
        Scan(rest, depth', b.Put([item]))
  }

  /** The truth a conditional takes from the top of the stack. */
  predicate Holds(element: Bytes, negated: bool) {
    (DecodeNum(element) != 0) != negated
  }

  /** The commands and stack after a conditional; None when it is never closed. */
  function Branch(cmds: seq<Command>, element: Bytes, negated: bool): (r: Option<seq<Command>>)
    ensures r.Some? ==> |r.value| < |cmds|
  {
    match Scan(cmds, 1, NO_BRANCHES)
    case None => None
    case Some(split) => Some((if Holds(element, negated) then split.b.thn else split.b.els) + split.rest)
  }

  /** The loop of `Script.evaluate`. The list of commands shrinks at every step, also when a branch
      is spliced back. */
  function RunFlat(ops: OpTable, cmds: seq<Command>, s: seq<Bytes>): Step
    decreases |cmds|
  {
    if cmds == [] then Next(s)
    else
      var c, rest := cmds[0], cmds[1..];
      if IsConditional(c) then
        if s == [] then
          if c == Op(OP_IF) && Scan(rest, 1, NO_BRANCHES) == None then Fail else Raise
        else
          match Branch(rest, s[|s| - 1], c == Op(OP_NOTIF))
          case None => Fail
          case Some(cmds') => RunFlat(ops, cmds', s[..|s| - 1])
      else
        match RunPlain(ops, c, s)
        case Next(s') => RunFlat(ops, rest, s')
        case Fail => Fail
        case Raise => Raise
  }

  // ---------------------------------------------------------------- nested programs

  datatype Prog =
    | Done
    | Do(cmd: Command, rest: Prog)
    | If(negated: bool, thn: Prog, elses: Elses, rest: Prog)

  datatype Elses = NoElse | Else(body: Prog, more: Elses)

  predicate WellFormed(p: Prog) {
    match p
    case Done => true
    case Do(c, rest) => !IsFlow(c) && WellFormed(rest)
    case If(_, thn, elses, rest) => WellFormed(thn) && WellFormedElses(elses) && WellFormed(rest)
  }

  predicate WellFormedElses(e: Elses) {
    match e
    case NoElse => true
    case Else(body, more) => WellFormed(body) && WellFormedElses(more)
  }

  function Flatten(p: Prog): seq<Command> {
    match p
    case Done => []
    case Do(c, rest) => [c] + Flatten(rest)
    case If(negated, thn, elses, rest) =>
      [Opening(negated)] + Flatten(thn) + FlattenElses(elses) + [Op(OP_ENDIF)] + Flatten(rest)
  }

  function FlattenElses(e: Elses): seq<Command> {
    match e
    case NoElse => []
    case Else(body, more) => [Op(OP_ELSE)] + Flatten(body) + FlattenElses(more)
  }

  function Then(r: Step, k: seq<Bytes> -> Step): Step {
    match r
    case Next(s) => k(s)
    case Fail => Fail
    case Raise => Raise
  }

  /** The meaning of a nested program. When the condition fails, every ELSE block runs. */
  function Exec(ops: OpTable, p: Prog, s: seq<Bytes>): Step {
    match p
    case Done => Next(s)
    case Do(c, rest) => Then(RunPlain(ops, c, s), s' => Exec(ops, rest, s'))
    case If(negated, thn, elses, rest) =>
      if s == [] then Raise
      else
        var s0 := s[..|s| - 1];
        var r := if Holds(s[|s| - 1], negated) then Exec(ops, thn, s0) else ExecElses(ops, elses, s0);
        Then(r, s' => Exec(ops, rest, s'))
  }

  function ExecElses(ops: OpTable, e: Elses, s: seq<Bytes>): Step {
    match e
    case NoElse => Next(s)
    case Else(body, more) => Then(Exec(ops, body, s), s' => ExecElses(ops, more, s'))
  }

  function Opening(negated: bool): Command {
    Op(if negated then OP_NOTIF else OP_IF)
  }

  lemma FlattenIf(p: Prog, k: seq<Command>)
    requires p.If?
    ensures Flatten(p) + k ==
            [Opening(p.negated)] + (Flatten(p.thn) + (FlattenElses(p.elses) + ([Op(OP_ENDIF)] + (Flatten(p.rest) + k))))
  {
  }

  // ---------------------------------------------------------------- the scan finds the blocks

  function ElseBodies(e: Elses): seq<Command> {
    match e
    case NoElse => []
    case Else(body, more) => Flatten(body) + ElseBodies(more)
  }

  lemma ScanItem(c: Command, k: seq<Command>, depth: nat, b: Branches)
    requires depth >= 1 && (!IsFlow(c) || IsConditional(c) || depth >= 2)
    ensures Scan([c] + k, depth, b) ==
            Scan(k, if IsConditional(c) then depth + 1 else if c == Op(OP_ENDIF) then depth - 1 else depth, b.Put([c]))
  {
    assert ([c] + k)[1..] == k;
  }

  /** A well-nested stretch is copied whole to the current branch, at any depth. */
  lemma {:induction false} ScanProg(p: Prog, k: seq<Command>, depth: nat, b: Branches)
    requires WellFormed(p) && depth >= 1
    ensures Scan(Flatten(p) + k, depth, b) == Scan(k, depth, b.Put(Flatten(p)))
    decreases p
  {
    hide Scan;
    match p
    case Done =>
      assert Flatten(p) + k == k;
      b.PutNothing();
    case Do(c, rest) =>
      assert Flatten(p) + k == [c] + (Flatten(rest) + k);
      ScanItem(c, Flatten(rest) + k, depth, b);
      ScanProg(rest, k, depth, b.Put([c]));
      b.PutPut([c], Flatten(rest));
    case If(negated, thn, elses, rest) =>
      FlattenIf(p, k);
      FlattenIf(p, []);
      var flat := Flatten(p);
      hide Flatten, FlattenElses;
      var c, end := [Opening(negated)], [Op(OP_ENDIF)];
      var k2 := end + (Flatten(rest) + k);
      var k1 := FlattenElses(elses) + k2;
      ScanItem(c[0], Flatten(thn) + k1, depth, b);
      ScanProg(thn, k1, depth + 1, b.Put(c));
      b.PutPut(c, Flatten(thn));
      var x := c + Flatten(thn);
      ScanElses(elses, k2, depth + 1, b.Put(x));
      b.PutPut(x, FlattenElses(elses));
      var y := x + FlattenElses(elses);
      ScanItem(end[0], Flatten(rest) + k, depth + 1, b.Put(y));
      b.PutPut(y, end);
      ScanProg(rest, k, depth, b.Put(y + end));
      b.PutPut(y + end, Flatten(rest));
      assert y + end + Flatten(rest) == flat;
  }

  lemma {:induction false} ScanElses(e: Elses, k: seq<Command>, depth: nat, b: Branches)
    requires WellFormedElses(e) && depth >= 2
    ensures Scan(FlattenElses(e) + k, depth, b) == Scan(k, depth, b.Put(FlattenElses(e)))
    decreases e
  {
    hide Scan;
    match e
    case NoElse =>
      assert FlattenElses(e) + k == k;
      b.PutNothing();
    case Else(body, more) =>
      var c := [Op(OP_ELSE)];
      var k1 := FlattenElses(more) + k;
      assert FlattenElses(e) + k == c + (Flatten(body) + k1);
      ScanItem(c[0], Flatten(body) + k1, depth, b);
      ScanProg(body, k1, depth, b.Put(c));
      b.PutPut(c, Flatten(body));
      ScanElses(more, k, depth, b.Put(c + Flatten(body)));
      b.PutPut(c + Flatten(body), FlattenElses(more));
  }

  lemma ScanElse(e: Elses, tail: seq<Command>, b: Branches)
    requires e.Else?
    ensures Scan(FlattenElses(e) + tail, 1, b)
            == Scan(Flatten(e.body) + (FlattenElses(e.more) + tail), 1, b.(inElse := true))
  {
    assert (FlattenElses(e) + tail)[1..] == Flatten(e.body) + (FlattenElses(e.more) + tail);
  }

  /** At the conditional's own depth the ELSE blocks all go to the false branch. */
  lemma {:induction false} ScanOwnElses(e: Elses, k: seq<Command>, b: Branches)
    requires WellFormedElses(e)
    ensures var r := Scan(FlattenElses(e) + ([Op(OP_ENDIF)] + k), 1, b);
            r.Some? && r.value.rest == k && r.value.b.thn == b.thn && r.value.b.els == b.els + ElseBodies(e)
    decreases e
  {
    var tail := [Op(OP_ENDIF)] + k;
    match e
    case NoElse =>
      assert FlattenElses(e) + tail == tail;
      assert tail[1..] == k;
    case Else(body, more) =>
      var k1 := FlattenElses(more) + tail;
      var b' := b.(inElse := true);
      ScanElse(e, tail, b);
      hide Scan, Flatten, FlattenElses;
      ScanProg(body, k1, 1, b');
      ScanOwnElses(more, k, b'.Put(Flatten(body)));
  }

  lemma ScanConditional(thn: Prog, elses: Elses, k: seq<Command>)
    requires WellFormed(thn) && WellFormedElses(elses)
    ensures var r := Scan(Flatten(thn) + (FlattenElses(elses) + ([Op(OP_ENDIF)] + k)), 1, NO_BRANCHES);
            r.Some? && r.value.rest == k && r.value.b.thn == Flatten(thn) && r.value.b.els == ElseBodies(elses)
  {
    hide Scan;
    ScanProg(thn, FlattenElses(elses) + ([Op(OP_ENDIF)] + k), 1, NO_BRANCHES);
    ScanOwnElses(elses, k, NO_BRANCHES.Put(Flatten(thn)));
  }

  // ---------------------------------------------------------------- the splicing machine is right

  lemma RunConditional(ops: OpTable, p: Prog, k: seq<Command>, s: seq<Bytes>)
    requires p.If? && WellFormed(p)
    ensures RunFlat(ops, Flatten(p) + k, s) ==
            if s == [] then Raise
            else
              var branch := if Holds(s[|s| - 1], p.negated) then Flatten(p.thn) else ElseBodies(p.elses);
              RunFlat(ops, branch + (Flatten(p.rest) + k), s[..|s| - 1])
  {
    hide Scan, Holds, Flatten, FlattenElses, ElseBodies;
    FlattenIf(p, k);
    var k' := Flatten(p.rest) + k;
    var tail := Flatten(p.thn) + (FlattenElses(p.elses) + ([Op(OP_ENDIF)] + k'));
    assert ([Opening(p.negated)] + tail)[1..] == tail;
    ScanConditional(p.thn, p.elses, k');
  }

  /** Splicing preserves meaning: running the flat form, under any continuation, is running the
      nested program and then the continuation. */
  lemma {:induction false} FlatIsNested(ops: OpTable, p: Prog, k: seq<Command>, s: seq<Bytes>)
    requires WellFormed(p)
    ensures RunFlat(ops, Flatten(p) + k, s) == Then(Exec(ops, p, s), s' => RunFlat(ops, k, s'))
    decreases p
  {
    match p
    case Done =>
      assert Flatten(p) + k == k;
    case Do(c, rest) =>
      assert (Flatten(p) + k)[1..] == Flatten(rest) + k;
      var r := RunPlain(ops, c, s);
      if r.Next? {
        FlatIsNested(ops, rest, k, r.stack);
      }
    case If(negated, thn, elses, rest) =>
      hide RunFlat, Flatten, Holds;
      RunConditional(ops, p, k, s);
      if s != [] {
        var k' := Flatten(rest) + k;
        var s0 := s[..|s| - 1];
        var r;
        if Holds(s[|s| - 1], negated) {
          r := Exec(ops, thn, s0);
          FlatIsNested(ops, thn, k', s0);
        } else {
          r := ExecElses(ops, elses, s0);
          FlatIsNestedElses(ops, elses, k', s0);
        }
        if r.Next? {
          FlatIsNested(ops, rest, k, r.stack);
        }
      }
  }

  lemma {:induction false} FlatIsNestedElses(ops: OpTable, e: Elses, k: seq<Command>, s: seq<Bytes>)
    requires WellFormedElses(e)
    ensures RunFlat(ops, ElseBodies(e) + k, s) == Then(ExecElses(ops, e, s), s' => RunFlat(ops, k, s'))
    decreases e
  {
    match e
    case NoElse =>
      assert ElseBodies(e) + k == k;
    case Else(body, more) =>
      assert ElseBodies(e) + k == Flatten(body) + (ElseBodies(more) + k);
      FlatIsNested(ops, body, ElseBodies(more) + k, s);
      var r := Exec(ops, body, s);
      if r.Next? {
        FlatIsNestedElses(ops, more, k, r.stack);
      }
  }

  // ---------------------------------------------------------------- every script has such a meaning

  /** Where the nested reading of a script stops: at its end, at a stray ELSE or ENDIF, or at a
      conditional that is never closed. */
  predicate Stuck(k: seq<Command>) {
    || k == []
    || k[0] == Op(OP_ELSE)
    || k[0] == Op(OP_ENDIF)
    || (IsConditional(k[0]) && Scan(k[1..], 1, NO_BRANCHES) == None)
  }

  lemma {:induction false} ScanDeeper(k: seq<Command>, d1: nat, b1: Branches, d2: nat, b2: Branches)
    requires 1 <= d1 <= d2 && Scan(k, d1, b1) == None
    ensures Scan(k, d2, b2) == None
    decreases |k|
  {
    if k != [] {
      var c := k[0];
      var b1' := if d1 == 1 && c == Op(OP_ELSE) then b1.(inElse := true) else b1.Put([c]);
      var b2' := if d2 == 1 && c == Op(OP_ELSE) then b2.(inElse := true) else b2.Put([c]);
      if IsConditional(c) {
        ScanDeeper(k[1..], d1 + 1, b1', d2 + 1, b2');
      } else if c == Op(OP_ENDIF) {
        ScanDeeper(k[1..], d1 - 1, b1', d2 - 1, b2');
      } else {
        ScanDeeper(k[1..], d1, b1', d2, b2');
      }
    }
  }

  /** A stretch that leaves a conditional open is stuck for the conditional around it too. */
  lemma StuckScan(k: seq<Command>, b: Branches)
    requires Stuck(k) && Scan(k, 1, b).Some?
    ensures k != [] && !IsConditional(k[0]) && IsFlow(k[0])
  {
    if k != [] && IsConditional(k[0]) {
      ScanDeeper(k[1..], 1, NO_BRANCHES, 2, b.Put([k[0]]));
    }
  }

  lemma {:induction false} ParseProg(cmds: seq<Command>) returns (p: Prog, k: seq<Command>)
    ensures WellFormed(p) && cmds == Flatten(p) + k && Stuck(k)
    decreases |cmds|, 0
  {
    hide Scan;
    if Stuck(cmds) {
      p, k := Done, cmds;
    } else {
      var c, rest := cmds[0], cmds[1..];
      if !IsConditional(c) {
        p, k := ParseProg(rest);
        p := Do(c, p);
      } else {
        var thn, k1 := ParseProg(rest);
        ScanProg(thn, k1, 1, NO_BRANCHES);
        var elses, k2 := ParseElses(k1, NO_BRANCHES.Put(Flatten(thn)));
        p, k := ParseProg(k2[1..]);
        p := If(c == Op(OP_NOTIF), thn, elses, p);
        FlattenIf(p, k);
        assert k2 == [Op(OP_ENDIF)] + k2[1..];
      }
    }
  }

  lemma {:induction false} ParseElses(cmds: seq<Command>, b: Branches) returns (e: Elses, k: seq<Command>)
    requires Stuck(cmds) && Scan(cmds, 1, b).Some?
    ensures WellFormedElses(e) && cmds == FlattenElses(e) + k && k != [] && k[0] == Op(OP_ENDIF)
    decreases |cmds|, 1
  {
    StuckScan(cmds, b);
    if cmds[0] == Op(OP_ENDIF) {
      e, k := NoElse, cmds;
    } else {
      var body, k1 := ParseProg(cmds[1..]);
      var b' := b.(inElse := true);
      assert Scan(cmds, 1, b) == Scan(cmds[1..], 1, b');
      hide Scan;
      ScanProg(body, k1, 1, b');
      e, k := ParseElses(k1, b'.Put(Flatten(body)));
      e := Else(body, e);
    }
  }

  /** What the machine does where the nested reading stops. */
  function AtStuck(ops: OpTable, k: seq<Command>, s: seq<Bytes>): Step
    requires Stuck(k)
  {
    if k == [] then Next(s)
    else if k[0] == Op(OP_NOTIF) && s == [] then Raise
    else if IsConditional(k[0]) then Fail
    else Then(ops(k[0].code, s), s' => RunFlat(ops, k[1..], s'))
  }

  /** Every command list is a nested program followed by a stretch where the reading stops, and the
      machine gives it the nested program's meaning. */
  lemma EveryScriptIsNested(ops: OpTable, cmds: seq<Command>) returns (p: Prog, k: seq<Command>)
    ensures WellFormed(p) && cmds == Flatten(p) + k && Stuck(k)
    ensures forall s :: RunFlat(ops, cmds, s) == Then(Exec(ops, p, s), s' => AtStuck(ops, k, s'))
  {
    p, k := ParseProg(cmds);
    forall s ensures RunFlat(ops, cmds, s) == Then(Exec(ops, p, s), s' => AtStuck(ops, k, s')) {
      FlatIsNested(ops, p, k, s);
      var r := Exec(ops, p, s);
      if r.Next? {
        assert RunFlat(ops, k, r.stack) == AtStuck(ops, k, r.stack);
      }
    }
  }

  // ---------------------------------------------------------------- several ELSEs

  /** The meaning the Script documentation gives to ELSE: a block runs when the block before it did
      not. */
  function ExecTurns(ops: OpTable, p: Prog, s: seq<Bytes>): Step {
    match p
    case Done => Next(s)
    case Do(c, rest) => Then(RunPlain(ops, c, s), s' => ExecTurns(ops, rest, s'))
    case If(negated, thn, elses, rest) =>
      if s == [] then Raise
      else
        var s0 := s[..|s| - 1];
        var r :=
          if Holds(s[|s| - 1], negated) then Then(ExecTurns(ops, thn, s0), s' => ExecElseTurns(ops, elses, s', false))
          else ExecElseTurns(ops, elses, s0, true);
        Then(r, s' => ExecTurns(ops, rest, s'))
  }

  function ExecElseTurns(ops: OpTable, e: Elses, s: seq<Bytes>, run: bool): Step {
    match e
    case NoElse => Next(s)
    case Else(body, more) =>
      if run then Then(ExecTurns(ops, body, s), s' => ExecElseTurns(ops, more, s', false))
      else ExecElseTurns(ops, more, s, true)
  }

  predicate AtMostOneElse(p: Prog) {
    match p
    case Done => true
    case Do(_, rest) => AtMostOneElse(rest)
    case If(_, thn, NoElse, rest) => AtMostOneElse(thn) && AtMostOneElse(rest)
    case If(_, thn, Else(body, more), rest) =>
      AtMostOneElse(thn) && AtMostOneElse(body) && more == NoElse && AtMostOneElse(rest)
  }

  /** With at most one ELSE to a conditional the code gives it its documented meaning. */
  lemma {:induction false} OneElseAsDocumented(ops: OpTable, p: Prog, s: seq<Bytes>)
    requires AtMostOneElse(p)
    ensures Exec(ops, p, s) == ExecTurns(ops, p, s)
    decreases p
  {
    match p
    case Done =>
    case Do(c, rest) =>
      var r := RunPlain(ops, c, s);
      if r.Next? {
        OneElseAsDocumented(ops, rest, r.stack);
      }
    case If(negated, thn, elses, rest) =>
      if s != [] {
        var s0 := s[..|s| - 1];
        var r := Next(s0);
        if Holds(s[|s| - 1], negated) {
          r := Exec(ops, thn, s0);
          OneElseAsDocumented(ops, thn, s0);
          if r.Next? {
            assert ExecElseTurns(ops, elses, r.stack, false) == r;
          }
        } else if elses.Else? {
          r := Exec(ops, elses.body, s0);
          OneElseAsDocumented(ops, elses.body, s0);
          assert ExecElses(ops, elses, s0) == r == ExecElseTurns(ops, elses, s0, true);
        }
        if r.Next? {
          OneElseAsDocumented(ops, rest, r.stack);
        }
      }
  }

  /** What two ELSE blocks come to: the code runs both when the condition fails, the documented meaning
      runs the last one when it holds. */
  lemma TwoElses(ops: OpTable, thn: Prog, els: Prog, last: Prog, s: seq<Bytes>, negated: bool)
    requires s != []
    ensures var p := If(negated, thn, Else(els, Else(last, NoElse)), Done);
            var s0 := s[..|s| - 1];
            && Exec(ops, p, s) == (if Holds(s[|s| - 1], negated) then Exec(ops, thn, s0)
                                   else Then(Exec(ops, els, s0), s' => Exec(ops, last, s')))
            && ExecTurns(ops, p, s) == (if Holds(s[|s| - 1], negated)
                                        then Then(ExecTurns(ops, thn, s0), s' => ExecTurns(ops, last, s'))
                                        else ExecTurns(ops, els, s0))
  {
    hide Holds, RunPlain;
    var s0 := s[..|s| - 1];
    var holds := Holds(s[|s| - 1], negated);
    var first := if holds then ExecTurns(ops, thn, s0) else Exec(ops, els, s0);
    if first.Next? {
      LastElse(ops, last, first.stack);
    }
    BothElses(ops, els, last, s0);
    if holds && first.Next? {
      assert ExecElseTurns(ops, Else(els, Else(last, NoElse)), first.stack, false) == ExecTurns(ops, last, first.stack);
    }
  }

  lemma LastElse(ops: OpTable, last: Prog, s: seq<Bytes>)
    ensures ExecElses(ops, Else(last, NoElse), s) == Exec(ops, last, s)
    ensures ExecElseTurns(ops, Else(last, NoElse), s, true) == ExecTurns(ops, last, s)
    ensures ExecElseTurns(ops, Else(last, NoElse), s, false) == Next(s)
  {
    var r, t := Exec(ops, last, s), ExecTurns(ops, last, s);
    assert r.Next? ==> ExecElses(ops, NoElse, r.stack) == r;
    assert t.Next? ==> ExecElseTurns(ops, NoElse, t.stack, false) == t;
    assert ExecElseTurns(ops, NoElse, s, true) == Next(s);
  }

  lemma BothElses(ops: OpTable, els: Prog, last: Prog, s: seq<Bytes>)
    ensures var e := Else(els, Else(last, NoElse));
            && ExecElses(ops, e, s) == Then(Exec(ops, els, s), s' => Exec(ops, last, s'))
            && ExecElseTurns(ops, e, s, true) == ExecTurns(ops, els, s)
  {
    var r, t := Exec(ops, els, s), ExecTurns(ops, els, s);
    if r.Next? {
      LastElse(ops, last, r.stack);
    }
    if t.Next? {
      LastElse(ops, last, t.stack);
    }
  }

  /** A conditional with two ELSE blocks means what the documentation says exactly when the last block
      changes nothing behind the first of the blocks that runs. */
  lemma SecondElseIff(ops: OpTable, thn: Prog, els: Prog, last: Prog, s: seq<Bytes>, negated: bool)
    requires s != [] && AtMostOneElse(thn) && AtMostOneElse(els) && AtMostOneElse(last)
    ensures var p := If(negated, thn, Else(els, Else(last, NoElse)), Done);
            var first := Exec(ops, if Holds(s[|s| - 1], negated) then thn else els, s[..|s| - 1]);
            Exec(ops, p, s) == ExecTurns(ops, p, s)
            <==> (first.Next? ==> Exec(ops, last, first.stack) == first)
  {
    hide Exec, ExecTurns, AtMostOneElse;
    TwoElses(ops, thn, els, last, s, negated);
    var s0 := s[..|s| - 1];
    OneElseAsDocumented(ops, thn, s0);
    OneElseAsDocumented(ops, els, s0);
    forall t: seq<Bytes>
      ensures Exec(ops, last, t) == ExecTurns(ops, last, t)
    {
      OneElseAsDocumented(ops, last, t);
    }
  }

  lemma PushMeaning(ops: OpTable, d: Bytes, s: seq<Bytes>)
    ensures Exec(ops, Do(Data(d), Done), s) == ExecTurns(ops, Do(Data(d), Done), s) == Next(s + [d])
  {
    assert Exec(ops, Done, s + [d]) == ExecTurns(ops, Done, s + [d]) == Next(s + [d]);
  }

  /** With a second ELSE that pushes anything it does not, whatever the blocks before it push. */
  lemma SecondElseDiffers(ops: OpTable, s: seq<Bytes>, x: Bytes, y: Bytes, z: Bytes, negated: bool)
    requires s != []
    ensures var p := If(negated, Do(Data(x), Done),
                        Else(Do(Data(y), Done), Else(Do(Data(z), Done), NoElse)), Done);
            Exec(ops, p, s) != ExecTurns(ops, p, s)
  {
    var s0 := s[..|s| - 1];
    var py, last := Do(Data(y), Done), Else(Do(Data(z), Done), NoElse);
    if Holds(s[|s| - 1], negated) {
      PushMeaning(ops, x, s0);
      PushMeaning(ops, z, s0 + [x]);
      assert ExecElseTurns(ops, last, s0 + [x], true) == Next(s0 + [x] + [z]);
      assert ExecElseTurns(ops, Else(py, last), s0 + [x], false) == Next(s0 + [x] + [z]);
    } else {
      PushMeaning(ops, y, s0);
      PushMeaning(ops, z, s0 + [y]);
      assert ExecElses(ops, last, s0 + [y]) == Next(s0 + [y] + [z]);
      assert ExecElseTurns(ops, last, s0 + [y], false) == Next(s0 + [y]);
    }
  }
}
