/** The evaluator itself: the mutable stack, the mutable command list, and `Script.evaluate`. */
module ScriptMachine {
  import opened Digits
  import opened ScriptNum
  import opened ScriptFlow
  import opened Multisig
  import opened Sequences
  import opened Wrappers

  /** What an operation method reports: success, `return False`, or an exception. */
  datatype OpResult = Yes | No | Raised

  /** The list `evaluate` and the conditionals share. */
  class CommandList {
    var items: seq<Command>

    constructor (items: seq<Command>)
      ensures this.items == items
    {
      this.items := items;
    }

    method PopFront() returns (c: Command)
      requires items != []
      modifies this
      ensures [c] + items == old(items)
    {
      c, items := items[0], items[1..];
    }
  }

  /** `b` is the shortest string for `n`, and short enough to stay on the stack. */
  ghost predicate Represents(b: Bytes, n: int) {
    DecodeNum(b) == n && IsMinimal(b) && |b| <= 5
  }

  lemma EncodeRepresents(n: int)
    requires -0x80_0000_0000 < n < 0x80_0000_0000
    ensures Represents(EncodeNum(n), n)
  {
    DecodeEncode(n);
    EncodeIsMinimal(n);
    FourByteNumbers(n);
  }

  lemma OneAndZero()
    ensures DecodeNum([1]) == 1 && DecodeNum([0]) == 0
  {
    assert [1][..0] + [1] == [1] && [0][..0] + [0] == [0];
    assert ValLE([1], 256) == 1 && ValLE([0], 256) == 0;
  }

  class Stack {
    var items: seq<Bytes>

    constructor ()
      ensures items == []
    {
      items := [];
    }

    method Pop() returns (b: Bytes)
      requires items != []
      modifies this
      ensures items + [b] == old(items)
    {
      b, items := items[|items| - 1], items[..|items| - 1];
    }

    method PopAsNumber() returns (n: int)
      requires items != []
      modifies this
      ensures items == old(items[..|items| - 1])
      ensures n == DecodeNum(old(items[|items| - 1]))
    {
      var b := Pop();
      n := DecodeNum(b);
    }

    // ---------------------------------------------------------------- conditionals

    method OpIf(commands: CommandList) returns (r: OpResult)
      modifies this, commands
      ensures Scan(old(commands.items), 1, NO_BRANCHES) == None ==>
                r == No && commands.items == [] && items == old(items)
      ensures Scan(old(commands.items), 1, NO_BRANCHES).Some? && old(items) == [] ==> r == Raised
      ensures Scan(old(commands.items), 1, NO_BRANCHES).Some? && old(items) != [] ==>
                && r == Yes
                && items == old(items[..|items| - 1])
                && Branch(old(commands.items), old(items[|items| - 1]), false) == Some(commands.items)
      // a zero string runs what stands behind ELSE, any other string what stands in front of it
      ensures Scan(old(commands.items), 1, NO_BRANCHES).Some? && old(items) != [] ==>
                var split := Scan(old(commands.items), 1, NO_BRANCHES).value;
                commands.items
                == (if IsZeroString(old(items[|items| - 1])) then split.b.els else split.b.thn) + split.rest
    {
      var b := NO_BRANCHES;
      var found := false;
      var numEndifsNeeded := 1;
      while |commands.items| > 0 && !found
        invariant numEndifsNeeded >= 1 && items == old(items)
        invariant Scan(old(commands.items), 1, NO_BRANCHES) ==
                  if found then Some(Split(b, commands.items)) else Scan(commands.items, numEndifsNeeded, b)
        decreases |commands.items|, !found
      {
        var item := commands.PopFront();
        if item == Op(OP_IF) || item == Op(OP_NOTIF) {
          numEndifsNeeded := numEndifsNeeded + 1;
          b := b.Put([item]);
        } else if numEndifsNeeded == 1 && item == Op(OP_ELSE) {
          b := b.(inElse := true);
        } else if item == Op(OP_ENDIF) {
          if numEndifsNeeded == 1 {
            found := true;
          } else {
            numEndifsNeeded := numEndifsNeeded - 1;
            b := b.Put([item]);
          }
        } else {
          b := b.Put([item]);
        }
      }
      if !found {
        return No;
      }
      if items == [] {
        return Raised;
      }
      var element := Pop();
      FalseIffZeroString(element);
      commands.items := (if DecodeNum(element) == 0 then b.els else b.thn) + commands.items;
      return Yes;
    }

    method OpNotif(commands: CommandList) returns (r: OpResult)
      modifies this, commands
      ensures old(items) == [] ==> r == Raised
      ensures old(items) != [] && Scan(old(commands.items), 1, NO_BRANCHES) == None ==> r == No
      ensures old(items) != [] && Scan(old(commands.items), 1, NO_BRANCHES).Some? ==>
                && r == Yes
                && items == old(items[..|items| - 1])
                && Branch(old(commands.items), old(items[|items| - 1]), true) == Some(commands.items)
      ensures old(items) != [] && Scan(old(commands.items), 1, NO_BRANCHES).Some? ==>
                var split := Scan(old(commands.items), 1, NO_BRANCHES).value;
                commands.items
                == (if IsZeroString(old(items[|items| - 1])) then split.b.thn else split.b.els) + split.rest
    {
      if items == [] {
        return Raised;
      }
      var element := Pop();
      FalseIffZeroString(element);
      items := items + [if DecodeNum(element) == 0 then [1] else [0]];
      OneAndZero();
      assert IsZeroString([0]) && !IsZeroString([1]);
      hide DecodeNum, Scan, IsZeroString;
      r := OpIf(commands);
    }

    // ---------------------------------------------------------------- arithmetic

    /** `is_arithmetic(n)`: None when there are too few items, which raises. */
    function IsArithmetic(n: nat): Option<bool>
      reads this
    {
      if |items| < n then None
      else Some(forall i :: |items| - n <= i < |items| ==> |items[i]| <= 4)
    }

    /** The result `n` replaces the top `k` items when all of them are numbers. */
    twostate predicate Computes(k: nat, r: OpResult, n: int)
      reads this
    {
      if old(|items|) < k then r == Raised && items == old(items)
      else if exists i :: old(|items|) - k <= i < old(|items|) && old(|items[i]|) > 4 then r == No && items == old(items)
      else
        && r == Yes
        && |items| == old(|items|) - k + 1
        && items[..|items| - 1] == old(items[..|items| - k])
        && Represents(items[|items| - 1], n)
    }

    /** The number `i` places below the top. */
    function Operand(i: nat): int
      reads this
    {
      if i < |items| then DecodeNum(items[|items| - 1 - i]) else 0
    }

    method Op1Add() returns (r: OpResult)
      modifies this
      ensures Computes(1, r, old(Operand(0)) + 1)
    {
      match IsArithmetic(1) {
        case None => return Raised;
        case Some(ok) => if !ok { return No; }
      }
      hide DecodeNum, EncodeNum, IsMinimal;
      DecodedRange(items[|items| - 1]);
      var n := PopAsNumber();
      items := items + [EncodeNum(n + 1)];
      EncodeRepresents(n + 1);
      return Yes;
    }

    method Op1Sub() returns (r: OpResult)
      modifies this
      ensures Computes(1, r, old(Operand(0)) - 1)
    {
      match IsArithmetic(1) {
        case None => return Raised;
        case Some(ok) => if !ok { return No; }
      }
      hide DecodeNum, EncodeNum, IsMinimal;
      DecodedRange(items[|items| - 1]);
      var n := PopAsNumber();
      items := items + [EncodeNum(n - 1)];
      EncodeRepresents(n - 1);
      return Yes;
    }

    method OpNegate() returns (r: OpResult)
      modifies this
      ensures Computes(1, r, -old(Operand(0)))
    {
      match IsArithmetic(1) {
        case None => return Raised;
        case Some(ok) => if !ok { return No; }
      }
      hide DecodeNum, EncodeNum, IsMinimal;
      DecodedRange(items[|items| - 1]);
      var n := PopAsNumber();
      items := items + [EncodeNum(-n)];
      EncodeRepresents(-n);
      return Yes;
    }

    method OpAbs() returns (r: OpResult)
      modifies this
      ensures Computes(1, r, Abs(old(Operand(0))))
    {
      match IsArithmetic(1) {
        case None => return Raised;
        case Some(ok) => if !ok { return No; }
      }
      hide DecodeNum, EncodeNum, IsMinimal;
      DecodedRange(items[|items| - 1]);
      var n := PopAsNumber();
      items := items + [EncodeNum(Abs(n))];
      EncodeRepresents(Abs(n));
      return Yes;
    }

    method OpAdd() returns (r: OpResult)
      modifies this
      ensures Computes(2, r, old(Operand(0)) + old(Operand(1)))
    {
      match IsArithmetic(2) {
        case None => return Raised;
        case Some(ok) => if !ok { return No; }
      }
      hide DecodeNum, EncodeNum, IsMinimal;
      DecodedRange(items[|items| - 1]);
      DecodedRange(items[|items| - 2]);
      var a := PopAsNumber();
      var b := PopAsNumber();
      items := items + [EncodeNum(a + b)];
      EncodeRepresents(a + b);
      return Yes;
    }

    method OpMin() returns (r: OpResult)
      modifies this
      ensures Computes(2, r, if old(Operand(0)) <= old(Operand(1)) then old(Operand(0)) else old(Operand(1)))
    {
      match IsArithmetic(2) {
        case None => return Raised;
        case Some(ok) => if !ok { return No; }
      }
      hide DecodeNum, EncodeNum, IsMinimal;
      DecodedRange(items[|items| - 1]);
      DecodedRange(items[|items| - 2]);
      var a := PopAsNumber();
      var b := PopAsNumber();
      var least := if a < b then a else b;
      items := items + [EncodeNum(least)];
      EncodeRepresents(least);
      return Yes;
    }

    method OpMax() returns (r: OpResult)
      modifies this
      ensures Computes(2, r, if old(Operand(0)) >= old(Operand(1)) then old(Operand(0)) else old(Operand(1)))
    {
      match IsArithmetic(2) {
        case None => return Raised;
        case Some(ok) => if !ok { return No; }
      }
      hide DecodeNum, EncodeNum, IsMinimal;
      DecodedRange(items[|items| - 1]);
      DecodedRange(items[|items| - 2]);
      var a := PopAsNumber();
      var b := PopAsNumber();
      var most := if a > b then a else b;
      items := items + [EncodeNum(most)];
      EncodeRepresents(most);
      return Yes;
    }

    // ---------------------------------------------------------------- multisig

    /** `[self.pop() for _ in range(n)]`, or None when it raises. */
    method PopMany(n: int) returns (r: Option<seq<Bytes>>)
      modifies this
      ensures r.Some? <==> n <= old(|items|)
      ensures r.Some? ==> PopN(old(items), n) == Some((r.value, items))
    {
      var popped: seq<Bytes> := [];
      var i := 0;
      while i < n
        invariant |popped| == i && 0 <= i <= old(|items|) && (n >= 0 ==> i <= n)
        invariant n < 0 ==> i == 0
        invariant items == old(items)[..old(|items|) - i]
        invariant popped == Reverse(old(items)[old(|items|) - i..])
      {
        if items == [] {
          return None;
        }
        var b := Pop();
        popped := popped + [b];
        i := i + 1;
      }
      return Some(popped);
    }

    method OpCheckMultisig(parses: Bytes -> bool, v: (Bytes, Bytes) -> bool) returns (r: OpResult)
      modifies this
      ensures match CheckMultisig(parses, v, old(items))
              case None => r == Raised
              case Some(s) => r == Yes && items == s
    {
      hide DecodeNum;
      if items == [] {
        return Raised;
      }
      var n := PopAsNumber();
      var pubkeys := PopMany(n);
      if pubkeys == None || items == [] {
        return Raised;
      }
      var m := PopAsNumber();
      var signatures := PopMany(m);
      if signatures == None {
        return Raised;
      }
      if |items| > 0 {
        var _ := Pop();
      }
      var valid, raised := CheckLoop(parses, v, signatures.value, pubkeys.value);
      if raised {
        return Raised;
      }
      items := items + [if valid then [1] else []];
      return Yes;
    }

    static method CheckLoop(parses: Bytes -> bool, v: (Bytes, Bytes) -> bool, sigs: seq<Bytes>, keys: seq<Bytes>)
      returns (valid: bool, raised: bool)
      ensures (valid, raised) == CheckKeys(parses, v, sigs, keys)
    {
      var sigcount, k := 0, 0;
      while k < |keys|
        invariant 0 <= k <= |keys| && 0 <= sigcount <= |sigs|
        invariant k > 0 ==> sigcount < |sigs|
        invariant CheckKeys(parses, v, sigs, keys) == CheckKeys(parses, v, sigs[sigcount..], keys[k..])
      {
        if sigcount >= |sigs| || !parses(sigs[sigcount]) {
          return false, true;
        }
        var pubkey := keys[k];
        assert keys[k..][1..] == keys[k + 1..] && sigs[sigcount..][1..] == sigs[sigcount + 1..];
        k := k + 1;
        if v(sigs[sigcount], pubkey) {
          sigcount := sigcount + 1;
          if sigcount >= |sigs| {
            break;
          }
        }
      }
      return sigcount == |sigs|, false;
    }
  }

  function DropLast(s: seq<Bytes>): seq<Bytes> {
    if s == [] then [] else s[..|s| - 1]
  }

  /** The `n` topmost items, top first, and the stack below them. */
  function PopN(s: seq<Bytes>, n: int): Option<(seq<Bytes>, seq<Bytes>)> {
    var k: nat := if n < 0 then 0 else n;
    if k > |s| then None else Some((Reverse(s[|s| - k..]), s[..|s| - k]))
  }

  /** A count and that many items. */
  function PopCounted(s: seq<Bytes>): Option<(seq<Bytes>, seq<Bytes>)> {
    if s == [] then None else PopN(s[..|s| - 1], DecodeNum(s[|s| - 1]))
  }

  /** The stack after CHECKMULTISIG; None when it raises. */
  function CheckMultisig(parses: Bytes -> bool, v: (Bytes, Bytes) -> bool, s: seq<Bytes>): (r: Option<seq<Bytes>>)
    ensures r.Some? ==> r.value != []
  {
    match PopCounted(s)
    case None => None
    case Some((keys, s1)) =>
      match PopCounted(s1)
      case None => None
      case Some((sigs, s2)) =>
        var (valid, raised) := CheckKeys(parses, v, sigs, keys);
        if raised then None else Some(DropLast(s2) + [if valid then [1] else []])
  }

  /** On a stack laid out as the documentation says, m signatures above a dummy and n keys above
      them, the opcode leaves true exactly when an order-preserving assignment exists. */
  lemma CheckMultisigMeaning(parses: Bytes -> bool, v: (Bytes, Bytes) -> bool,
                             below: seq<Bytes>, dummy: Bytes,
                             sigs: seq<Bytes>, m: Bytes, keys: seq<Bytes>, n: Bytes)
    requires DecodeNum(m) == |sigs| >= 1 && DecodeNum(n) == |keys|
    requires forall x :: x in sigs ==> parses(x)
    ensures CheckMultisig(parses, v, below + [dummy] + sigs + [m] + keys + [n])
         == Some(below + [if Satisfies(v, sigs, keys) then [1] else []])
  {
    hide DecodeNum, CheckKeys;
    var s2 := below + [dummy];
    PopCountedLayout(s2 + sigs + [m], keys, n);
    PopCountedLayout(s2, sigs, m);
    assert DropLast(s2) == below;
    CheckKeysIsGreedy(parses, v, Reverse(sigs), Reverse(keys));
    GreedyIffSatisfies(v, Reverse(sigs), Reverse(keys));
    ReverseSatisfies(v, sigs, keys);
  }

  /** The documented meaning also covers zero signatures, which always suffice. The code agrees only
      when there are no keys either; with keys it raises. */
  lemma CheckMultisigNoSignatures(parses: Bytes -> bool, v: (Bytes, Bytes) -> bool,
                                  below: seq<Bytes>, dummy: Bytes, m: Bytes, keys: seq<Bytes>, n: Bytes)
    requires DecodeNum(m) == 0 && DecodeNum(n) == |keys|
    ensures Satisfies(v, [], keys)
    ensures CheckMultisig(parses, v, below + [dummy] + [m] + keys + [n])
         == if keys == [] then Some(below + [[1]]) else None
  {
    hide DecodeNum;
    var none: seq<nat> := [];
    assert Embeds(v, [], keys, none);
    var s2 := below + [dummy];
    PopCountedLayout(s2 + [m], keys, n);
    PopCountedLayout(s2, [], m);
    assert s2 + [] + [m] == s2 + [m];
    assert DropLast(s2) == below;
  }

  /** What `evaluate` makes of CHECKMULTISIG: the answer is verified at once, and the redeem script of the
      environment is pushed. Whatever is raised counts as False. One of the steps an `OpTable` holds. */
  function MultisigStep(parses: Bytes -> bool, v: (Bytes, Bytes) -> bool, redeemscript: Option<Bytes>, s: seq<Bytes>): Step {
    match CheckMultisig(parses, v, s)
    case None => Fail
    case Some(after) =>
      if after[|after| - 1] == [] || redeemscript == None then Fail else Next(after[..|after| - 1] + [redeemscript.value])
  }

  /** On the documented layout the script goes on with the redeem script on top exactly when the
      signatures can be assigned to keys in order. */
  lemma MultisigStepMeaning(parses: Bytes -> bool, v: (Bytes, Bytes) -> bool, redeemscript: Bytes,
                            below: seq<Bytes>, dummy: Bytes,
                            sigs: seq<Bytes>, m: Bytes, keys: seq<Bytes>, n: Bytes)
    requires DecodeNum(m) == |sigs| >= 1 && DecodeNum(n) == |keys|
    requires forall x :: x in sigs ==> parses(x)
    ensures MultisigStep(parses, v, Some(redeemscript), below + [dummy] + sigs + [m] + keys + [n])
         == if Satisfies(v, sigs, keys) then Next(below + [redeemscript]) else Fail
  {
    hide DecodeNum, CheckMultisig, Satisfies;
    CheckMultisigMeaning(parses, v, below, dummy, sigs, m, keys, n);
  }

  lemma PopCountedLayout(s: seq<Bytes>, xs: seq<Bytes>, n: Bytes)
    requires DecodeNum(n) == |xs|
    ensures PopCounted(s + xs + [n]) == Some((Reverse(xs), s))
  {
    hide DecodeNum;
    var all := s + xs + [n];
    assert all[..|all| - 1] == s + xs;
    assert (s + xs)[|s|..] == xs && (s + xs)[..|s|] == s;
  }

  // ---------------------------------------------------------------- evaluate

  /** An element of `Script.commands`; a redeem script is a list of its own. */
  datatype Item = One(c: Command) | Sub(cs: seq<Command>)

  function Commands(items: seq<Item>): seq<Command> {
    if items == [] then []
    else
      var init := Commands(items[..|items| - 1]);
      match items[|items| - 1]
      case One(c) => init + [c]
      case Sub(cs) => init + cs
  }

  /** The commands are those of the elements one after the other, those of a redeem script in its place. */
  lemma {:induction false} CommandsInOrder(items: seq<Item>, more: seq<Item>)
    ensures Commands(items + more) == Commands(items) + Commands(more)
    decreases |more|
  {
    if more == [] {
      assert items + more == items;
    } else {
      var init := more[..|more| - 1];
      CommandsInOrder(items, init);
      assert (items + more)[..|items + more| - 1] == items + init;
    }
  }

  lemma CommandsOfOne(item: Item)
    ensures Commands([]) == []
    ensures Commands([item]) == match item case One(c) => [c] case Sub(cs) => cs
  {
    assert [item][..0] == [];
    assert Commands([]) == [];
  }

  datatype Verdict = Valid | Invalid | Exception

  /** A script is valid when it ends with a non-empty string on top. */
  function Judge(r: Step): Verdict {
    match r
    case Next(s) => if s == [] || s[|s| - 1] == [] then Invalid else Valid
    case Fail => Invalid
    case Raise => Exception
  }

  class Script {
    const commands: seq<Item>
    var stack: Stack

    constructor (commands: seq<Item>)
      ensures this.commands == commands
    {
      this.commands := commands;
      stack := new Stack();
    }

    method Evaluate(ops: OpTable) returns (v: Verdict)
      modifies this
      ensures v == Judge(RunFlat(ops, Commands(commands), []))
      ensures v == Valid <==>
                var r := RunFlat(ops, Commands(commands), []);
                r.Next? && r.stack != [] && r.stack[|r.stack| - 1] != []
      ensures v == Exception <==> RunFlat(ops, Commands(commands), []) == Raise
    {
      hide Scan, EncodeNum, DecodeNum;
      stack := new Stack();
      var list := new CommandList([]);
      for i := 0 to |commands|
        invariant list.items == Commands(commands[..i]) && stack.items == []
        invariant fresh(list) && fresh(stack)
      {
        assert commands[..i + 1][..i] == commands[..i];
        match commands[i] {
          case One(c) => list.items := list.items + [c];
          case Sub(cs) => list.items := list.items + cs;
        }
      }
      assert commands[..|commands|] == commands;
      while |list.items| > 0
        invariant fresh(list) && fresh(stack)
        invariant RunFlat(ops, Commands(commands), []) == RunFlat(ops, list.items, stack.items)
        decreases |list.items|
      {
        var command := list.PopFront();
        if command == Op(OP_IF) || command == Op(OP_NOTIF) {
          var r: OpResult;
          if command == Op(OP_IF) {
            r := stack.OpIf(list);
          } else {
            r := stack.OpNotif(list);
          }
          match r {
            case Yes =>
            case No => return Invalid;
            case Raised => return Exception;
          }
        } else {
          match RunPlain(ops, command, stack.items) {
            case Next(s) => stack.items := s;
            case Fail => return Invalid;
            case Raise => return Exception;
          }
        }
      }
      if |stack.items| == 0 {
        return Invalid;
      }
      var top := stack.Pop();
      return if top == [] then Invalid else Valid;
    }
  }

  /** Evaluating the flat form of a nested program judges the program's own meaning. */
  lemma EvaluateNested(ops: OpTable, p: Prog)
    requires WellFormed(p)
    ensures Judge(RunFlat(ops, Flatten(p), [])) == Judge(Exec(ops, p, []))
  {
    FlatIsNested(ops, p, [], []);
    assert Flatten(p) + [] == Flatten(p);
  }

  /** The final test and VERIFY compare with the empty string, the conditionals with zero. They
      disagree about exactly the strings that are zero without being empty. */
  lemma TwoNotionsOfTruth(b: Bytes)
    ensures (b != []) == (DecodeNum(b) != 0) <==> (b == [] || !IsZeroString(b))
  {
    FalseIffZeroString(b);
  }
}
