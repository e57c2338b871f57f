/** Transactions on the wire: `Transaction.raw`, `Block.parse_transaction_dict` and
    `Block.parse_transactions_dict` (BIP 144, section "Serialization"). */
module Wire {
  import opened Digits
  import opened CompactSize
  import opened Sequences
  import opened Wrappers

  // ---------------------------------------------------------------- reading and writing lists

  /** Something read at the head of a stream, its bytes and the bytes after it. */
  datatype Step<+T> = Step(value: T, raw: Bytes, rest: Bytes)

  /** A reader; None when the code raises. */
  type Reader<!T> = Bytes -> Option<Step<T>>

  function Prepend<T>(xs: seq<T>, raw: Bytes, r: Option<Step<seq<T>>>): Option<Step<seq<T>>> {
    match r
    case None => None
    case Some(step) => Some(Step(xs + step.value, raw + step.raw, step.rest))
  }

  function ReadList<T>(read: Reader<T>, n: nat, s: Bytes): Option<Step<seq<T>>> {
    if n == 0 then Some(Step([], [], s))
    else
      match read(s)
      case None => None
      case Some(step) => Prepend([step.value], step.raw, ReadList(read, n - 1, step.rest))
  }

  lemma PrependNothing<T>(r: Option<Step<seq<T>>>)
    ensures Prepend([], [], r) == r
  {
    if r.Some? {
      assert [] + r.value.value == r.value.value;
      assert [] + r.value.raw == r.value.raw;
    }
  }

  lemma PrependTwice<T>(xs: seq<T>, a: Bytes, ys: seq<T>, b: Bytes, r: Option<Step<seq<T>>>)
    ensures Prepend(xs, a, Prepend(ys, b, r)) == Prepend(xs + ys, a + b, r)
  {
    if r.Some? {
      assert xs + (ys + r.value.value) == (xs + ys) + r.value.value;
      assert a + (b + r.value.raw) == (a + b) + r.value.raw;
    }
  }

  /** What was read followed by what is left is what there was. */
  ghost predicate Consumes<T>(read: Reader<T>) {
    forall s :: read(s).Some? ==> read(s).value.raw + read(s).value.rest == s
  }

  lemma {:induction false} ReadListConsumes<T>(read: Reader<T>, n: nat, s: Bytes)
    requires Consumes(read)
    ensures var r := ReadList(read, n, s);
            r.Some? ==> r.value.raw + r.value.rest == s && |r.value.value| == n
  {
    if n > 0 && read(s).Some? {
      var step := read(s).value;
      ReadListConsumes(read, n - 1, step.rest);
      var r := ReadList(read, n - 1, step.rest);
      if r.Some? {
        assert step.raw + (r.value.raw + r.value.rest) == (step.raw + r.value.raw) + r.value.rest;
      }
    }
  }

  /** The bytes of a list, one element after the other. */
  function Written<T>(write: T -> Bytes, xs: seq<T>): Bytes {
    if xs == [] then [] else write(xs[0]) + Written(write, xs[1..])
  }

  lemma {:induction false} WrittenSnoc<T>(write: T -> Bytes, xs: seq<T>, x: T)
    ensures Written(write, xs + [x]) == Written(write, xs) + write(x)
  {
    if xs == [] {
      assert [x][1..] == [];
    } else {
      assert (xs + [x])[1..] == xs[1..] + [x];
      WrittenSnoc(write, xs[1..], x);
    }
  }

  /** Reading `write(x)` in front of anything gives `view(x)`. */
  ghost predicate ReadsBack<T, U>(read: Reader<U>, write: T -> Bytes, view: T -> U, x: T) {
    forall tail :: read(write(x) + tail) == Some(Step(view(x), write(x), tail))
  }

  function Map<T, U>(f: T -> U, xs: seq<T>): (r: seq<U>)
    ensures |r| == |xs| && forall i :: 0 <= i < |xs| ==> r[i] == f(xs[i])
  {
    seq(|xs|, i requires 0 <= i < |xs| => f(xs[i]))
  }

  lemma {:induction false} ReadListBack<T, U>(read: Reader<U>, write: T -> Bytes, view: T -> U, xs: seq<T>, tail: Bytes)
    requires forall x :: x in xs ==> ReadsBack(read, write, view, x)
    ensures ReadList(read, |xs|, Written(write, xs) + tail) == Some(Step(Map(view, xs), Written(write, xs), tail))
  {
    if xs == [] {
      assert Written(write, xs) + tail == tail;
    } else {
      var more := Written(write, xs[1..]);
      assert Written(write, xs) + tail == write(xs[0]) + (more + tail);
      assert ReadsBack(read, write, view, xs[0]);
      ReadListBack(read, write, view, xs[1..], tail);
      assert Map(view, xs) == [view(xs[0])] + Map(view, xs[1..]);
    }
  }

  // ---------------------------------------------------------------- reading a transaction

  datatype InputDict = InputDict(
    prevTxid: Bytes, outputN: Bytes, unlockingScript: Bytes, segwitType: bool, sequence: Bytes, witnesses: seq<Bytes>)

  datatype OutputDict = OutputDict(value: nat, lockScript: Bytes)

  /** The dictionary of a transaction; `txidData` is what its id is the hash of. */
  datatype TxDict = TxDict(
    version: Bytes, segwit: bool, coinbase: bool, inputs: seq<InputDict>, outputs: seq<OutputDict>, outputTotal: nat,
    locktime: nat, rawtx: Bytes, txidData: Bytes)

  /** An input; the code raises when the previous transaction id is cut short. */
  function ReadInput(s: Bytes, segwit: bool): Option<Step<InputDict>> {
    var id := Take(s, 32);
    if |id| != 32 then None
    else
      var s1 := Drop(s, 32);
      var n, s2 := Take(s1, 4), Drop(s1, 4);
      var script := ReadStr(s2);
      var sequence := Take(script.rest, 4);
      var inp := InputDict(Reverse(id), Reverse(n), script.value, segwit && ReadSize(s2).value == 0, sequence, []);
      Some(Step(inp, id + n + script.raw + sequence, Drop(script.rest, 4)))
  }

  function ReadOutput(s: Bytes): Option<Step<OutputDict>> {
    var value, script := Take(s, 8), ReadStr(Drop(s, 8));
    Some(Step(OutputDict(FromLittleEndian(value), script.value), value + script.raw, script.rest))
  }

  function ReadItem(s: Bytes): Option<Step<Bytes>> {
    var item := ReadStr(s);
    Some(Step(item.value, item.raw, item.rest))
  }

  /** The witnesses of one input. */
  function ReadWitnesses(s: Bytes): Option<Step<seq<Bytes>>> {
    Counted(ItemReader(), s)
  }

  function InputReader(segwit: bool): Reader<InputDict> {
    s => ReadInput(s, segwit)
  }

  function OutputReader(): Reader<OutputDict> {
    s => ReadOutput(s)
  }

  function ItemReader(): Reader<Bytes> {
    s => ReadItem(s)
  }

  function WitnessReader(): Reader<seq<Bytes>> {
    s => ReadWitnesses(s)
  }

  function Counted<T>(read: Reader<T>, s: Bytes): Option<Step<seq<T>>> {
    var n := ReadSize(s);
    match ReadList(read, n.value, n.rest)
    case None => None
    case Some(step) => Some(Step(step.value, n.raw + step.raw, step.rest))
  }

  /** The witness section, one stack for each input. */
  function ReadWitnessSection(s: Bytes, segwit: bool, n: nat): Option<Step<seq<seq<Bytes>>>> {
    if segwit then ReadList(WitnessReader(), n, s) else Some(Step([], [], s))
  }

  function WithWitnesses(inputs: seq<InputDict>, witnesses: seq<seq<Bytes>>): (r: seq<InputDict>)
    ensures |r| == |inputs|
  {
    seq(|inputs|, i requires 0 <= i < |inputs| =>
      if i < |witnesses| then inputs[i].(witnesses := witnesses[i]) else inputs[i])
  }

  function OutputTotal(outputs: seq<OutputDict>): nat {
    if outputs == [] then 0 else OutputTotal(outputs[..|outputs| - 1]) + outputs[|outputs| - 1].value
  }

  /** The flag the code leaves behind is the one of the last input. */
  predicate IsCoinbase(inputs: seq<InputDict>) {
    inputs != [] && inputs[|inputs| - 1].prevTxid == Zeros(32)
  }

  /** A transaction after version and marker. */
  function ReadBody(version: Bytes, rawFlag: Bytes, segwit: bool, s: Bytes): Option<Step<TxDict>> {
    match Counted(InputReader(segwit), s)
    case None => None
    case Some(ins) =>
      match Counted(OutputReader(), ins.rest)
      case None => None
      case Some(outs) =>
        if outs.value == [] then None
        else
          match ReadWitnessSection(outs.rest, segwit, |ins.value|)
          case None => None
          case Some(wit) =>
            var locktime := Take(wit.rest, 4);
            var core := ins.raw + outs.raw;
            var inputs := WithWitnesses(ins.value, wit.value);
            var raw := version + rawFlag + core + wit.raw + locktime;
            Some(Step(TxDict(Reverse(version), segwit, IsCoinbase(inputs), inputs, outs.value, OutputTotal(outs.value),
                             FromLittleEndian(locktime), raw, version + core + locktime),
                      core + wit.raw + locktime,
                      Drop(wit.rest, 4)))
  }

  datatype Outcome = Parsed(tx: TxDict, rest: Bytes) | NoTransaction | Malformed

  function Finish(r: Option<Step<TxDict>>): Outcome {
    match r
    case None => Malformed
    case Some(step) => Parsed(step.value, step.rest)
  }

  /** Whether a segwit marker follows the version. */
  predicate HasMarker(s: Bytes) {
    |s| > 4 && s[4] == 0
  }

  /** What stands between the version and the inputs. */
  datatype Marker = Marker(segwit: bool, rawFlag: Bytes, rest: Bytes)

  /** A zero byte after the version is the marker and the byte behind it the flag. Any other byte is
      put back, and where there is none the stream steps back all the same, into the version. */
  function ReadMarker(version: Bytes, s: Bytes): Marker
    requires version != []
  {
    if s == [] then Marker(false, [], [version[|version| - 1]])
    else if s[0] == 0 then Marker(Take(s[1..], 1) == [1], [0, 1], Drop(s[1..], 1))
    else Marker(false, [], s)
  }

  /** `parse_transaction_dict`. */
  function ReadTx(s: Bytes): Outcome {
    var version := Take(s, 4);
    if version == [] then NoTransaction
    else
      var m := ReadMarker(version, Drop(s, 4));
      Finish(ReadBody(version, m.rawFlag, m.segwit, m.rest))
  }

  // ---------------------------------------------------------------- what is accepted

  lemma {:induction false} InputsAreWhole(segwit: bool, n: nat, s: Bytes)
    ensures var r := ReadList(InputReader(segwit), n, s);
            r.Some? ==>
              && |r.value.value| == n
              && forall i :: 0 <= i < n ==>
                   && |r.value.value[i].prevTxid| == 32 && r.value.value[i].witnesses == []
                   && (r.value.value[i].segwitType ==> segwit && r.value.value[i].unlockingScript == [])
  {
    hide ReadInput;
    if n > 0 && ReadInput(s, segwit).Some? {
      InputIsWhole(segwit, s);
      InputsAreWhole(segwit, n - 1, ReadInput(s, segwit).value.rest);
    }
  }

  lemma InputIsWhole(segwit: bool, s: Bytes)
    requires ReadInput(s, segwit).Some?
    ensures var i := ReadInput(s, segwit).value.value;
            |i.prevTxid| == 32 && i.witnesses == [] && (i.segwitType ==> segwit && i.unlockingScript == [])
  {
    hide ReadSize;
  }

  /** The sum of the amounts, one output after the other. */
  function SumOf(outputs: seq<OutputDict>): nat {
    if outputs == [] then 0 else outputs[0].value + SumOf(outputs[1..])
  }

  lemma {:induction false} SumOfMore(outputs: seq<OutputDict>, outp: OutputDict)
    ensures SumOf(outputs + [outp]) == SumOf(outputs) + outp.value
  {
    if outputs == [] {
      assert [outp][1..] == [];
    } else {
      assert (outputs + [outp])[1..] == outputs[1..] + [outp];
      SumOfMore(outputs[1..], outp);
    }
  }

  lemma {:induction false} TotalIsSum(outputs: seq<OutputDict>)
    ensures OutputTotal(outputs) == SumOf(outputs)
  {
    if outputs != [] {
      var init, last := outputs[..|outputs| - 1], outputs[|outputs| - 1];
      assert outputs == init + [last];
      SumOfMore(init, last);
      TotalIsSum(init);
    }
  }

  /** Whatever is accepted, cut short or not, has an output, the sum of its outputs for total and whole previous
      transaction ids, is a coinbase by its last input alone, and has witnesses only behind a segwit flag. */
  lemma ParsedIsSound(version: Bytes, rawFlag: Bytes, segwit: bool, s: Bytes)
    requires ReadBody(version, rawFlag, segwit, s).Some?
    ensures var tx := ReadBody(version, rawFlag, segwit, s).value.value;
            && tx.outputs != [] && tx.outputTotal == SumOf(tx.outputs)
            && (tx.coinbase <==> tx.inputs != [] && IsZeroId(tx.inputs[|tx.inputs| - 1].prevTxid))
            && (forall i :: 0 <= i < |tx.inputs| ==> |tx.inputs[i].prevTxid| == 32)
            && (forall i :: 0 <= i < |tx.inputs| && tx.inputs[i].segwitType ==> segwit && tx.inputs[i].unlockingScript == [])
            && version <= tx.txidData
            && (!segwit ==> tx.rawtx == version + rawFlag + tx.txidData[|version|..])
            && (!segwit ==> forall i :: 0 <= i < |tx.inputs| ==> tx.inputs[i].witnesses == [])
  {
    hide ReadList, OutputTotal, IsCoinbase, Take, Drop;
    var n := ReadSize(s);
    InputsAreWhole(segwit, n.value, n.rest);
    var step := ReadBody(version, rawFlag, segwit, s).value;
    TotalIsSum(step.value.outputs);
    AllZeros(step.value.inputs);
    if !segwit {
      var ins := Counted(InputReader(segwit), s).value;
      var outs := Counted(OutputReader(), ins.rest).value;
      var locktime := Take(outs.rest, 4);
      assert version + (ins.raw + outs.raw) + locktime == version + ((ins.raw + outs.raw) + locktime);
      assert version + rawFlag + (ins.raw + outs.raw) + [] + locktime
          == version + rawFlag + ((ins.raw + outs.raw) + locktime);
    }
  }

  predicate IsZeroId(id: Bytes) {
    forall i :: 0 <= i < |id| ==> id[i] == 0
  }

  lemma AllZeros(inputs: seq<InputDict>)
    requires inputs != [] ==> |inputs[|inputs| - 1].prevTxid| == 32
    ensures IsCoinbase(inputs) <==> inputs != [] && IsZeroId(inputs[|inputs| - 1].prevTxid)
  {
    if inputs != [] {
      var id := inputs[|inputs| - 1].prevTxid;
      assert IsZeroId(id) ==> id == Zeros(32);
    }
  }

  // ---------------------------------------------------------------- nothing is lost

  lemma InputReaderConsumes(segwit: bool)
    ensures Consumes(InputReader(segwit))
  {
    forall s | ReadInput(s, segwit).Some?
      ensures var step := ReadInput(s, segwit).value;
              step.raw + step.rest == s
    {
      var s1 := Drop(s, 32);
      var s2 := Drop(s1, 4);
      var script := ReadStr(s2);
      TakeDrop(s, 32);
      TakeDrop(s1, 4);
      ReadStrConsumes(s2);
      TakeDrop(script.rest, 4);
      Join5(Take(s, 32), Take(s1, 4), script.raw, Take(script.rest, 4), Drop(script.rest, 4));
    }
  }

  lemma Join5(a: Bytes, b: Bytes, c: Bytes, d: Bytes, e: Bytes)
    ensures a + (b + (c + (d + e))) == (a + b + c + d) + e
  {
  }

  lemma OutputReaderConsumes()
    ensures Consumes(OutputReader())
  {
    forall s
      ensures var step := ReadOutput(s).value;
              step.raw + step.rest == s
    {
      OutputConsumes(s);
    }
  }

  lemma OutputConsumes(s: Bytes)
    ensures ReadOutput(s).value.raw + ReadOutput(s).value.rest == s
  {
    hide Take, Drop, ReadStr;
    var script := ReadStr(Drop(s, 8));
    TakeDrop(s, 8);
    ReadStrConsumes(Drop(s, 8));
    Associate(Take(s, 8), script.raw, script.rest);
  }

  lemma CountedConsumes<T>(read: Reader<T>, s: Bytes)
    requires Consumes(read)
    ensures var r := Counted(read, s);
            r.Some? ==> r.value.raw + r.value.rest == s
  {
    var n := ReadSize(s);
    ReadSizeConsumes(s);
    ReadListConsumes(read, n.value, n.rest);
    var r := ReadList(read, n.value, n.rest);
    if r.Some? {
      assert n.raw + (r.value.raw + r.value.rest) == (n.raw + r.value.raw) + r.value.rest;
    }
  }

  lemma ItemReaderConsumes()
    ensures Consumes(ItemReader())
  {
    forall s
      ensures ReadItem(s).value.raw + ReadItem(s).value.rest == s
    {
      ReadStrConsumes(s);
    }
  }

  lemma WitnessReaderConsumes()
    ensures Consumes(WitnessReader())
  {
    ItemReaderConsumes();
    forall s | ReadWitnesses(s).Some?
      ensures ReadWitnesses(s).value.raw + ReadWitnesses(s).value.rest == s
    {
      CountedConsumes(ItemReader(), s);
    }
  }

  lemma WitnessSectionConsumes(s: Bytes, segwit: bool, n: nat)
    ensures var r := ReadWitnessSection(s, segwit, n);
            r.Some? ==> r.value.raw + r.value.rest == s
  {
    WitnessReaderConsumes();
    ReadListConsumes(WitnessReader(), n, s);
  }

  lemma BodyConsumes(version: Bytes, rawFlag: Bytes, segwit: bool, s: Bytes)
    requires ReadBody(version, rawFlag, segwit, s).Some?
    ensures var step := ReadBody(version, rawFlag, segwit, s).value;
            && step.raw + step.rest == s
            && step.value.rawtx == version + rawFlag + step.raw
            && step.value.segwit == segwit
  {
    hide Counted, ReadWitnessSection, Take, Drop;
    InputReaderConsumes(segwit);
    OutputReaderConsumes();
    CountedConsumes(InputReader(segwit), s);
    var ins := Counted(InputReader(segwit), s).value;
    CountedConsumes(OutputReader(), ins.rest);
    var outs := Counted(OutputReader(), ins.rest).value;
    WitnessSectionConsumes(outs.rest, segwit, |ins.value|);
    var wit := ReadWitnessSection(outs.rest, segwit, |ins.value|).value;
    TakeDrop(wit.rest, 4);
    Join5(ins.raw, outs.raw, wit.raw, Take(wit.rest, 4), Drop(wit.rest, 4));
    Join5(version + rawFlag, ins.raw + outs.raw, wit.raw, Take(wit.rest, 4), []);
  }

  /** One byte or none is not a transaction: it ends before the first output. */
  lemma NoBodyInOneByte(version: Bytes, rawFlag: Bytes, segwit: bool, s: Bytes)
    requires |s| <= 1
    ensures ReadBody(version, rawFlag, segwit, s) == None
  {
    var n := ReadSize(s);
    assert n.rest == [];
    if n.value > 0 {
      assert InputReader(segwit)([]) == None;
    } else {
      assert Counted(InputReader(segwit), s).value.rest == [];
      assert ReadSize([]).value == 0;
      assert Counted(OutputReader(), []).value.value == [];
    }
  }

  /** The bytes of the transaction at the head of a stream. */
  function Consumed(s: Bytes, rest: Bytes): Bytes {
    if |rest| <= |s| then s[..|s| - |rest|] else []
  }

  lemma ConsumedIs(s: Bytes, a: Bytes, rest: Bytes)
    requires a + rest == s
    ensures Consumed(s, rest) == a
  {
  }

  lemma VersionIs(s: Bytes)
    requires Drop(s, 4) != []
    ensures |s| > 4 && Take(s, 4) == s[..4] && Drop(s, 4) == s[4..] && Drop(s, 4)[0] == s[4]
    ensures s == Take(s, 4) + Drop(s, 4)
  {
  }

  lemma FlagIs(s: Bytes)
    requires |s| > 5
    ensures Take(s[4..][1..], 1) == [s[5]] && Drop(s[4..][1..], 1) == s[6..]
  {
  }

  lemma RebuiltWithMarker(s: Bytes, raw: Bytes, rest: Bytes)
    requires |s| > 5 && HasMarker(s) && raw + rest == s[6..]
    ensures var c := Consumed(s, rest);
            s == c + rest && |c| > 5 && s[..4] + [0, 1] + raw == c[5 := 1]
  {
    var c := s[..6] + raw;
    assert c + rest == s;
    ConsumedIs(s, c, rest);
    assert s[..6] == s[..4] + [0, s[5]];
  }

  /** The transaction parsed, against the bytes it was parsed from. */
  ghost predicate IsRebuilt(s: Bytes, o: Outcome)
    requires o.Parsed?
  {
    var c := Consumed(s, o.rest);
    && s == c + o.rest && |c| >= 4
    && (HasMarker(s) ==> |c| > 5)
    && (o.tx.rawtx == if HasMarker(s) then c[5 := 1] else c)
    && (o.tx.segwit <==> HasMarker(s) && c[5] == 1)
  }

  /** What is rebuilt is what was consumed, except that the flag behind a marker always becomes 1. */
  lemma RebuiltIs(s: Bytes)
    requires ReadTx(s).Parsed?
    ensures IsRebuilt(s, ReadTx(s))
  {
    hide ReadBody, Take, Drop;
    var version, s1 := Take(s, 4), Drop(s, 4);
    if s1 == [] {
      NoBodyInOneByte(version, [], false, [version[|version| - 1]]);
      assert false;
    } else {
      VersionIs(s);
      if s1[0] == 0 {
        MarkedIsRebuilt(s);
      } else {
        UnmarkedIsRebuilt(s);
      }
    }
  }

  lemma MarkedIsRebuilt(s: Bytes)
    requires ReadTx(s).Parsed? && HasMarker(s)
    ensures IsRebuilt(s, ReadTx(s))
  {
    hide ReadBody;
    if |s| == 5 {
      NoBodyInOneByte(Take(s, 4), [0, 1], false, Drop(s[4..][1..], 1));
      assert false;
    } else {
      FlagIs(s);
      BodyConsumes(s[..4], [0, 1], s[5] == 1, s[6..]);
      var step := ReadBody(s[..4], [0, 1], s[5] == 1, s[6..]).value;
      assert Take(s, 4) == s[..4] && Drop(s, 4) == s[4..];
      assert [s[5]] == [1] <==> s[5] == 1;
      assert ReadTx(s) == Parsed(step.value, step.rest);
      RebuiltWithMarker(s, step.raw, step.rest);
    }
  }

  lemma UnmarkedIsRebuilt(s: Bytes)
    requires ReadTx(s).Parsed? && |s| > 4 && !HasMarker(s)
    ensures IsRebuilt(s, ReadTx(s))
  {
    hide ReadBody;
    BodyConsumes(s[..4], [], false, s[4..]);
    var step := ReadBody(s[..4], [], false, s[4..]).value;
    assert Take(s, 4) == s[..4] && Drop(s, 4) == s[4..];
    assert ReadTx(s) == Parsed(step.value, step.rest);
    assert s[..4] + [] + step.raw == s[..4] + step.raw;
    assert s[..4] + (step.raw + step.rest) == (s[..4] + step.raw) + step.rest;
    ConsumedIs(s, s[..4] + step.raw, step.rest);
  }

  /** The rebuilt transaction is the very bytes that were read, however its sizes were written and
      even where the stream ends too early, unless a marker is followed by another flag than 1. */
  lemma LosslessIff(s: Bytes)
    requires ReadTx(s).Parsed?
    ensures var o := ReadTx(s);
            && s == Consumed(s, o.rest) + o.rest
            && (o.tx.rawtx == Consumed(s, o.rest) <==> (HasMarker(s) ==> s[5] == 1))
  {
    hide ReadTx;
    RebuiltIs(s);
    var c := Consumed(s, ReadTx(s).rest);
    if HasMarker(s) {
      assert c[5 := 1][5] == 1;
    }
  }

  // ---------------------------------------------------------------- the block

  /** The transactions of a block up to the end of its data; None when the code raises. */
  function ReadTxs(s: Bytes): Option<seq<TxDict>>
    decreases |s|
  {
    match ReadTx(s)
    case NoTransaction => Some([])
    case Malformed => None
    case Parsed(tx, rest) =>
      RebuiltIs(s);
      match ReadTxs(rest)
      case None => None
      case Some(txs) => Some([tx] + txs)
  }

  /** Every marker is followed by the flag 1. */
  predicate FlagsAreOne(s: Bytes)
    decreases |s|
  {
    match ReadTx(s)
    case NoTransaction => true
    case Malformed => true
    case Parsed(tx, rest) =>
      RebuiltIs(s);
      (HasMarker(s) ==> s[5] == 1) && FlagsAreOne(rest)
  }

  function RawOf(): TxDict -> Bytes {
    (tx: TxDict) => tx.rawtx
  }

  /** The loop over a block partitions all its data: the rebuilt transactions one after the other are
      the data, exactly when no flag is another than 1. */
  lemma {:induction false} BlockIsPartitioned(s: Bytes)
    requires ReadTxs(s).Some?
    ensures |Written(RawOf(), ReadTxs(s).value)| == |s|
    ensures Written(RawOf(), ReadTxs(s).value) == s <==> FlagsAreOne(s)
    decreases |s|
  {
    hide HasMarker;
    match ReadTx(s)
    case NoTransaction =>
      assert s == [];
    case Parsed(tx, rest) =>
      RebuiltIs(s);
      LosslessIff(s);
      BlockIsPartitioned(rest);
      var txs := ReadTxs(rest).value;
      WrittenCons(tx, txs);
      SplitEqual(tx.rawtx, Written(RawOf(), txs), Consumed(s, rest), rest);
  }

  lemma WrittenCons(tx: TxDict, txs: seq<TxDict>)
    ensures Written(RawOf(), [tx] + txs) == tx.rawtx + Written(RawOf(), txs)
  {
    assert ([tx] + txs)[1..] == txs;
  }

  lemma SplitEqual(a: Bytes, b: Bytes, c: Bytes, d: Bytes)
    requires |a| == |c|
    ensures a + b == c + d <==> a == c && b == d
  {
    if a + b == c + d {
      assert (a + b)[..|a|] == a && (a + b)[|a|..] == b;
      assert (c + d)[..|a|] == c && (c + d)[|a|..] == d;
    }
  }

  // ---------------------------------------------------------------- the parser

  /** A list so far: what the whole parse gives is what the other `n` elements give behind this. */
  ghost predicate IsReading<T>(
    read: Reader<T>, whole: Option<Step<seq<T>>>, n: nat, xs: seq<T>, raw: Bytes, rest: Bytes)
  {
    whole == Prepend(xs, raw, ReadList(read, n, rest))
  }

  lemma NextElement<T>(
    read: Reader<T>, whole: Option<Step<seq<T>>>, n: nat, s: Bytes, xs: seq<T>, raw: Bytes, step: Step<T>)
    requires n > 0 && IsReading(read, whole, n, xs, raw, s) && read(s) == Some(step)
    ensures IsReading(read, whole, n - 1, xs + [step.value], raw + step.raw, step.rest)
  {
    PrependTwice(xs, raw, [step.value], step.raw, ReadList(read, n - 1, step.rest));
  }

  lemma NoNextElement<T>(read: Reader<T>, whole: Option<Step<seq<T>>>, n: nat, s: Bytes, xs: seq<T>, raw: Bytes)
    requires n > 0 && IsReading(read, whole, n, xs, raw, s) && read(s) == None
    ensures whole == None
  {
  }

  lemma CountedStart<T>(read: Reader<T>, s: Bytes)
    ensures var n := ReadSize(s);
            IsReading(read, Counted(read, s), n.value, [], n.raw, n.rest)
  {
    var n := ReadSize(s);
    var r := ReadList(read, n.value, n.rest);
    if r.Some? {
      assert [] + r.value.value == r.value.value;
    }
  }

  lemma ListEnd<T>(read: Reader<T>, whole: Option<Step<seq<T>>>, s: Bytes, xs: seq<T>, raw: Bytes)
    requires IsReading(read, whole, 0, xs, raw, s)
    ensures whole == Some(Step(xs, raw, s))
  {
    assert xs + [] == xs && raw + [] == raw;
  }

  lemma JoinInput(id: Bytes, n: Bytes, size: Bytes, script: Bytes, sequence: Bytes)
    ensures Reverse(Reverse(id)) + Reverse(Reverse(n)) + size + script + sequence
            == id + n + (size + script) + sequence
  {
    ReverseTwice(id);
    ReverseTwice(n);
    hide Reverse;
    assert id + n + size + script == id + n + (size + script);
  }

  /** One round of the loop over the inputs; None when it raises. */
  method ParseInput(txsData: Stream, segwit: bool) returns (r: Option<(InputDict, Bytes)>)
    modifies txsData`pos
    ensures r == None ==> ReadInput(old(txsData.Rest()), segwit) == None
    ensures r.Some? ==> ReadInput(old(txsData.Rest()), segwit) == Some(Step(r.value.0, r.value.1, txsData.Rest()))
  {
    hide Take, Drop, ReadSize, Reverse, Stream.Rest;
    var id := txsData.Read(32);
    var prevTxid := Reverse(id);
    if |prevTxid| != 32 {
      return None;
    }
    var n := txsData.Read(4);
    var outputN := Reverse(n);
    var size, sizeRaw := txsData.ReadVarbyteintReturn();
    var unlockingScript := txsData.Read(size);
    var sequence := txsData.Read(4);
    var inp := InputDict(prevTxid, outputN, unlockingScript, segwit && size == 0, sequence, []);
    JoinInput(id, n, sizeRaw, unlockingScript, sequence);
    r := Some((inp, Reverse(prevTxid) + Reverse(outputN) + sizeRaw + unlockingScript + sequence));
  }

  lemma InputReaderReads(s: Bytes, segwit: bool)
    ensures InputReader(segwit)(s) == ReadInput(s, segwit)
  {
  }

  /** The inputs and the bytes of their number and of themselves. */
  method ParseInputs(txsData: Stream, segwit: bool) returns (r: Option<(seq<InputDict>, Bytes)>)
    modifies txsData`pos
    ensures r == None ==> Counted(InputReader(segwit), old(txsData.Rest())) == None
    ensures r.Some? ==>
              Counted(InputReader(segwit), old(txsData.Rest())) == Some(Step(r.value.0, r.value.1, txsData.Rest()))
  {
    hide *;
    ghost var read := InputReader(segwit);
    ghost var s := txsData.Rest();
    ghost var whole := Counted(read, s);
    CountedStart(read, s);
    var n, raw := txsData.ReadVarbyteintReturn();
    var inputs: seq<InputDict> := [];
    for i := 0 to n
      invariant IsReading(read, whole, n - i, inputs, raw, txsData.Rest())
    {
      ghost var s1 := txsData.Rest();
      var inp := ParseInput(txsData, segwit);
      InputReaderReads(s1, segwit);
      if inp == None {
        NoNextElement(read, whole, n - i, s1, inputs, raw);
        return None;
      }
      ghost var step := Step(inp.value.0, inp.value.1, txsData.Rest());
      assert read(s1) == Some(step);
      NextElement(read, whole, n - i, s1, inputs, raw, step);
      inputs, raw := inputs + [inp.value.0], raw + inp.value.1;
    }
    ListEnd(read, whole, txsData.Rest(), inputs, raw);
    return Some((inputs, raw));
  }

  /** One round of the loop over the outputs. */
  method ParseOutput(txsData: Stream) returns (outp: OutputDict, raw: Bytes)
    modifies txsData`pos
    ensures OutputReader()(old(txsData.Rest())) == Some(Step(outp, raw, txsData.Rest()))
  {
    hide Take, Drop, ReadSize, Stream.Rest;
    var value := txsData.Read(8);
    var size, sizeRaw := txsData.ReadVarbyteintReturn();
    var lockScript := txsData.Read(size);
    outp := OutputDict(FromLittleEndian(value), lockScript);
    raw := value + (sizeRaw + lockScript);
  }

  lemma NextTotal(outputs: seq<OutputDict>, outp: OutputDict)
    ensures OutputTotal(outputs + [outp]) == OutputTotal(outputs) + outp.value
  {
    assert (outputs + [outp])[..|outputs|] == outputs;
  }

  lemma NoTotal()
    ensures OutputTotal([]) == 0
  {
  }

  method ParseOutputs(txsData: Stream) returns (outputs: seq<OutputDict>, outputTotal: nat, raw: Bytes)
    modifies txsData`pos
    ensures Counted(OutputReader(), old(txsData.Rest())) == Some(Step(outputs, raw, txsData.Rest()))
    ensures outputTotal == OutputTotal(outputs)
  {
    hide *;
    NoTotal();
    ghost var read := OutputReader();
    ghost var s := txsData.Rest();
    ghost var whole := Counted(read, s);
    CountedStart(read, s);
    var n: nat;
    n, raw := txsData.ReadVarbyteintReturn();
    outputs, outputTotal := [], 0;
    for i := 0 to n
      invariant IsReading(read, whole, n - i, outputs, raw, txsData.Rest())
      invariant outputTotal == OutputTotal(outputs)
    {
      ghost var s1 := txsData.Rest();
      var outp, outpRaw := ParseOutput(txsData);
      ghost var step := Step(outp, outpRaw, txsData.Rest());
      assert read(s1) == Some(step);
      NextElement(read, whole, n - i, s1, outputs, raw, step);
      NextTotal(outputs, outp);
      outputs, outputTotal, raw := outputs + [outp], outputTotal + outp.value, raw + outpRaw;
    }
    ListEnd(read, whole, txsData.Rest(), outputs, raw);
  }

  lemma ItemReaderReads(s: Bytes)
    ensures ItemReader()(s) == Some(Step(ReadStr(s).value, ReadStr(s).raw, ReadStr(s).rest))
  {
  }

  lemma WitnessReaderReads(s: Bytes)
    ensures WitnessReader()(s) == Counted(ItemReader(), s)
  {
  }

  method ParseItem(txsData: Stream) returns (item: Bytes, raw: Bytes)
    modifies txsData`pos
    ensures ItemReader()(old(txsData.Rest())) == Some(Step(item, raw, txsData.Rest()))
  {
    hide Take, Drop, ReadSize, Stream.Rest, ItemReader;
    ItemReaderReads(txsData.Rest());
    var size, sizeRaw := txsData.ReadVarbyteintReturn();
    item := txsData.Read(size);
    raw := sizeRaw + item;
  }

  method ParseWitnesses(txsData: Stream) returns (witnesses: seq<Bytes>, raw: Bytes)
    modifies txsData`pos
    ensures WitnessReader()(old(txsData.Rest())) == Some(Step(witnesses, raw, txsData.Rest()))
  {
    hide *;
    ghost var read := ItemReader();
    ghost var s := txsData.Rest();
    WitnessReaderReads(s);
    ghost var whole := Counted(read, s);
    CountedStart(read, s);
    var n;
    n, raw := txsData.ReadVarbyteintReturn();
    witnesses := [];
    for m := 0 to n
      invariant IsReading(read, whole, n - m, witnesses, raw, txsData.Rest())
    {
      ghost var s1 := txsData.Rest();
      var item, itemRaw := ParseItem(txsData);
      NextElement(read, whole, n - m, s1, witnesses, raw, Step(item, itemRaw, txsData.Rest()));
      witnesses, raw := witnesses + [item], raw + itemRaw;
    }
    ListEnd(read, whole, txsData.Rest(), witnesses, raw);
  }

  /** The inputs get their witnesses one after the other. */
  method ParseWitnessSection(txsData: Stream, segwit: bool, inputs0: seq<InputDict>)
    returns (inputs: seq<InputDict>, raw: Bytes)
    modifies txsData`pos
    ensures var r := ReadWitnessSection(old(txsData.Rest()), segwit, |inputs0|);
            && r.Some?
            && raw == r.value.raw && txsData.Rest() == r.value.rest
            && inputs == WithWitnesses(inputs0, r.value.value)
  {
    hide *;
    inputs, raw := inputs0, [];
    ghost var s := txsData.Rest();
    ghost var read := WitnessReader();
    ghost var all: seq<seq<Bytes>> := [];
    ghost var whole := ReadList(read, |inputs0|, s);
    NoWitnesses(inputs0, s);
    if segwit {
      for n := 0 to |inputs|
        invariant |inputs| == |inputs0| && |all| == n && inputs == WithWitnesses(inputs0, all)
        invariant IsReading(read, whole, |inputs| - n, all, raw, txsData.Rest())
      {
        ghost var s1 := txsData.Rest();
        var witnesses, itemsRaw := ParseWitnesses(txsData);
        ghost var step := Step(witnesses, itemsRaw, txsData.Rest());
        assert read(s1) == Some(step);
        NextElement(read, whole, |inputs| - n, s1, all, raw, step);
        NextWitness(inputs0, all, witnesses);
        inputs := inputs[n := inputs[n].(witnesses := witnesses)];
        all, raw := all + [witnesses], raw + itemsRaw;
      }
      ListEnd(read, whole, txsData.Rest(), all, raw);
    }
    SectionIs(s, segwit, |inputs0|);
  }

  lemma NoWitnesses(inputs: seq<InputDict>, s: Bytes)
    ensures WithWitnesses(inputs, []) == inputs
    ensures IsReading(WitnessReader(), ReadList(WitnessReader(), |inputs|, s), |inputs|, [], [], s)
  {
    PrependNothing(ReadList(WitnessReader(), |inputs|, s));
  }

  lemma NextWitness(inputs: seq<InputDict>, all: seq<seq<Bytes>>, witnesses: seq<Bytes>)
    requires |all| < |inputs|
    ensures |WithWitnesses(inputs, all)| == |inputs|
    ensures var w := WithWitnesses(inputs, all);
            WithWitnesses(inputs, all + [witnesses]) == w[|all| := w[|all|].(witnesses := witnesses)]
  {
  }

  lemma SectionIs(s: Bytes, segwit: bool, n: nat)
    ensures ReadWitnessSection(s, segwit, n) == if segwit then ReadList(WitnessReader(), n, s) else Some(Step([], [], s))
  {
  }

  datatype Answer = Dict(tx: TxDict) | False | Raised

  /** A block whose transaction data is still unread. */
  class Block {
    var txsData: Stream
    var transactions: seq<TxDict>
    const txCount: nat

    constructor (data: Bytes, txCount: nat)
      ensures fresh(txsData) && txsData.Rest() == data && transactions == [] && this.txCount == txCount
    {
      txsData := new Stream(data);
      transactions := [];
      this.txCount := txCount;
    }

    method ParseMarker(ghost version: Bytes) returns (segwit: bool, rawFlag: Bytes)
      requires 0 < txsData.pos <= |txsData.data|
      requires version != [] && version[|version| - 1] == txsData.data[txsData.pos - 1]
      modifies txsData`pos
      ensures ReadMarker(version, old(txsData.Rest())) == Marker(segwit, rawFlag, txsData.Rest())
    {
      segwit, rawFlag := false, [];
      var marker := txsData.Read(1);
      if marker == [0] {
        var flag := txsData.Read(1);
        return flag == [1], [0, 1];
      }
      txsData.Seek(txsData.pos - 1);
    }

    /** `parse_transaction_dict`. */
    method ParseTransactionDict() returns (r: Answer)
      modifies txsData`pos
      ensures |transactions| >= txCount ==> r == False && txsData.Rest() == old(txsData.Rest())
      ensures |transactions| < txCount ==>
                match ReadTx(old(txsData.Rest()))
                case NoTransaction => r == False && txsData.Rest() == []
                case Malformed => r == Raised
                case Parsed(tx, rest) => r == Dict(tx) && txsData.Rest() == rest
    {
      if |transactions| >= txCount {
        return False;
      }
      var raw := txsData.Read(4);
      if raw == [] {
        return False;
      }
      hide Take, Drop, ReadBody, ReadMarker, Reverse;
      ReverseTwice(raw);
      var version := Reverse(raw);
      var segwit, rawFlag := ParseMarker(raw);
      r := ParseBody(version, rawFlag, segwit);
    }

    method ParseBody(version: Bytes, rawFlag: Bytes, segwit: bool) returns (r: Answer)
      modifies txsData`pos
      ensures match ReadBody(Reverse(version), rawFlag, segwit, old(txsData.Rest()))
              case None => r == Raised
              case Some(step) => r == Dict(step.value) && txsData.Rest() == step.rest
    {
      hide Counted, Take, Drop, ReadSize, Reverse, ReadWitnessSection, OutputTotal, IsCoinbase, WithWitnesses;
      var ins := ParseInputs(txsData, segwit);
      if ins == None {
        return Raised;
      }
      var outputs, outputTotal, outsRaw := ParseOutputs(txsData);
      if outputs == [] {
        return Raised;
      }
      var inputs, witnessesRaw := ParseWitnessSection(txsData, segwit, ins.value.0);
      var locktime := txsData.Read(4);
      var rawtx := Reverse(version) + rawFlag + (ins.value.1 + outsRaw) + witnessesRaw + locktime;
      var txidData := Reverse(version) + (ins.value.1 + outsRaw) + locktime;
      ReverseTwice(version);
      return Dict(TxDict(version, segwit, IsCoinbase(inputs), inputs, outputs, outputTotal,
                         FromLittleEndian(locktime), rawtx, txidData));
    }
  
    /** `parse_transactions_dict`; None when it raises. The stream is a copy while it is read and the
        original is put back at the end. */
    method ParseTransactionsDict() returns (r: Option<seq<TxDict>>)
      modifies this, txsData
      ensures |transactions| >= txCount ==> r == Some([])
      ensures |transactions| < txCount ==> r == ReadTxs(old(txsData.Rest()))
      ensures transactions == old(transactions)
      ensures r.Some? ==> txsData.Rest() == old(txsData.Rest())
    {
      hide ReadTx, Take;
      var txsDataOrig := new Stream.Copy(txsData);
      ghost var s := txsData.Rest();
      var txs: seq<TxDict> := [];
      AfterEmpty(ReadTxs(s), []);
      while |transactions| < txCount
        invariant txsData == old(txsData) && txsDataOrig.Rest() == s && transactions == old(transactions)
        invariant |transactions| < txCount ==> ReadTxs(s) == After(txs, ReadTxs(txsData.Rest()))
        invariant |transactions| >= txCount ==> txs == []
        decreases |txsData.Rest()|
      {
        ghost var s1 := txsData.Rest();
        var tx := ParseTransactionDict();
        match tx {
          case Raised =>
            return None;
          case False =>
            AfterEmpty(None, txs);
            break;
          case Dict(t) =>
            NextTransaction(s1, txs);
            txs := txs + [t];
        }
      }
      txsData := txsDataOrig;
      return Some(txs);
    }
  }

  function After(txs: seq<TxDict>, r: Option<seq<TxDict>>): Option<seq<TxDict>> {
    match r
    case None => None
    case Some(more) => Some(txs + more)
  }

  lemma AfterEmpty(r: Option<seq<TxDict>>, txs: seq<TxDict>)
    ensures After([], r) == r && After(txs, Some([])) == Some(txs)
  {
    assert txs + [] == txs;
    assert r.Some? ==> [] + r.value == r.value;
  }

  lemma NextTransaction(s: Bytes, txs: seq<TxDict>)
    requires ReadTx(s).Parsed?
    ensures |ReadTx(s).rest| < |s|
    ensures After(txs, ReadTxs(s)) == After(txs + [ReadTx(s).tx], ReadTxs(ReadTx(s).rest))
  {
    hide ReadTx;
    RebuiltIs(s);
    var more := ReadTxs(ReadTx(s).rest);
    if more.Some? {
      assert txs + ([ReadTx(s).tx] + more.value) == (txs + [ReadTx(s).tx]) + more.value;
    }
  }
}
