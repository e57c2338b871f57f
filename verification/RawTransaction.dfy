/** `Transaction.raw`: the serialisation of a transaction, read back by the block parser, and the
    message that a signature signs. */
module RawTransaction {
  import opened Digits
  import opened CompactSize
  import opened Wire
  import opened Sequences
  import opened Wrappers

  /** A list whose length can be written. */
  type Short<T> = s: seq<T> | |s| < LIMIT64

  datatype ScriptType = Nonstandard0001 | P2shMultisig | Coinbase | OtherType

  datatype Input = Input(
    prevTxid: Bytes, outputN: Bytes, unlockingScript: ByteString, witnesses: Short<ByteString>, legacy: bool,
    scriptType: ScriptType, lockingScript: ByteString, redeemscript: ByteString, sequence: nat, indexN: nat, value: nat)

  datatype Output = Output(value: int, lockScript: ByteString)

  datatype Tx = Tx(version: Bytes, inputs: Short<Input>, outputs: Short<Output>, locktime: nat, segwit: bool)

  // ---------------------------------------------------------------- writing

  /** The script of the previous output, as `raw` and the segwit message choose it for a signature. */
  function ScriptCode(i: Input): ByteString {
    if i.scriptType == P2shMultisig then i.redeemscript else i.lockingScript
  }

  function WriteScript(i: Input, signId: Option<nat>): Bytes {
    match signId
    case None => (if i.scriptType == Nonstandard0001 then [1] else []) + Varstr(i.unlockingScript)
    case Some(k) => if k == i.indexN then Varstr(ScriptCode(i)) else [0]
  }

  function WriteInput(i: Input, signId: Option<nat>): Bytes {
    Reverse(i.prevTxid) + Reverse(i.outputN) + WriteScript(i, signId) + LittleEndian(i.sequence, 4)
  }

  function WriteWitnesses(i: Input): Bytes {
    if i.witnesses != [] && !i.legacy then IntToVarbyteint(|i.witnesses|) + Written(ItemWriter(), i.witnesses) else [0]
  }

  /** The amount as written; below zero `raw` raises. */
  function Amount(o: Output): nat {
    if o.value < 0 then 0 else o.value
  }

  function WriteOutput(o: Output): Bytes {
    LittleEndian(Amount(o), 8) + Varstr(o.lockScript)
  }

  function ItemWriter(): ByteString -> Bytes {
    (w: ByteString) => Varstr(w)
  }

  function InputWriter(signId: Option<nat>): Input -> Bytes {
    (i: Input) => WriteInput(i, signId)
  }

  function WitnessWriter(): Input -> Bytes {
    (i: Input) => WriteWitnesses(i)
  }

  function OutputWriter(): Output -> Bytes {
    (o: Output) => WriteOutput(o)
  }

  predicate IsWord32(n: nat) {
    n < 0x1_0000_0000
  }

  /** An amount the code can write: `raw` raises below zero, `to_bytes` from 2^64 on. */
  predicate IsAmount(v: int) {
    0 <= v < LIMIT64
  }

  /** The numbers fit the widths they are written in. */
  predicate Fits(tx: Tx, signId: Option<nat>, hashType: nat) {
    && (forall i :: 0 <= i < |tx.inputs| ==> IsWord32(tx.inputs[i].sequence))
    && (forall o :: 0 <= o < |tx.outputs| ==> IsAmount(tx.outputs[o].value))
    && IsWord32(tx.locktime)
    && (signId.Some? ==> IsWord32(hashType))
  }

  /** Numbers and contents of inputs and outputs. */
  function Core(tx: Tx, signId: Option<nat>): Bytes {
    IntToVarbyteint(|tx.inputs|) + Written(InputWriter(signId), tx.inputs)
    + (IntToVarbyteint(|tx.outputs|) + Written(OutputWriter(), tx.outputs))
  }

  function RawBytes(tx: Tx, signId: Option<nat>, hashType: nat, segwit: bool): Bytes {
    var witnesses := signId == None && segwit;
    Reverse(tx.version)
    + (if witnesses then [0, 1] else [])
    + Core(tx, signId)
    + (if witnesses then Written(WitnessWriter(), tx.inputs) else [])
    + LittleEndian(tx.locktime, 4)
    + (if signId.Some? then LittleEndian(hashType, 4) else [])
  }

  function Raw(tx: Tx, signId: Option<nat>, hashType: nat, segwit: bool): Result<Bytes> {
    if Fits(tx, signId, hashType) then Ok(RawBytes(tx, signId, hashType, segwit)) else Err
  }

  /** One buffer for the transaction and one for the witnesses, filled input by input. */
  method SerializeInputs(tx: Tx, signId: Option<nat>) returns (ok: bool, r: Bytes, rWitness: Bytes)
    ensures ok == forall i :: 0 <= i < |tx.inputs| ==> IsWord32(tx.inputs[i].sequence)
    ensures ok ==> r == Written(InputWriter(signId), tx.inputs) && rWitness == Written(WitnessWriter(), tx.inputs)
  {
    hide WriteInput, WriteWitnesses;
    r, rWitness := [], [];
    for n := 0 to |tx.inputs|
      invariant forall i :: 0 <= i < n ==> IsWord32(tx.inputs[i].sequence)
      invariant r == Written(InputWriter(signId), tx.inputs[..n])
      invariant rWitness == Written(WitnessWriter(), tx.inputs[..n])
    {
      var i := tx.inputs[n];
      if !IsWord32(i.sequence) {
        return false, r, rWitness;
      }
      WrittenSnoc(InputWriter(signId), tx.inputs[..n], i);
      WrittenSnoc(WitnessWriter(), tx.inputs[..n], i);
      assert tx.inputs[..n + 1] == tx.inputs[..n] + [i];
      r := r + WriteInput(i, signId);
      rWitness := rWitness + WriteWitnesses(i);
    }
    assert tx.inputs[..|tx.inputs|] == tx.inputs;
    ok := true;
  }

  method SerializeOutputs(tx: Tx) returns (ok: bool, r: Bytes)
    ensures ok == forall o :: 0 <= o < |tx.outputs| ==> IsAmount(tx.outputs[o].value)
    ensures ok ==> r == Written(OutputWriter(), tx.outputs)
  {
    hide WriteOutput;
    r := [];
    for n := 0 to |tx.outputs|
      invariant forall o :: 0 <= o < n ==> IsAmount(tx.outputs[o].value)
      invariant r == Written(OutputWriter(), tx.outputs[..n])
    {
      var o := tx.outputs[n];
      if !IsAmount(o.value) {
        return false, r;
      }
      WrittenSnoc(OutputWriter(), tx.outputs[..n], o);
      assert tx.outputs[..n + 1] == tx.outputs[..n] + [o];
      r := r + WriteOutput(o);
    }
    assert tx.outputs[..|tx.outputs|] == tx.outputs;
    ok := true;
  }

  /** `Transaction.raw`. */
  method Serialize(tx: Tx, signId: Option<nat>, hashType: nat, segwit: bool) returns (r: Result<Bytes>)
    ensures r == Raw(tx, signId, hashType, segwit)
  {
    var knownInputs, inputs, rWitness := SerializeInputs(tx, signId);
    var knownOutputs, outputs := SerializeOutputs(tx);
    if !knownInputs || !knownOutputs || !IsWord32(tx.locktime) || (signId.Some? && !IsWord32(hashType)) {
      return Err;
    }
    var witnesses := signId == None && segwit;
    var b := Reverse(tx.version) + (if witnesses then [0, 1] else []);
    b := b + (IntToVarbyteint(|tx.inputs|) + inputs + (IntToVarbyteint(|tx.outputs|) + outputs));
    b := b + (if witnesses then rWitness else []) + LittleEndian(tx.locktime, 4);
    r := Ok(b + (if signId.Some? then LittleEndian(hashType, 4) else []));
  }

  // ---------------------------------------------------------------- read back

  /** Fixed widths as everywhere on the wire. The type nonstandard_0001 is that of one script, the single zero
      byte. */
  predicate IsStandardInput(i: Input) {
    |i.prevTxid| == 32 && |i.outputN| == 4 && (i.scriptType == Nonstandard0001 ==> i.unlockingScript == [0])
  }

  predicate IsStandard(tx: Tx) {
    |tx.version| == 4 && forall i :: i in tx.inputs ==> IsStandardInput(i)
  }

  /** There is an output, and an input unless the marker says that the next zero is the number of
      inputs. */
  predicate IsReadable(tx: Tx, segwit: bool) {
    IsStandard(tx) && tx.outputs != [] && (segwit || tx.inputs != [])
  }

  /** What the unlocking script reads as: for an input of type nonstandard_0001 the code writes the size that
      `varstr` leaves out. */
  function ScriptView(i: Input): ByteString {
    if i.scriptType == Nonstandard0001 then i.unlockingScript else ReadAs(i.unlockingScript)
  }

  /** What the parser makes of an input before it comes to the witnesses. */
  function InputView(i: Input, segwit: bool): InputDict {
    var script := ScriptView(i);
    InputDict(i.prevTxid, i.outputN, script, segwit && script == [], LittleEndian(i.sequence, 4), [])
  }

  function WitnessView(i: Input): seq<Bytes> {
    if i.legacy then [] else Map(ItemViewer(), i.witnesses)
  }

  function OutputView(o: Output): OutputDict {
    OutputDict(Amount(o), ReadAs(o.lockScript))
  }

  function ItemView(w: ByteString): Bytes {
    ReadAs(w)
  }

  function InputViewer(segwit: bool): Input -> InputDict {
    (i: Input) => InputView(i, segwit)
  }

  function WitnessViewer(): Input -> seq<Bytes> {
    (i: Input) => WitnessView(i)
  }

  function OutputViewer(): Output -> OutputDict {
    (o: Output) => OutputView(o)
  }

  function ItemViewer(): ByteString -> Bytes {
    (w: ByteString) => ItemView(w)
  }

  lemma InputReadsBack(i: Input, segwit: bool)
    requires IsStandardInput(i)
    ensures ReadsBack(InputReader(segwit), InputWriter(None), InputViewer(segwit), i)
  {
    forall tail: Bytes
      ensures ReadInput(WriteInput(i, None) + tail, segwit) == Some(Step(InputView(i, segwit), WriteInput(i, None), tail))
    {
      InputBack(i, segwit, tail);
    }
  }

  lemma InputBack(i: Input, segwit: bool, tail: Bytes)
    requires IsStandardInput(i)
    ensures ReadInput(WriteInput(i, None) + tail, segwit) == Some(Step(InputView(i, segwit), WriteInput(i, None), tail))
  {
    hide Take, Drop, ReadStr, ReadSize, FixLE, WriteScript, ScriptView;
    var id, n, script := Reverse(i.prevTxid), Reverse(i.outputN), WriteScript(i, None);
    var sequence := LittleEndian(i.sequence, 4);
    ReverseTwice(i.prevTxid);
    ReverseTwice(i.outputN);
    hide Reverse;
    var s := id + (n + (script + (sequence + tail)));
    assert WriteInput(i, None) + tail == s;
    TakeDropConcat(id, n + (script + (sequence + tail)));
    TakeDropConcat(n, script + (sequence + tail));
    ScriptReadsBack(i, sequence + tail);
    TakeDropConcat(sequence, tail);
  }

  lemma ScriptReadsBack(i: Input, tail: Bytes)
    requires IsStandardInput(i)
    ensures ReadStr(WriteScript(i, None) + tail) == Str(ScriptView(i), WriteScript(i, None), tail)
    ensures ReadSize(WriteScript(i, None) + tail).value == 0 <==> ScriptView(i) == []
  {
    var script := WriteScript(i, None);
    if i.scriptType == Nonstandard0001 {
      assert script == IntToVarbyteint(1) + [0];
      assert script + tail == IntToVarbyteint(1) + ([0] + tail);
      ReadSizeBack(1, [0] + tail);
      TakeDropConcat([0], tail);
    } else {
      assert script == Varstr(i.unlockingScript);
      hide Varstr, ReadAs, ReadSize, ReadStr;
      VarstrReads(i.unlockingScript, tail);
      EmptySize(i.unlockingScript, tail);
    }
  }

  lemma EmptySize(s: ByteString, tail: Bytes)
    ensures ReadSize(Varstr(s) + tail).value == 0 <==> ReadAs(s) == []
  {
    hide *;
    var r := ReadAs(s);
    VarstrReads(s, tail);
    WrittenBehindSize(s);
    ReadSizeBack(|r|, r + tail);
    assert IntToVarbyteint(|r|) + r + tail == IntToVarbyteint(|r|) + (r + tail);
  }

  lemma WrittenBehindSize(s: ByteString)
    ensures Varstr(ReadAs(s)) == IntToVarbyteint(|ReadAs(s)|) + ReadAs(s)
  {
    hide IntToVarbyteint;
  }

  lemma OutputReadsBack(o: Output)
    requires IsAmount(o.value)
    ensures ReadsBack(OutputReader(), OutputWriter(), OutputViewer(), o)
  {
    forall tail: Bytes
      ensures ReadOutput(WriteOutput(o) + tail) == Some(Step(OutputView(o), WriteOutput(o), tail))
    {
      OutputBack(o, tail);
    }
  }

  lemma OutputBack(o: Output, tail: Bytes)
    requires IsAmount(o.value)
    ensures ReadOutput(WriteOutput(o) + tail) == Some(Step(OutputView(o), WriteOutput(o), tail))
  {
    hide Take, Drop, Varstr, ReadStr, Pow, ReadAs;
    var value := LittleEndian(o.value, 8);
    assert WriteOutput(o) + tail == value + (Varstr(o.lockScript) + tail);
    TakeDropConcat(value, Varstr(o.lockScript) + tail);
    VarstrReads(o.lockScript, tail);
    ByteLimits();
    LittleEndianBack(o.value, 8);
  }

  lemma ItemReadsBack(w: ByteString)
    ensures ReadsBack(ItemReader(), ItemWriter(), ItemViewer(), w)
  {
    forall tail: Bytes
      ensures ReadItem(Varstr(w) + tail) == Some(Step(ReadAs(w), Varstr(w), tail))
    {
      VarstrReads(w, tail);
    }
  }

  /** A list behind its length reads back. */
  lemma CountedBack<T, U>(read: Reader<U>, write: T -> Bytes, view: T -> U, xs: Short<T>, tail: Bytes)
    requires forall x :: x in xs ==> ReadsBack(read, write, view, x)
    ensures var raw := IntToVarbyteint(|xs|) + Written(write, xs);
            Counted(read, raw + tail) == Some(Step(Map(view, xs), raw, tail))
  {
    hide ReadsBack, ReadList, Written, IntToVarbyteint, Map;
    var n, body := IntToVarbyteint(|xs|), Written(write, xs);
    assert n + body + tail == n + (body + tail);
    ReadSizeBack(|xs|, body + tail);
    ReadListBack(read, write, view, xs, tail);
  }

  lemma WitnessesReadBack(i: Input)
    ensures ReadsBack(WitnessReader(), WitnessWriter(), WitnessViewer(), i)
  {
    forall tail: Bytes
      ensures ReadWitnesses(WriteWitnesses(i) + tail) == Some(Step(WitnessView(i), WriteWitnesses(i), tail))
    {
      WitnessesBack(i, tail);
    }
  }

  lemma WitnessesBack(i: Input, tail: Bytes)
    ensures ReadWitnesses(WriteWitnesses(i) + tail) == Some(Step(WitnessView(i), WriteWitnesses(i), tail))
  {
    forall w | w in i.witnesses
      ensures ReadsBack(ItemReader(), ItemWriter(), ItemViewer(), w)
    {
      ItemReadsBack(w);
    }
    hide ReadsBack;
    if i.witnesses != [] && !i.legacy {
      CountedBack(ItemReader(), ItemWriter(), ItemViewer(), i.witnesses, tail);
    } else {
      CountedBack(ItemReader(), ItemWriter(), ItemViewer(), [], tail);
      assert IntToVarbyteint(0) + Written(ItemWriter(), []) == [0];
      assert Map(ItemViewer(), []) == [];
      assert i.witnesses == [] ==> Map(ItemViewer(), i.witnesses) == [];
    }
  }

  function WitnessSection(tx: Tx, segwit: bool): Bytes {
    if segwit then Written(WitnessWriter(), tx.inputs) else []
  }

  function WitnessStacks(tx: Tx, segwit: bool): seq<seq<Bytes>> {
    if segwit then Map(WitnessViewer(), tx.inputs) else []
  }

  lemma InputsReadBack(tx: Tx, segwit: bool, tail: Bytes)
    requires IsStandard(tx)
    ensures var raw := IntToVarbyteint(|tx.inputs|) + Written(InputWriter(None), tx.inputs);
            Counted(InputReader(segwit), raw + tail) == Some(Step(Map(InputViewer(segwit), tx.inputs), raw, tail))
  {
    forall i | i in tx.inputs
      ensures ReadsBack(InputReader(segwit), InputWriter(None), InputViewer(segwit), i)
    {
      InputReadsBack(i, segwit);
    }
    hide ReadsBack;
    CountedBack(InputReader(segwit), InputWriter(None), InputViewer(segwit), tx.inputs, tail);
  }

  lemma OutputsReadBack(tx: Tx, tail: Bytes)
    requires forall o :: 0 <= o < |tx.outputs| ==> IsAmount(tx.outputs[o].value)
    ensures var raw := IntToVarbyteint(|tx.outputs|) + Written(OutputWriter(), tx.outputs);
            Counted(OutputReader(), raw + tail) == Some(Step(Map(OutputViewer(), tx.outputs), raw, tail))
  {
    forall o | o in tx.outputs
      ensures ReadsBack(OutputReader(), OutputWriter(), OutputViewer(), o)
    {
      OutputReadsBack(o);
    }
    hide ReadsBack;
    CountedBack(OutputReader(), OutputWriter(), OutputViewer(), tx.outputs, tail);
  }

  lemma SectionReadsBack(tx: Tx, segwit: bool, tail: Bytes)
    ensures ReadWitnessSection(WitnessSection(tx, segwit) + tail, segwit, |tx.inputs|)
            == Some(Step(WitnessStacks(tx, segwit), WitnessSection(tx, segwit), tail))
  {
    if segwit {
      forall i | i in tx.inputs
        ensures ReadsBack(WitnessReader(), WitnessWriter(), WitnessViewer(), i)
      {
        WitnessesReadBack(i);
      }
      hide ReadsBack;
      ReadListBack(WitnessReader(), WitnessWriter(), WitnessViewer(), tx.inputs, tail);
    } else {
      assert [] + tail == tail;
    }
  }

  /** The dictionary a parser finds. */
  function DictOf(tx: Tx, segwit: bool): TxDict {
    var inputs := WithWitnesses(Map(InputViewer(segwit), tx.inputs), WitnessStacks(tx, segwit));
    var outputs := Map(OutputViewer(), tx.outputs);
    TxDict(tx.version, segwit, IsCoinbase(inputs), inputs, outputs, OutputTotal(outputs), tx.locktime,
           RawBytes(tx, None, 0, segwit), RawBytes(tx, None, 0, false))
  }

  lemma RawParts(tx: Tx, segwit: bool)
    ensures RawBytes(tx, None, 0, segwit)
            == Reverse(tx.version) + (if segwit then [0, 1] else []) + Core(tx, None) + WitnessSection(tx, segwit)
               + LittleEndian(tx.locktime, 4)
  {
    hide Core, LittleEndian;
    var raw := Reverse(tx.version) + (if segwit then [0, 1] else []) + Core(tx, None) + WitnessSection(tx, segwit)
               + LittleEndian(tx.locktime, 4);
    assert raw + [] == raw;
  }

  /** What follows the marker. */
  function Body(tx: Tx, segwit: bool): Bytes {
    Core(tx, None) + WitnessSection(tx, segwit) + LittleEndian(tx.locktime, 4)
  }

  lemma BodySplits(a: Bytes, b: Bytes, w: Bytes, l: Bytes, tail: Bytes)
    ensures (a + b) + w + l + tail == a + (b + (w + (l + tail)))
  {
  }

  lemma CoreReadsBack(tx: Tx, segwit: bool, rest: Bytes)
    requires IsStandard(tx) && forall o :: 0 <= o < |tx.outputs| ==> IsAmount(tx.outputs[o].value)
    ensures var ins := IntToVarbyteint(|tx.inputs|) + Written(InputWriter(None), tx.inputs);
            var outs := IntToVarbyteint(|tx.outputs|) + Written(OutputWriter(), tx.outputs);
            && Core(tx, None) == ins + outs
            && Counted(InputReader(segwit), ins + (outs + rest))
               == Some(Step(Map(InputViewer(segwit), tx.inputs), ins, outs + rest))
            && Counted(OutputReader(), outs + rest) == Some(Step(Map(OutputViewer(), tx.outputs), outs, rest))
  {
    hide Written, Counted, InputReader, InputWriter, OutputReader, OutputWriter;
    var outs := IntToVarbyteint(|tx.outputs|) + Written(OutputWriter(), tx.outputs);
    InputsReadBack(tx, segwit, outs + rest);
    OutputsReadBack(tx, rest);
  }

  lemma LocktimeReadsBack(n: nat, tail: Bytes)
    requires IsWord32(n)
    ensures Take(LittleEndian(n, 4) + tail, 4) == LittleEndian(n, 4) && Drop(LittleEndian(n, 4) + tail, 4) == tail
    ensures FromLittleEndian(LittleEndian(n, 4)) == n
  {
    hide Take, Drop, Pow, FixLE, ValLE;
    ByteLimits();
    LittleEndianBack(n, 4);
    TakeDropConcat(LittleEndian(n, 4), tail);
  }

  lemma BodyReadsBack(tx: Tx, version: Bytes, rawFlag: Bytes, segwit: bool, tail: Bytes)
    requires IsReadable(tx, segwit) && Fits(tx, None, 0) && Reverse(version) == tx.version
    requires Reverse(tx.version) == version && rawFlag == if segwit then [0, 1] else []
    ensures ReadBody(version, rawFlag, segwit, Body(tx, segwit) + tail)
            == Some(Step(DictOf(tx, segwit), Body(tx, segwit), tail))
  {
    hide Written, Counted, Reverse, Take, Drop, LittleEndian, FromLittleEndian, ReadWitnessSection, RawBytes, WitnessSection,
         WitnessStacks, IsStandard, IsCoinbase, OutputTotal, WithWitnesses;
    var ins := IntToVarbyteint(|tx.inputs|) + Written(InputWriter(None), tx.inputs);
    var outs := IntToVarbyteint(|tx.outputs|) + Written(OutputWriter(), tx.outputs);
    var w, l := WitnessSection(tx, segwit), LittleEndian(tx.locktime, 4);
    CoreReadsBack(tx, segwit, w + (l + tail));
    SectionReadsBack(tx, segwit, l + tail);
    LocktimeReadsBack(tx.locktime, tail);
    BodySplits(ins, outs, w, l, tail);
    RawParts(tx, segwit);
    RawParts(tx, false);
    NoSection(tx, version + Core(tx, None), l);
    SomeOutputs(tx, segwit);
  }

  lemma NoSection(tx: Tx, head: Bytes, l: Bytes)
    ensures WitnessSection(tx, false) == [] && head + [] + l == head + l
    ensures Reverse(tx.version) + [] == Reverse(tx.version)
  {
    assert head + [] == head;
  }

  lemma SomeOutputs(tx: Tx, segwit: bool)
    requires IsReadable(tx, segwit)
    ensures Map(OutputViewer(), tx.outputs) != [] && |Map(InputViewer(segwit), tx.inputs)| == |tx.inputs|
  {
  }

  lemma MarkerReadsBack(version: Bytes, body: Bytes, segwit: bool)
    requires version != [] && (segwit || (body != [] && body[0] != 0))
    ensures ReadMarker(version, (if segwit then [0, 1] else []) + body)
            == Marker(segwit, if segwit then [0, 1] else [], if segwit then body else [] + body)
    ensures [] + body == body
  {
    if segwit {
      var s := [0, 1] + body;
      assert s[1..] == [1] + body;
      TakeDropConcat([1], body);
    } else {
      assert [] + body == body;
    }
  }

  /** A body starts with the number of inputs, which is not taken for a marker. */
  lemma BodyStarts(tx: Tx, segwit: bool, tail: Bytes)
    requires tx.inputs != []
    ensures Body(tx, segwit) + tail != [] && (Body(tx, segwit) + tail)[0] != 0
  {
    hide Written, WitnessSection, LittleEndian, InputWriter, OutputWriter;
    var n := IntToVarbyteint(|tx.inputs|);
    assert n[0] != 0;
    assert (Body(tx, segwit) + tail)[0] == n[0];
  }

  lemma RawSplits(tx: Tx, segwit: bool, tail: Bytes)
    ensures RawBytes(tx, None, 0, segwit) + tail
            == Reverse(tx.version) + ((if segwit then [0, 1] else []) + (Body(tx, segwit) + tail))
  {
    RawParts(tx, segwit);
    hide *;
    Regroup(Reverse(tx.version), if segwit then [0, 1] else [], Core(tx, None), WitnessSection(tx, segwit),
            LittleEndian(tx.locktime, 4), tail);
    BodyIs(tx, segwit);
  }

  lemma BodyIs(tx: Tx, segwit: bool)
    ensures Body(tx, segwit) == Core(tx, None) + WitnessSection(tx, segwit) + LittleEndian(tx.locktime, 4)
  {
  }

  lemma Regroup(v: Bytes, m: Bytes, c: Bytes, w: Bytes, l: Bytes, tail: Bytes)
    ensures v + m + c + w + l + tail == v + (m + ((c + w + l) + tail))
  {
  }

  /** Parsing the output of `raw` finds the dictionary above and leaves what follows. The transaction id
      is taken of the serialisation without witnesses. */
  lemma ReadsAsDict(tx: Tx, segwit: bool, tail: Bytes)
    requires IsReadable(tx, segwit) && Fits(tx, None, 0)
    ensures ReadTx(RawBytes(tx, None, 0, segwit) + tail) == Parsed(DictOf(tx, segwit), tail)
  {
    hide Take, Drop, ReadBody, ReadMarker, Body, DictOf, RawBytes, Reverse;
    var version := Reverse(tx.version);
    ReverseTwice(tx.version);
    RawSplits(tx, segwit, tail);
    var s1 := (if segwit then [0, 1] else []) + (Body(tx, segwit) + tail);
    TakeDropConcat(version, s1);
    if !segwit {
      BodyStarts(tx, segwit, tail);
    }
    MarkerReadsBack(version, Body(tx, segwit) + tail, segwit);
    BodyReadsBack(tx, version, if segwit then [0, 1] else [], segwit, tail);
  }

  /** The witnesses that are written for an input. */
  function Stack(i: Input, segwit: bool): seq<Bytes> {
    if segwit && !i.legacy then i.witnesses else []
  }

  predicate SameInput(i: Input, segwit: bool, d: InputDict) {
    && d.prevTxid == i.prevTxid && d.outputN == i.outputN && d.unlockingScript == i.unlockingScript
    && d.sequence == LittleEndian(i.sequence, 4) && d.witnesses == Stack(i, segwit)
    && d.segwitType == (segwit && i.unlockingScript == [])
  }

  /** A dictionary with the version, the inputs, the outputs, the witnesses and the lock time of the
      transaction, with its bytes, those its id is taken of, and the total of its outputs. */
  ghost predicate SameFields(tx: Tx, segwit: bool, d: TxDict) {
    && d.version == tx.version && d.segwit == segwit && d.locktime == tx.locktime
    && d.rawtx == RawBytes(tx, None, 0, segwit) && d.txidData == RawBytes(tx, None, 0, false)
    && d.outputTotal == SumOf(d.outputs)
    && (d.coinbase <==> tx.inputs != [] && IsZeroId(tx.inputs[|tx.inputs| - 1].prevTxid))
    && |d.inputs| == |tx.inputs| && (forall i :: 0 <= i < |d.inputs| ==> SameInput(tx.inputs[i], segwit, d.inputs[i]))
    && |d.outputs| == |tx.outputs|
    && forall o :: 0 <= o < |d.outputs| ==> d.outputs[o] == OutputDict(Amount(tx.outputs[o]), tx.outputs[o].lockScript)
  }

  /** No string is the single zero byte, save unlocking scripts of the type that stands for it. */
  predicate NoZeroByteIsLost(tx: Tx, segwit: bool) {
    && (forall i :: 0 <= i < |tx.inputs| ==> KeepsZeroByte(tx.inputs[i]) && [0] !in Stack(tx.inputs[i], segwit))
    && (forall o :: 0 <= o < |tx.outputs| ==> tx.outputs[o].lockScript != [0])
  }

  predicate KeepsZeroByte(i: Input) {
    i.unlockingScript == [0] ==> i.scriptType == Nonstandard0001
  }

  lemma StackIs(i: Input, segwit: bool)
    ensures (if segwit then WitnessView(i) else []) == Stack(i, segwit) <==> [0] !in Stack(i, segwit)
  {
    var w := Stack(i, segwit);
    if segwit && !i.legacy {
      forall n | 0 <= n < |w| ensures WitnessView(i)[n] == w[n] <==> w[n] != [0] {
      }
      if [0] in w {
        var n :| 0 <= n < |w| && w[n] == [0];
        assert WitnessView(i)[n] != w[n];
      }
    }
  }

  /** The dictionary has the fields exactly when nothing was written as something else. */
  lemma DictIsSameIff(tx: Tx, segwit: bool)
    requires IsStandard(tx)
    ensures SameFields(tx, segwit, DictOf(tx, segwit)) <==> NoZeroByteIsLost(tx, segwit)
  {
    hide RawBytes, DictOf, SumOf, IsZeroId, IsStandard, SameInput, KeepsZeroByte, Stack, Amount;
    DictTotals(tx, segwit);
    DictParts(tx, segwit);
    var d := DictOf(tx, segwit);
    forall i | 0 <= i < |tx.inputs|
      ensures SameInput(tx.inputs[i], segwit, d.inputs[i])
              <==> KeepsZeroByte(tx.inputs[i]) && [0] !in Stack(tx.inputs[i], segwit)
    {
      SameInputIff(tx, segwit, i);
    }
    forall o | 0 <= o < |tx.outputs|
      ensures d.outputs[o] == OutputDict(Amount(tx.outputs[o]), tx.outputs[o].lockScript)
              <==> tx.outputs[o].lockScript != [0]
    {
      SameOutputIff(tx, segwit, o);
    }
  }

  lemma DictParts(tx: Tx, segwit: bool)
    ensures var d := DictOf(tx, segwit);
            && d.version == tx.version && d.segwit == segwit && d.locktime == tx.locktime
            && d.rawtx == RawBytes(tx, None, 0, segwit) && d.txidData == RawBytes(tx, None, 0, false)
            && |d.inputs| == |tx.inputs| && |d.outputs| == |tx.outputs|
  {
    hide RawBytes, OutputTotal, IsCoinbase;
  }

  lemma SameInputIff(tx: Tx, segwit: bool, i: nat)
    requires i < |tx.inputs|
    ensures |DictOf(tx, segwit).inputs| == |tx.inputs|
    ensures SameInput(tx.inputs[i], segwit, DictOf(tx, segwit).inputs[i])
            <==> KeepsZeroByte(tx.inputs[i]) && [0] !in Stack(tx.inputs[i], segwit)
  {
    hide RawBytes, OutputTotal, IsCoinbase, LittleEndian, WitnessView, Stack, DictOf;
    StackIs(tx.inputs[i], segwit);
    DictInput(tx, segwit, i);
  }

  lemma SameOutputIff(tx: Tx, segwit: bool, o: nat)
    requires o < |tx.outputs|
    ensures |DictOf(tx, segwit).outputs| == |tx.outputs|
    ensures DictOf(tx, segwit).outputs[o] == OutputDict(Amount(tx.outputs[o]), tx.outputs[o].lockScript)
            <==> tx.outputs[o].lockScript != [0]
  {
    hide RawBytes, OutputTotal, IsCoinbase, LittleEndian, Amount;
    assert DictOf(tx, segwit).outputs[o] == OutputView(tx.outputs[o]);
  }

  lemma DictTotals(tx: Tx, segwit: bool)
    requires IsStandard(tx)
    ensures var d := DictOf(tx, segwit);
            && d.outputTotal == SumOf(d.outputs)
            && (d.coinbase <==> tx.inputs != [] && IsZeroId(tx.inputs[|tx.inputs| - 1].prevTxid))
  {
    hide RawBytes, OutputTotal, IsCoinbase, LittleEndian, WitnessView;
    var d := DictOf(tx, segwit);
    TotalIsSum(d.outputs);
    if tx.inputs != [] {
      DictInput(tx, segwit, |tx.inputs| - 1);
      assert tx.inputs[|tx.inputs| - 1] in tx.inputs;
    }
    AllZeros(d.inputs);
  }

  lemma DictInput(tx: Tx, segwit: bool, i: nat)
    requires i < |tx.inputs|
    ensures |DictOf(tx, segwit).inputs| == |tx.inputs|
    ensures DictOf(tx, segwit).inputs[i]
            == InputView(tx.inputs[i], segwit).(witnesses := if segwit then WitnessView(tx.inputs[i]) else [])
  {
    hide RawBytes, OutputTotal, IsCoinbase, LittleEndian, WitnessView;
  }

  /** Without an input, the number of inputs passes for a marker and the number of outputs for a flag. */
  lemma NoInputs(tx: Tx, tail: Bytes)
    requires IsStandard(tx) && tx.inputs == []
    ensures var s := RawBytes(tx, None, 0, false) + tail;
            && ReadTx(s).Parsed? && ReadTx(s).rest == tail
               ==> !SameFields(tx, false, ReadTx(s).tx)
  {
    var raw := RawBytes(tx, None, 0, false);
    var s := raw + tail;
    StartsWithZero(tx);
    hide ReadTx, RawBytes;
    if ReadTx(s).Parsed? && ReadTx(s).rest == tail {
      RebuiltIs(s);
      ConsumedIs(s, raw, tail);
      assert s[4] == raw[4];
      assert raw[5 := 1] == raw ==> raw[5] == 1;
    }
  }

  lemma StartsWithZero(tx: Tx)
    requires IsStandard(tx) && tx.inputs == []
    ensures |RawBytes(tx, None, 0, false)| > 5 && RawBytes(tx, None, 0, false)[4] == 0
  {
    hide LittleEndian, OutputWriter;
    RawParts(tx, false);
    assert IntToVarbyteint(0) == [0];
    var more := IntToVarbyteint(|tx.outputs|) + Written(OutputWriter(), tx.outputs);
    assert Core(tx, None) == [0] + more;
  }

  lemma NoOutputs(s: Bytes)
    requires ReadTx(s).Parsed?
    ensures ReadTx(s).tx.outputs != []
  {
    hide ReadBody, Take, Drop;
    var version := Take(s, 4);
    var m := ReadMarker(version, Drop(s, 4));
    ParsedIsSound(version, m.rawFlag, m.segwit, m.rest);
  }

  /** Parsing the output of `raw` gives back version, inputs, outputs, witnesses and lock time, the bytes
      themselves, and leaves what follows, exactly when there is an output, there is an input or a
      marker, and no string is the single zero byte, save unlocking scripts of type nonstandard_0001. */
  lemma RoundTripIff(tx: Tx, segwit: bool, tail: Bytes)
    requires IsStandard(tx) && Fits(tx, None, 0)
    ensures Raw(tx, None, 0, segwit).Ok?
    ensures var o := ReadTx(Raw(tx, None, 0, segwit).value + tail);
            o.Parsed? && o.rest == tail && SameFields(tx, segwit, o.tx)
            <==> IsReadable(tx, segwit) && NoZeroByteIsLost(tx, segwit)
  {
    hide ReadTx, RawBytes, DictOf, NoZeroByteIsLost, IsStandard, Fits;
    var s := RawBytes(tx, None, 0, segwit) + tail;
    if IsReadable(tx, segwit) {
      ReadsAsDict(tx, segwit, tail);
      DictIsSameIff(tx, segwit);
    } else if tx.outputs == [] {
      if ReadTx(s).Parsed? {
        NoOutputs(s);
      }
    } else {
      NoInputs(tx, tail);
    }
  }

  // ---------------------------------------------------------------- what a signature signs

  /** The transaction whose serialisation a legacy signature signs: every script empty but the one of
      the input that is signed. */
  function Blank(tx: Tx, k: nat): Tx {
    tx.(inputs := Map(Blanker(k), tx.inputs))
  }

  function BlankInput(i: Input, k: nat): Input {
    i.(unlockingScript := if k == i.indexN then ScriptCode(i) else [], witnesses := [], scriptType := OtherType)
  }

  function Blanker(k: nat): Input -> Input {
    (i: Input) => BlankInput(i, k)
  }

  lemma BlankInputIsWritten(i: Input, k: nat)
    ensures WriteInput(BlankInput(i, k), None) == WriteInput(i, Some(k))
  {
    hide Reverse, LittleEndian;
    var script := Varstr(BlankInput(i, k).unlockingScript);
    assert [] + script == script;
    assert IntToVarbyteint(0) == [0];
    assert Varstr([]) == [0];
  }

  lemma {:induction false} BlankIsWritten(inputs: seq<Input>, k: nat)
    ensures Written(InputWriter(None), Map(Blanker(k), inputs)) == Written(InputWriter(Some(k)), inputs)
  {
    hide WriteInput, BlankInput;
    if inputs != [] {
      BlankInputIsWritten(inputs[0], k);
      BlankIsWritten(inputs[1..], k);
      assert Map(Blanker(k), inputs)[1..] == Map(Blanker(k), inputs[1..]);
    }
  }

  /** The message is the blank transaction and the hash type. */
  lemma PreimageIsBlank(tx: Tx, k: nat, hashType: nat, segwit: bool)
    ensures RawBytes(tx, Some(k), hashType, segwit) == RawBytes(Blank(tx, k), None, 0, false) + LittleEndian(hashType, 4)
  {
    hide Written, LittleEndian, Reverse;
    BlankIsWritten(tx.inputs, k);
    assert Core(Blank(tx, k), None) == Core(tx, Some(k));
    var raw := Reverse(tx.version) + [] + Core(tx, Some(k)) + [] + LittleEndian(tx.locktime, 4);
    assert raw + [] == raw;
  }

  datatype SignedInput = SignedInput(prevTxid: Bytes, outputN: Bytes, script: ByteString, sequence: nat)

  /** Everything a legacy signature commits to; scripts as they are read. */
  datatype Commitment = Commitment(
    version: Bytes, inputs: seq<SignedInput>, outputs: seq<Output>, locktime: nat, hashType: nat)

  function Signed(i: Input, k: nat): SignedInput {
    SignedInput(i.prevTxid, i.outputN, if k == i.indexN then ReadAs(ScriptCode(i)) else [], i.sequence)
  }

  function Signer(k: nat): Input -> SignedInput {
    (i: Input) => Signed(i, k)
  }

  function Committed(tx: Tx, k: nat, hashType: nat): Commitment {
    Commitment(tx.version, Map(Signer(k), tx.inputs), ReadOutputs(tx.outputs), tx.locktime, hashType)
  }

  function ReadOutputs(outputs: seq<Output>): seq<Output> {
    Map(OutputAsReader(), outputs)
  }

  function OutputAsReader(): Output -> Output {
    (o: Output) => o.(lockScript := ReadAs(o.lockScript))
  }

  /** Outputs are written as they are read. */
  lemma {:induction false} ReadOutputsAreWritten(outputs: seq<Output>)
    ensures Written(OutputWriter(), ReadOutputs(outputs)) == Written(OutputWriter(), outputs)
  {
    hide Varstr, LittleEndian, ReadAs;
    if outputs != [] {
      ReadOutputsAreWritten(outputs[1..]);
      assert ReadOutputs(outputs)[1..] == ReadOutputs(outputs[1..]);
      VarstrReads(outputs[0].lockScript, []);
    }
  }

  predicate IsSignable(tx: Tx, k: nat, hashType: nat) {
    && Fits(tx, Some(k), hashType)
    && |tx.version| == 4 && tx.inputs != [] && tx.outputs != []
    && (forall i :: i in tx.inputs ==> |i.prevTxid| == 32 && |i.outputN| == 4)
  }

  function WriteSigned(i: SignedInput): Bytes {
    Reverse(i.prevTxid) + Reverse(i.outputN) + Varstr(i.script) + LittleEndian(i.sequence, 4)
  }

  function SignedWriter(): SignedInput -> Bytes {
    (i: SignedInput) => WriteSigned(i)
  }

  lemma {:induction false} SignedAreWritten(inputs: seq<Input>, k: nat)
    ensures Written(InputWriter(Some(k)), inputs) == Written(SignedWriter(), Map(Signer(k), inputs))
  {
    hide Reverse, LittleEndian;
    if inputs != [] {
      SignedAreWritten(inputs[1..], k);
      assert Map(Signer(k), inputs)[1..] == Map(Signer(k), inputs[1..]);
      assert Varstr([]) == [0] by {
        assert IntToVarbyteint(0) == [0];
      }
      VarstrReads(ScriptCode(inputs[0]), []);
      assert WriteInput(inputs[0], Some(k)) == WriteSigned(Signed(inputs[0], k));
    }
  }

  /** Equal commitments, equal messages: unlocking scripts and witnesses play no part. */
  lemma CommittedDecides(a: Tx, b: Tx, j: nat, k: nat, g: nat, h: nat, v: bool, w: bool)
    requires Committed(a, j, g) == Committed(b, k, h)
    ensures RawBytes(a, Some(j), g, v) == RawBytes(b, Some(k), h, w)
  {
    hide Written, WriteSigned, Reverse, LittleEndian;
    assert Committed(a, j, g).inputs == Map(Signer(j), a.inputs);
    assert Committed(b, k, h).inputs == Map(Signer(k), b.inputs);
    assert Committed(a, j, g).outputs == ReadOutputs(a.outputs);
    assert Committed(b, k, h).outputs == ReadOutputs(b.outputs);
    assert |ReadOutputs(a.outputs)| == |a.outputs| && |ReadOutputs(b.outputs)| == |b.outputs|;
    ReadOutputsAreWritten(a.outputs);
    ReadOutputsAreWritten(b.outputs);
    SignedAreWritten(a.inputs, j);
    SignedAreWritten(b.inputs, k);
  }

  lemma BlankIsStandard(tx: Tx, k: nat, hashType: nat)
    requires IsSignable(tx, k, hashType)
    ensures IsReadable(Blank(tx, k), false) && Fits(Blank(tx, k), None, 0)
  {
    forall i | i in Blank(tx, k).inputs
      ensures IsStandardInput(i)
    {
      var n: nat :| n < |tx.inputs| && i == BlankInput(tx.inputs[n], k);
      assert tx.inputs[n] in tx.inputs;
    }
  }

  lemma BlankReadsBack(tx: Tx, k: nat, hashType: nat, v: bool)
    requires IsSignable(tx, k, hashType)
    ensures ReadTx(RawBytes(tx, Some(k), hashType, v)) == Parsed(DictOf(Blank(tx, k), false), LittleEndian(hashType, 4))
  {
    hide ReadTx, DictOf, Blank, RawBytes, IsReadable, IsSignable, Fits;
    BlankIsStandard(tx, k, hashType);
    PreimageIsBlank(tx, k, hashType, v);
    ReadsAsDict(Blank(tx, k), false, LittleEndian(hashType, 4));
  }

  lemma Word32Injective(m: nat, n: nat)
    requires IsWord32(m) && IsWord32(n) && LittleEndian(m, 4) == LittleEndian(n, 4)
    ensures m == n
  {
    LocktimeReadsBack(m, []);
    LocktimeReadsBack(n, []);
  }

  /** The dictionary of a blank transaction determines what was committed to. */
  lemma DictDecides(a: Tx, b: Tx, j: nat, k: nat, g: nat, h: nat)
    requires IsSignable(a, j, g) && IsSignable(b, k, h) && g == h
    requires DictOf(Blank(a, j), false) == DictOf(Blank(b, k), false)
    ensures Committed(a, j, g) == Committed(b, k, h)
  {
    hide RawBytes, OutputTotal, IsCoinbase, LittleEndian;
    var d := DictOf(Blank(a, j), false);
    assert |d.inputs| == |a.inputs| == |b.inputs|;
    assert |d.outputs| == |a.outputs| == |b.outputs|;
    forall i | 0 <= i < |a.inputs|
      ensures Signed(a.inputs[i], j) == Signed(b.inputs[i], k)
    {
      assert d.inputs[i] == InputView(BlankInput(a.inputs[i], j), false);
      assert d.inputs[i] == InputView(BlankInput(b.inputs[i], k), false);
      Word32Injective(a.inputs[i].sequence, b.inputs[i].sequence);
    }
    forall o | 0 <= o < |a.outputs|
      ensures ReadOutputs(a.outputs)[o] == ReadOutputs(b.outputs)[o]
    {
      assert d.outputs[o] == OutputView(a.outputs[o]);
      assert d.outputs[o] == OutputView(b.outputs[o]);
    }
  }

  /** Two messages are the same exactly when they commit to the same version, previous outputs,
      sequences, signed script, outputs, lock time and hash type. */
  lemma PreimageIff(a: Tx, b: Tx, j: nat, k: nat, g: nat, h: nat, v: bool, w: bool)
    requires IsSignable(a, j, g) && IsSignable(b, k, h)
    ensures RawBytes(a, Some(j), g, v) == RawBytes(b, Some(k), h, w) <==> Committed(a, j, g) == Committed(b, k, h)
  {
    hide RawBytes, Blank, DictOf, ReadTx, LittleEndian;
    if RawBytes(a, Some(j), g, v) == RawBytes(b, Some(k), h, w) {
      BlankReadsBack(a, j, g, v);
      BlankReadsBack(b, k, h, w);
      Word32Injective(g, h);
      DictDecides(a, b, j, k, g, h);
    } else if Committed(a, j, g) == Committed(b, k, h) {
      CommittedDecides(a, b, j, k, g, h, v, w);
    }
  }
}
