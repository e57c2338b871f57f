/** `Transaction.signature`: the message signed for an input of either kind (BIP 143, section
    "Specification"). */
module SegwitMessage {
  import opened Digits
  import opened CompactSize
  import opened Wire
  import opened RawTransaction
  import opened Sequences
  import opened Wrappers

  const SIGHASH_ALL: nat := 1
  const SIGHASH_NONE: nat := 2
  const SIGHASH_SINGLE: nat := 3

  /** `double_sha256`, of which nothing is known here. */
  type Hash = Bytes -> Bytes

  predicate IsAnyoneCanPay(hashType: nat) {
    hashType / 128 % 2 == 1
  }

  predicate IsForAllOutputs(hashType: nat) {
    hashType % 32 != SIGHASH_SINGLE && hashType % 32 != SIGHASH_NONE
  }

  function WritePrevout(i: Input): Bytes {
    Reverse(i.prevTxid) + Reverse(i.outputN)
  }

  function PrevoutWriter(): Input -> Bytes {
    (i: Input) => WritePrevout(i)
  }

  function SequenceWriter(): Input -> Bytes {
    (i: Input) => LittleEndian(i.sequence, 4)
  }

  /** The outputs a hash type covers. The code takes the single output of the input's number for
      SIGHASH_NONE and no output for SIGHASH_SINGLE. */
  function CoveredOutputs(tx: Tx, k: nat, hashType: nat): Option<seq<Output>> {
    if IsForAllOutputs(hashType) then Some(tx.outputs)
    else if hashType % 32 != SIGHASH_SINGLE && k < |tx.outputs| then Some([tx.outputs[k]])
    else None
  }

  /** The redeem script, or the locking script where there is none. */
  function SegwitCode(i: Input): ByteString {
    if i.redeemscript == [] then i.lockingScript else i.redeemscript
  }

  /** The message exists: there is such an input with a value and a script, and the numbers fit. */
  predicate SegwitFits(tx: Tx, k: nat, hashType: nat, covered: Option<seq<Output>>) {
    && tx.segwit && k < |tx.inputs|
    && (forall i :: 0 <= i < |tx.inputs| ==> IsWord32(tx.inputs[i].sequence))
    && (covered.Some? ==> forall o :: 0 <= o < |covered.value| ==> IsAmount(covered.value[o].value))
    && IsAmount(tx.inputs[k].value) && IsWord32(tx.locktime) && IsWord32(hashType)
    && (tx.inputs[k].scriptType != Coinbase ==> tx.inputs[k].value != 0 && SegwitCode(tx.inputs[k]) !in {[], [0]})
  }

  /** The pieces of the message in front of the script and behind it. */
  function Head(tx: Tx, k: nat, prevouts: Bytes, sequences: Bytes): Bytes
    requires k < |tx.inputs|
  {
    Reverse(tx.version) + prevouts + sequences + Reverse(tx.inputs[k].prevTxid) + Reverse(tx.inputs[k].outputN)
  }

  function Foot(tx: Tx, k: nat, outputs: Bytes, hashType: nat): Bytes
    requires k < |tx.inputs|
  {
    LittleEndian(tx.inputs[k].value, 8) + LittleEndian(tx.inputs[k].sequence, 4) + outputs + LittleEndian(tx.locktime, 4)
    + LittleEndian(hashType, 4)
  }

  function HashPrevouts(hash: Hash, tx: Tx, hashType: nat): Bytes {
    if IsAnyoneCanPay(hashType) then Zeros(32) else hash(Written(PrevoutWriter(), tx.inputs))
  }

  function HashSequence(hash: Hash, tx: Tx, hashType: nat): Bytes {
    if IsAnyoneCanPay(hashType) || !IsForAllOutputs(hashType) then Zeros(32)
    else hash(Written(SequenceWriter(), tx.inputs))
  }

  function HashOutputs(hash: Hash, covered: Option<seq<Output>>): Bytes {
    match covered
    case None => Zeros(32)
    case Some(outputs) => hash(Written(OutputWriter(), outputs))
  }

  /** The message over the outputs covered. */
  function SegwitOver(hash: Hash, tx: Tx, k: nat, hashType: nat, covered: Option<seq<Output>>): Result<Bytes> {
    if !SegwitFits(tx, k, hashType, covered) then Err
    else
      Ok(Head(tx, k, HashPrevouts(hash, tx, hashType), HashSequence(hash, tx, hashType))
         + Varstr(SegwitCode(tx.inputs[k]))
         + Foot(tx, k, HashOutputs(hash, covered), hashType))
  }

  /** `signature_segwit`. */
  function Segwit(hash: Hash, tx: Tx, k: nat, hashType: nat): Result<Bytes> {
    SegwitOver(hash, tx, k, hashType, CoveredOutputs(tx, k, hashType))
  }

  /** `signature`: the message for input `k`. */
  function Message(hash: Hash, tx: Tx, k: nat, hashType: nat, legacy: bool): Result<Bytes> {
    if legacy then Raw(tx, Some(k), hashType, false) else Segwit(hash, tx, k, hashType)
  }

  // ---------------------------------------------------------------- signing does not change the message

  function Unsigned(i: Input): Input {
    i.(unlockingScript := [], witnesses := [])
  }

  function Unsigner(): Input -> Input {
    (i: Input) => Unsigned(i)
  }

  /** A transaction without what signing fills in. */
  function UnsignedTx(tx: Tx): Tx {
    tx.(inputs := Map(Unsigner(), tx.inputs))
  }

  lemma {:induction false} WrittenUnsigned(write: Input -> Bytes, inputs: seq<Input>)
    requires forall i: Input :: write(Unsigned(i)) == write(i)
    ensures Written(write, Map(Unsigner(), inputs)) == Written(write, inputs)
  {
    if inputs != [] {
      WrittenUnsigned(write, inputs[1..]);
      assert Map(Unsigner(), inputs)[1..] == Map(Unsigner(), inputs[1..]);
    }
  }

  lemma SegwitOfUnsigned(hash: Hash, tx: Tx, k: nat, hashType: nat)
    ensures Segwit(hash, UnsignedTx(tx), k, hashType) == Segwit(hash, tx, k, hashType)
  {
    hide Written, Reverse, LittleEndian;
    WrittenUnsigned(PrevoutWriter(), tx.inputs);
    WrittenUnsigned(SequenceWriter(), tx.inputs);
    assert CoveredOutputs(UnsignedTx(tx), k, hashType) == CoveredOutputs(tx, k, hashType);
    assert SegwitFits(UnsignedTx(tx), k, hashType, CoveredOutputs(tx, k, hashType))
        == SegwitFits(tx, k, hashType, CoveredOutputs(tx, k, hashType));
  }

  lemma LegacyOfUnsigned(tx: Tx, k: nat, hashType: nat)
    ensures Raw(UnsignedTx(tx), Some(k), hashType, false) == Raw(tx, Some(k), hashType, false)
  {
    hide RawBytes;
    assert Committed(UnsignedTx(tx), k, hashType).inputs == Committed(tx, k, hashType).inputs;
    CommittedDecides(UnsignedTx(tx), tx, k, k, hashType, hashType, false, false);
    assert Fits(UnsignedTx(tx), Some(k), hashType) == Fits(tx, Some(k), hashType);
  }

  /** Transactions that differ in unlocking scripts and witnesses only have the same messages, or the
      same failure: a signature stays valid while others sign. */
  lemma MessageIgnoresSignatures(hash: Hash, a: Tx, b: Tx, k: nat, hashType: nat, legacy: bool)
    requires UnsignedTx(a) == UnsignedTx(b)
    ensures Message(hash, a, k, hashType, legacy) == Message(hash, b, k, hashType, legacy)
  {
    hide Segwit, Raw, UnsignedTx;
    SegwitOfUnsigned(hash, a, k, hashType);
    SegwitOfUnsigned(hash, b, k, hashType);
    LegacyOfUnsigned(a, k, hashType);
    LegacyOfUnsigned(b, k, hashType);
  }

  // ---------------------------------------------------------------- what the message commits to

  /** Elements that can be read back one by one are determined by their bytes. */
  lemma {:induction false} WrittenDecides<T, U>(
    read: Reader<U>, write: T -> Bytes, view: T -> U, xs: seq<T>, ys: seq<T>)
    requires forall x :: x in xs ==> ReadsBack(read, write, view, x) && write(x) != []
    requires forall y :: y in ys ==> ReadsBack(read, write, view, y) && write(y) != []
    requires Written(write, xs) == Written(write, ys)
    ensures Map(view, xs) == Map(view, ys)
  {
    if xs == [] || ys == [] {
      assert xs == [] && ys == [];
    } else {
      var s := Written(write, xs);
      assert s == write(xs[0]) + Written(write, xs[1..]) && s == write(ys[0]) + Written(write, ys[1..]);
      assert ReadsBack(read, write, view, xs[0]) && ReadsBack(read, write, view, ys[0]);
      assert read(s) == Some(Step(view(xs[0]), write(xs[0]), Written(write, xs[1..])));
      assert read(s) == Some(Step(view(ys[0]), write(ys[0]), Written(write, ys[1..])));
      WrittenDecides(read, write, view, xs[1..], ys[1..]);
      assert Map(view, xs) == [view(xs[0])] + Map(view, xs[1..]);
      assert Map(view, ys) == [view(ys[0])] + Map(view, ys[1..]);
    }
  }

  /** A reader of elements of one width. */
  function Chunk(n: nat): Reader<Bytes> {
    s => Some(Step(Take(s, n), Take(s, n), Drop(s, n)))
  }

  lemma ChunksDecide<T>(n: nat, write: T -> Bytes, xs: seq<T>, ys: seq<T>)
    requires n > 0 && (forall x :: x in xs ==> |write(x)| == n) && (forall y :: y in ys ==> |write(y)| == n)
    requires Written(write, xs) == Written(write, ys)
    ensures Map(write, xs) == Map(write, ys)
  {
    forall x | x in xs || x in ys
      ensures ReadsBack(Chunk(n), write, write, x)
    {
      forall tail: Bytes
        ensures Chunk(n)(write(x) + tail) == Some(Step(write(x), write(x), tail))
      {
        TakeDropConcat(write(x), tail);
      }
    }
    hide ReadsBack, Chunk;
    WrittenDecides(Chunk(n), write, write, xs, ys);
  }

  datatype SegwitCommitment = SegwitCommitment(
    version: Bytes, prevouts: seq<(Bytes, Bytes)>, sequences: seq<nat>, outputs: seq<Output>, locktime: nat,
    prevout: (Bytes, Bytes), code: ByteString, value: nat, sequence: nat)

  function Prevout(i: Input): (Bytes, Bytes) {
    (i.prevTxid, i.outputN)
  }

  function SequenceOf(i: Input): nat {
    i.sequence
  }

  function SegwitCommitted(tx: Tx, k: nat): SegwitCommitment
    requires k < |tx.inputs|
  {
    var i := tx.inputs[k];
    SegwitCommitment(tx.version, Map(Prevout, tx.inputs), Map(SequenceOf, tx.inputs), ReadOutputs(tx.outputs), tx.locktime,
                     Prevout(i), ReadAs(SegwitCode(i)), i.value, i.sequence)
  }

  /** The message exists, and the widths are the fixed ones. */
  predicate IsSegwitSignable(tx: Tx, k: nat) {
    && k < |tx.inputs| && SegwitFits(tx, k, SIGHASH_ALL, Some(tx.outputs))
    && |tx.version| == 4
    && (forall i :: i in tx.inputs ==> |i.prevTxid| == 32 && |i.outputN| == 4)
  }

  ghost predicate HasDigests(hash: Hash) {
    forall s :: |hash(s)| == 32
  }

  /** The hash tells the two strings apart if they differ. */
  predicate NoCollision(hash: Hash, s: Bytes, t: Bytes) {
    hash(s) == hash(t) ==> s == t
  }

  /** No collision among what two messages hash. */
  predicate NoCollisions(hash: Hash, a: Tx, b: Tx) {
    && NoCollision(hash, Written(PrevoutWriter(), a.inputs), Written(PrevoutWriter(), b.inputs))
    && NoCollision(hash, Written(SequenceWriter(), a.inputs), Written(SequenceWriter(), b.inputs))
    && NoCollision(hash, Written(OutputWriter(), a.outputs), Written(OutputWriter(), b.outputs))
  }

  lemma ReverseInjective(a: Bytes, b: Bytes)
    requires Reverse(a) == Reverse(b)
    ensures a == b
  {
    ReverseTwice(a);
    ReverseTwice(b);
  }

  lemma PrevoutDecides(i: Input, j: Input)
    requires |i.prevTxid| == |j.prevTxid| && WritePrevout(i) == WritePrevout(j)
    ensures Prevout(i) == Prevout(j)
  {
    SplitEqual(Reverse(i.prevTxid), Reverse(i.outputN), Reverse(j.prevTxid), Reverse(j.outputN));
    ReverseInjective(i.prevTxid, j.prevTxid);
    ReverseInjective(i.outputN, j.outputN);
  }

  lemma PrevoutsDecide(xs: seq<Input>, ys: seq<Input>)
    requires forall i :: i in xs || i in ys ==> |i.prevTxid| == 32 && |i.outputN| == 4
    requires Written(PrevoutWriter(), xs) == Written(PrevoutWriter(), ys)
    ensures Map(Prevout, xs) == Map(Prevout, ys)
  {
    ChunksDecide(36, PrevoutWriter(), xs, ys);
    var m := Map(PrevoutWriter(), xs);
    assert |m| == |xs| == |ys|;
    forall n | 0 <= n < |xs|
      ensures Prevout(xs[n]) == Prevout(ys[n])
    {
      assert m[n] == WritePrevout(xs[n]) && m[n] == WritePrevout(ys[n]);
      assert xs[n] in xs && ys[n] in ys;
      PrevoutDecides(xs[n], ys[n]);
    }
  }

  lemma SequencesDecide(xs: seq<Input>, ys: seq<Input>)
    requires forall n :: 0 <= n < |xs| ==> IsWord32(xs[n].sequence)
    requires forall n :: 0 <= n < |ys| ==> IsWord32(ys[n].sequence)
    requires Written(SequenceWriter(), xs) == Written(SequenceWriter(), ys)
    ensures Map(SequenceOf, xs) == Map(SequenceOf, ys)
  {
    ChunksDecide(4, SequenceWriter(), xs, ys);
    var m := Map(SequenceWriter(), xs);
    assert |m| == |xs| == |ys|;
    forall n | 0 <= n < |xs|
      ensures xs[n].sequence == ys[n].sequence
    {
      assert m[n] == LittleEndian(xs[n].sequence, 4) && m[n] == LittleEndian(ys[n].sequence, 4);
      Word32Injective(xs[n].sequence, ys[n].sequence);
    }
  }

  predicate AreWritable(outputs: seq<Output>) {
    forall n :: 0 <= n < |outputs| ==> IsAmount(outputs[n].value)
  }

  lemma OutputsDecide(xs: seq<Output>, ys: seq<Output>)
    requires AreWritable(xs) && AreWritable(ys) && Written(OutputWriter(), xs) == Written(OutputWriter(), ys)
    ensures ReadOutputs(xs) == ReadOutputs(ys)
  {
    forall o | o in xs || o in ys
      ensures ReadsBack(OutputReader(), OutputWriter(), OutputViewer(), o) && OutputWriter()(o) != []
    {
      OutputReadsBack(o);
    }
    hide ReadsBack, WriteOutput, OutputReader;
    WrittenDecides(OutputReader(), OutputWriter(), OutputViewer(), xs, ys);
    var m := Map(OutputViewer(), xs);
    assert |m| == |xs| == |ys|;
    forall n | 0 <= n < |xs|
      ensures ReadOutputs(xs)[n] == ReadOutputs(ys)[n]
    {
      assert m[n] == OutputView(xs[n]) && m[n] == OutputView(ys[n]);
    }
  }

  lemma HeadDecides(a: Tx, b: Tx, j: nat, k: nat, p: Bytes, q: Bytes, s: Bytes, t: Bytes)
    requires IsSegwitSignable(a, j) && IsSegwitSignable(b, k) && |p| == |q| == |s| == |t| == 32
    ensures |Head(a, j, p, s)| == |Head(b, k, q, t)|
    ensures Head(a, j, p, s) == Head(b, k, q, t) ==>
              a.version == b.version && p == q && s == t && Prevout(a.inputs[j]) == Prevout(b.inputs[k])
  {
    hide SegwitFits, Reverse;
    var i, l := a.inputs[j], b.inputs[k];
    assert i in a.inputs && l in b.inputs;
    var va, vb := Reverse(a.version), Reverse(b.version);
    var ia, ib := Reverse(i.prevTxid), Reverse(l.prevTxid);
    var na, nb := Reverse(i.outputN), Reverse(l.outputN);
    if Head(a, j, p, s) == Head(b, k, q, t) {
      SplitEqual(va + p + s + ia, na, vb + q + t + ib, nb);
      SplitEqual(va + p + s, ia, vb + q + t, ib);
      SplitEqual(va + p, s, vb + q, t);
      SplitEqual(va, p, vb, q);
      ReverseInjective(a.version, b.version);
      ReverseInjective(i.prevTxid, l.prevTxid);
      ReverseInjective(i.outputN, l.outputN);
    }
  }

  lemma AmountInjective(m: nat, n: nat)
    requires IsAmount(m) && IsAmount(n) && LittleEndian(m, 8) == LittleEndian(n, 8)
    ensures m == n
  {
    hide Pow, FixLE, ValLE;
    ByteLimits();
    LittleEndianBack(m, 8);
    LittleEndianBack(n, 8);
  }

  lemma FootDecides(a: Tx, b: Tx, j: nat, k: nat, o: Bytes, p: Bytes)
    requires IsSegwitSignable(a, j) && IsSegwitSignable(b, k) && |o| == |p| == 32
    requires Foot(a, j, o, SIGHASH_ALL) == Foot(b, k, p, SIGHASH_ALL)
    ensures a.inputs[j].value == b.inputs[k].value && a.inputs[j].sequence == b.inputs[k].sequence
    ensures o == p && a.locktime == b.locktime
  {
    hide LittleEndian;
    var i, l := a.inputs[j], b.inputs[k];
    var h := LittleEndian(SIGHASH_ALL, 4);
    var va, vb := LittleEndian(i.value, 8), LittleEndian(l.value, 8);
    var sa, sb := LittleEndian(i.sequence, 4), LittleEndian(l.sequence, 4);
    var ta, tb := LittleEndian(a.locktime, 4), LittleEndian(b.locktime, 4);
    SplitEqual(va + sa + o + ta, h, vb + sb + p + tb, h);
    SplitEqual(va + sa + o, ta, vb + sb + p, tb);
    SplitEqual(va + sa, o, vb + sb, p);
    SplitEqual(va, sa, vb, sb);
    AmountInjective(i.value, l.value);
    Word32Injective(i.sequence, l.sequence);
    Word32Injective(a.locktime, b.locktime);
  }

  lemma CodeDecides(c: ByteString, d: ByteString, s: Bytes, t: Bytes)
    requires Varstr(c) + s == Varstr(d) + t
    ensures ReadAs(c) == ReadAs(d) && s == t
  {
    VarstrReads(c, s);
    VarstrReads(d, t);
  }

  /** The parts of the message for all inputs and outputs. */
  function FullMessage(hash: Hash, tx: Tx, k: nat): Bytes
    requires k < |tx.inputs|
  {
    Head(tx, k, hash(Written(PrevoutWriter(), tx.inputs)), hash(Written(SequenceWriter(), tx.inputs)))
    + Varstr(SegwitCode(tx.inputs[k]))
    + Foot(tx, k, hash(Written(OutputWriter(), tx.outputs)), SIGHASH_ALL)
  }

  lemma FullMessageIs(hash: Hash, tx: Tx, k: nat)
    requires SegwitFits(tx, k, SIGHASH_ALL, Some(tx.outputs))
    ensures Segwit(hash, tx, k, SIGHASH_ALL) == Ok(FullMessage(hash, tx, k))
  {
    hide Head, Foot, Written;
  }

  lemma MessageDecides(hash: Hash, a: Tx, b: Tx, j: nat, k: nat)
    requires HasDigests(hash) && NoCollisions(hash, a, b) && IsSegwitSignable(a, j) && IsSegwitSignable(b, k)
    requires FullMessage(hash, a, j) == FullMessage(hash, b, k)
    ensures SegwitCommitted(a, j) == SegwitCommitted(b, k)
  {
    hide Head, Foot, Written, SegwitFits;
    var p, q := hash(Written(PrevoutWriter(), a.inputs)), hash(Written(PrevoutWriter(), b.inputs));
    var s, t := hash(Written(SequenceWriter(), a.inputs)), hash(Written(SequenceWriter(), b.inputs));
    var o, u := hash(Written(OutputWriter(), a.outputs)), hash(Written(OutputWriter(), b.outputs));
    var c, d := SegwitCode(a.inputs[j]), SegwitCode(b.inputs[k]);
    var headA, headB := Head(a, j, p, s), Head(b, k, q, t);
    var footA, footB := Foot(a, j, o, SIGHASH_ALL), Foot(b, k, u, SIGHASH_ALL);
    HeadDecides(a, b, j, k, p, q, s, t);
    assert headA + Varstr(c) + footA == headA + (Varstr(c) + footA);
    assert headB + Varstr(d) + footB == headB + (Varstr(d) + footB);
    SplitEqual(headA, Varstr(c) + footA, headB, Varstr(d) + footB);
    CodeDecides(c, d, footA, footB);
    FootDecides(a, b, j, k, o, u);
    ListsDecide(a, b, j, k);
  }

  lemma ListsDecide(a: Tx, b: Tx, j: nat, k: nat)
    requires IsSegwitSignable(a, j) && IsSegwitSignable(b, k)
    requires Written(PrevoutWriter(), a.inputs) == Written(PrevoutWriter(), b.inputs)
    requires Written(SequenceWriter(), a.inputs) == Written(SequenceWriter(), b.inputs)
    requires Written(OutputWriter(), a.outputs) == Written(OutputWriter(), b.outputs)
    ensures Map(Prevout, a.inputs) == Map(Prevout, b.inputs)
    ensures Map(SequenceOf, a.inputs) == Map(SequenceOf, b.inputs)
    ensures ReadOutputs(a.outputs) == ReadOutputs(b.outputs)
  {
    hide Written;
    assert AreWritable(a.outputs) && AreWritable(b.outputs);
    hide PrevoutWriter, SequenceWriter, OutputWriter;
    PrevoutsDecide(a.inputs, b.inputs);
    SequencesDecide(a.inputs, b.inputs);
    OutputsDecide(a.outputs, b.outputs);
  }

  lemma {:induction false} WrittenFollows<U>(write: Input -> Bytes, view: Input -> U, f: U -> Bytes, xs: seq<Input>)
    requires forall i :: write(i) == f(view(i))
    ensures Written(write, xs) == Written(f, Map(view, xs))
  {
    if xs != [] {
      WrittenFollows(write, view, f, xs[1..]);
      assert Map(view, xs)[1..] == Map(view, xs[1..]);
    }
  }

  function PairWriter(): ((Bytes, Bytes)) -> Bytes {
    (p: (Bytes, Bytes)) => Reverse(p.0) + Reverse(p.1)
  }

  function Word32Writer(): nat -> Bytes {
    (n: nat) => LittleEndian(n, 4)
  }

  lemma CommittedDecidesMessage(hash: Hash, a: Tx, b: Tx, j: nat, k: nat)
    requires j < |a.inputs| && k < |b.inputs| && SegwitCommitted(a, j) == SegwitCommitted(b, k)
    ensures FullMessage(hash, a, j) == FullMessage(hash, b, k)
  {
    hide Written, Reverse, LittleEndian, ReadOutputs, Varstr;
    ReadOutputsAreWritten(a.outputs);
    ReadOutputsAreWritten(b.outputs);
    VarstrReads(SegwitCode(a.inputs[j]), []);
    VarstrReads(SegwitCode(b.inputs[k]), []);
    WrittenFollows(PrevoutWriter(), Prevout, PairWriter(), a.inputs);
    WrittenFollows(PrevoutWriter(), Prevout, PairWriter(), b.inputs);
    WrittenFollows(SequenceWriter(), SequenceOf, Word32Writer(), a.inputs);
    WrittenFollows(SequenceWriter(), SequenceOf, Word32Writer(), b.inputs);
  }

  /** Where the hash does not collide, two segwit messages for all inputs and outputs are the same
      exactly when they commit to the same version, previous outputs, sequences, outputs, lock time and
      signed input with its script and value. */
  lemma SegwitIff(hash: Hash, a: Tx, b: Tx, j: nat, k: nat)
    requires HasDigests(hash) && NoCollisions(hash, a, b) && IsSegwitSignable(a, j) && IsSegwitSignable(b, k)
    ensures Segwit(hash, a, j, SIGHASH_ALL) == Segwit(hash, b, k, SIGHASH_ALL)
            <==> SegwitCommitted(a, j) == SegwitCommitted(b, k)
  {
    hide Segwit, FullMessage, SegwitCommitted, HasDigests, NoCollisions;
    FullMessageIs(hash, a, j);
    FullMessageIs(hash, b, k);
    if FullMessage(hash, a, j) == FullMessage(hash, b, k) {
      MessageDecides(hash, a, b, j, k);
    } else if SegwitCommitted(a, j) == SegwitCommitted(b, k) {
      CommittedDecidesMessage(hash, a, b, j, k);
    }
  }

  // ---------------------------------------------------------------- the outputs a hash type should cover

  /** The outputs of BIP 143: all of them, for SIGHASH_SINGLE the one of the input's number if there is
      one, otherwise none. */
  function Bip143Outputs(tx: Tx, k: nat, hashType: nat): Option<seq<Output>> {
    if IsForAllOutputs(hashType) then Some(tx.outputs)
    else if hashType % 32 == SIGHASH_SINGLE && k < |tx.outputs| then Some([tx.outputs[k]])
    else None
  }

  /** The code covers what BIP 143 asks for exactly when the hash type covers all outputs or there is no
      output of the input's number. */
  lemma CoversBip143Iff(tx: Tx, k: nat, hashType: nat)
    ensures CoveredOutputs(tx, k, hashType) == Bip143Outputs(tx, k, hashType)
            <==> IsForAllOutputs(hashType) || k >= |tx.outputs|
  {
  }

  lemma FootOutputs(tx: Tx, k: nat, hashType: nat, o: Bytes, p: Bytes)
    requires k < |tx.inputs| && |o| == |p| && Foot(tx, k, o, hashType) == Foot(tx, k, p, hashType)
    ensures o == p
  {
    hide LittleEndian;
    var v, t, h := LittleEndian(tx.inputs[k].value, 8) + LittleEndian(tx.inputs[k].sequence, 4),
                   LittleEndian(tx.locktime, 4), LittleEndian(hashType, 4);
    SplitEqual(v + o + t, h, v + p + t, h);
    SplitEqual(v + o, t, v + p, t);
    SplitEqual(v, o, v, p);
  }

  /** The message is the one of BIP 143 under the same condition, unless an output hashes to zero. */
  lemma SegwitIsBip143Iff(hash: Hash, tx: Tx, k: nat, hashType: nat)
    requires HasDigests(hash)
    requires SegwitFits(tx, k, hashType, CoveredOutputs(tx, k, hashType))
    requires SegwitFits(tx, k, hashType, Bip143Outputs(tx, k, hashType))
    requires k < |tx.outputs| ==> hash(Written(OutputWriter(), [tx.outputs[k]])) != Zeros(32)
    ensures Segwit(hash, tx, k, hashType) == SegwitOver(hash, tx, k, hashType, Bip143Outputs(tx, k, hashType))
            <==> IsForAllOutputs(hashType) || k >= |tx.outputs|
  {
    hide Head, Foot, Written, SegwitFits, HashPrevouts, HashSequence, Varstr, SegwitCode, OutputWriter;
    CoversBip143Iff(tx, k, hashType);
    var o := HashOutputs(hash, CoveredOutputs(tx, k, hashType));
    var p := HashOutputs(hash, Bip143Outputs(tx, k, hashType));
    assert |o| == 32 && |p| == 32;
    FitsHasInput(tx, k, hashType, CoveredOutputs(tx, k, hashType));
    var head := Head(tx, k, HashPrevouts(hash, tx, hashType), HashSequence(hash, tx, hashType))
                + Varstr(SegwitCode(tx.inputs[k]));
    if head + Foot(tx, k, o, hashType) == head + Foot(tx, k, p, hashType) {
      SplitEqual(head, Foot(tx, k, o, hashType), head, Foot(tx, k, p, hashType));
      FootOutputs(tx, k, hashType, o, p);
    }
  }

  lemma FitsHasInput(tx: Tx, k: nat, hashType: nat, covered: Option<seq<Output>>)
    requires SegwitFits(tx, k, hashType, covered)
    ensures k < |tx.inputs|
  {
  }

  /** One input and one output. */
  function OneToOne(): Tx {
    var i := Input(Zeros(32), [0, 0, 0, 0], [], [], false, OtherType, [0x51], [], 0xffff_ffff, 0, 1);
    Tx([1, 0, 0, 0], [i], [Output(1, [])], 0, true)
  }

  /** For SIGHASH_NONE a signature covers the output and for SIGHASH_SINGLE it covers none, the other way round
      than in BIP 143. */
  lemma NoneAndSingleSwapped(hash: Hash, hashType: nat)
    requires HasDigests(hash) && hash(Written(OutputWriter(), OneToOne().outputs)) != Zeros(32)
    requires hashType == SIGHASH_NONE || hashType == SIGHASH_SINGLE
    ensures var tx := OneToOne();
            && CoveredOutputs(tx, 0, hashType) == (if hashType == SIGHASH_NONE then Some(tx.outputs) else None)
            && Bip143Outputs(tx, 0, hashType) == (if hashType == SIGHASH_NONE then None else Some(tx.outputs))
            && Segwit(hash, tx, 0, hashType).Ok?
            && SegwitOver(hash, tx, 0, hashType, Bip143Outputs(tx, 0, hashType)).Ok?
            && Segwit(hash, tx, 0, hashType) != SegwitOver(hash, tx, 0, hashType, Bip143Outputs(tx, 0, hashType))
  {
    var tx := OneToOne();
    assert [tx.outputs[0]] == tx.outputs;
    hide Written, Head, Foot, Varstr, HashOutputs, HasDigests;
    SegwitIsBip143Iff(hash, tx, 0, hashType);
  }
}
