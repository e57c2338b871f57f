/** The segwit signature message cut at the offsets of BIP 143, section "Specification". */
module SegwitLayout {
  import opened Digits
  import opened ByteLayout
  import opened CompactSize
  import opened Wire
  import opened RawLayout
  import opened RawTransaction
  import opened SegwitMessage
  import opened Sequences
  import opened Wrappers

  // ---------------------------------------------------------------- what is hashed

  /** The previous outputs of all inputs, 36 bytes each. */
  function Outpoints(inputs: seq<Input>): Bytes {
    if inputs == [] then []
    else Reverse(inputs[0].prevTxid) + Reverse(inputs[0].outputN) + Outpoints(inputs[1..])
  }

  /** The sequences of all inputs, 4 bytes each. */
  function AllSequences(inputs: seq<Input>): Bytes {
    if inputs == [] then [] else Little(inputs[0].sequence, 4) + AllSequences(inputs[1..])
  }

  lemma {:induction false} OutpointsAreHashed(inputs: seq<Input>)
    ensures Written(PrevoutWriter(), inputs) == Outpoints(inputs)
  {
    if inputs != [] {
      OutpointsAreHashed(inputs[1..]);
    }
  }

  lemma {:induction false} SequencesAreHashed(inputs: seq<Input>)
    ensures Written(SequenceWriter(), inputs) == AllSequences(inputs)
  {
    hide LittleEndian, Little;
    if inputs != [] {
      LittleEndianIs(inputs[0].sequence, 4);
      SequencesAreHashed(inputs[1..]);
    }
  }

  // ---------------------------------------------------------------- the cuts

  lemma Front(a: Bytes, b: Bytes, c: Bytes, d: Bytes, e: Bytes, rest: Bytes)
    requires |a| == 4 && |b| == 32 && |c| == 32 && |d| == 32 && |e| == 4
    ensures var m := a + b + c + d + e + rest;
            && |m| == 104 + |rest|
            && m[..4] == a && m[4..36] == b && m[36..68] == c && m[68..100] == d && m[100..104] == e && m[104..] == rest
  {
  }

  lemma Back(s: Bytes, a: Bytes, b: Bytes, c: Bytes, d: Bytes, e: Bytes)
    requires |a| == 8 && |b| == 4 && |c| == 32 && |d| == 4 && |e| == 4
    ensures var m := s + (a + b + c + d + e);
            var n := |m|;
            && n == |s| + 52
            && m[..n - 52] == s && m[n - 52..n - 44] == a && m[n - 44..n - 40] == b && m[n - 40..n - 8] == c
            && m[n - 8..n - 4] == d && m[n - 4..] == e
  {
  }

  lemma Behind(front: Bytes, rest: Bytes, i: nat, j: nat)
    requires i <= j <= |rest|
    ensures (front + rest)[|front| + i..|front| + j] == rest[i..j]
  {
  }

  /** A string with five pieces of known width in front and five behind. */
  lemma Cuts(a: Bytes, b: Bytes, c: Bytes, d: Bytes, e: Bytes, code: Bytes, v: Bytes, w: Bytes, x: Bytes, y: Bytes, z: Bytes)
    requires |a| == 4 && |b| == 32 && |c| == 32 && |d| == 32 && |e| == 4
    requires |v| == 8 && |w| == 4 && |x| == 32 && |y| == 4 && |z| == 4
    ensures var m := (a + b + c + d + e) + code + (v + w + x + y + z);
            var n := |m|;
            && n == 156 + |code|
            && m[..4] == a && m[4..36] == b && m[36..68] == c && m[68..100] == d && m[100..104] == e
            && m[104..n - 52] == code && m[n - 52..n - 44] == v && m[n - 44..n - 40] == w && m[n - 40..n - 8] == x
            && m[n - 8..n - 4] == y && m[n - 4..] == z
  {
    var front, back := a + b + c + d + e, v + w + x + y + z;
    Front(a, b, c, d, e, code + back);
    Back(code, v, w, x, y, z);
    hide *;
    var rest := code + back;
    var m, l := front + code + back, |code|;
    assert m == front + rest && |front| == 104 && |rest| == l + 52;
    Behind(front, rest, 0, l);
    Behind(front, rest, l, l + 8);
    Behind(front, rest, l + 8, l + 12);
    Behind(front, rest, l + 12, l + 44);
    Behind(front, rest, l + 44, l + 48);
    Behind(front, rest, l + 48, l + 52);
    assert rest[0..l] == rest[..l] && m[104 + l + 48..104 + l + 52] == m[104 + l + 48..];
  }

  lemma Digests(hash: Hash, tx: Tx, hashType: nat, covered: Option<seq<Output>>)
    requires HasDigests(hash)
    ensures |HashPrevouts(hash, tx, hashType)| == 32 && |HashSequence(hash, tx, hashType)| == 32
    ensures |HashOutputs(hash, covered)| == 32
  {
  }

  /** Widths as everywhere on the wire. */
  predicate HasWireWidths(tx: Tx) {
    |tx.version| == 4 && forall i :: 0 <= i < |tx.inputs| ==> |tx.inputs[i].prevTxid| == 32 && |tx.inputs[i].outputN| == 4
  }

  /** The message of input `k` exists exactly when there is such an input in a segwit transaction, every number fits the
      bytes it is written in, and the input has an amount and a script, unless it is a coinbase. */
  lemma MessageExistsIff(hash: Hash, tx: Tx, k: nat, hashType: nat)
    ensures Message(hash, tx, k, hashType, false).Ok?
            <==> && tx.segwit && k < |tx.inputs|
                 && (forall i :: 0 <= i < |tx.inputs| ==> tx.inputs[i].sequence < 4294967296)
                 && (hashType % 32 !in {2, 3} ==>
                       forall o :: 0 <= o < |tx.outputs| ==> 0 <= tx.outputs[o].value < 18446744073709551616)
                 && (hashType % 32 == 2 && k < |tx.outputs| ==> 0 <= tx.outputs[k].value < 18446744073709551616)
                 && tx.inputs[k].value < 18446744073709551616 && tx.locktime < 4294967296 && hashType < 4294967296
                 && (tx.inputs[k].scriptType != Coinbase ==>
                       && tx.inputs[k].value != 0
                       && (tx.inputs[k].redeemscript != [] ==> tx.inputs[k].redeemscript != [0])
                       && (tx.inputs[k].redeemscript == [] ==> tx.inputs[k].lockingScript !in {[], [0]}))
  {
    hide Head, Foot, Varstr, HashPrevouts, HashSequence, HashOutputs;
    if hashType % 32 == 2 && k < |tx.outputs| {
      assert CoveredOutputs(tx, k, hashType) == Some([tx.outputs[k]]);
      assert [tx.outputs[k]][0] == tx.outputs[k];
    }
  }

  /** The message of input `k`, piece by piece: version, hash of the previous outputs, hash of the sequences, the
      previous output of the input, its script behind its size, its amount, its sequence, hash of the outputs, lock
      time and hash type. Which of the three hashes are zeros depends on the hash type; for type 2 the code takes the
      output of the input's number, for type 3 none. */
  lemma MessageLayout(hash: Hash, tx: Tx, k: nat, hashType: nat)
    requires HasWireWidths(tx) && HasDigests(hash) && Message(hash, tx, k, hashType, false).Ok?
    ensures k < |tx.inputs|
    ensures var m := Message(hash, tx, k, hashType, false).value;
            var n := |m|;
            var i := tx.inputs[k];
            var code := if i.redeemscript == [] then i.lockingScript else i.redeemscript;
            var onlyMine, some := hashType / 128 % 2 == 1, hashType % 32 in {2, 3};
            && n == 156 + |StringBytes(code)|
            && m[..4] == Reverse(tx.version)
            && m[4..36] == (if onlyMine then Zeros(32) else hash(Outpoints(tx.inputs)))
            && m[36..68] == (if onlyMine || some then Zeros(32) else hash(AllSequences(tx.inputs)))
            && m[68..100] == Reverse(i.prevTxid)
            && m[100..104] == Reverse(i.outputN)
            && m[104..n - 52] == StringBytes(code)
            && m[n - 52..n - 44] == Little(i.value, 8)
            && m[n - 44..n - 40] == Little(i.sequence, 4)
            && m[n - 40..n - 8] == (if !some then hash(AllOutputs(tx.outputs))
                                    else if hashType % 32 == 2 && k < |tx.outputs| then hash(AllOutputs([tx.outputs[k]]))
                                    else Zeros(32))
            && m[n - 8..n - 4] == Little(tx.locktime, 4)
            && m[n - 4..] == Little(hashType, 4)
  {
    hide Written, LittleEndian, Little, Varstr, StringBytes, Reverse, Outpoints, AllSequences, AllOutputs, HasDigests;
    MessageExistsIff(hash, tx, k, hashType);
    var i := tx.inputs[k];
    var code := SegwitCode(i);
    OutpointsAreHashed(tx.inputs);
    SequencesAreHashed(tx.inputs);
    OutputsAre(tx.outputs);
    if k < |tx.outputs| {
      OutputsAre([tx.outputs[k]]);
    }
    StringIs(code);
    LittleEndianIs(i.value, 8);
    LittleEndianIs(i.sequence, 4);
    LittleEndianIs(tx.locktime, 4);
    LittleEndianIs(hashType, 4);
    Digests(hash, tx, hashType, CoveredOutputs(tx, k, hashType));
    var p, s, o := HashPrevouts(hash, tx, hashType), HashSequence(hash, tx, hashType),
                   HashOutputs(hash, CoveredOutputs(tx, k, hashType));
    Cuts(Reverse(tx.version), p, s, Reverse(i.prevTxid), Reverse(i.outputN), StringBytes(code),
         Little(i.value, 8), Little(i.sequence, 4), o, Little(tx.locktime, 4), Little(hashType, 4));
  }

  /** The message of a legacy input is the transaction with its script alone and the hash type. */
  lemma LegacyMessage(hash: Hash, tx: Tx, k: nat, hashType: nat)
    ensures Message(hash, tx, k, hashType, true).Ok? <==> NumbersFit(tx) && hashType < 4294967296
    ensures Message(hash, tx, k, hashType, true).Ok? ==>
              Message(hash, tx, k, hashType, true).value
              == Reverse(tx.version)
                 + SizeBytes(|tx.inputs|) + AllInputs(tx.inputs, SignedScript(k))
                 + SizeBytes(|tx.outputs|) + AllOutputs(tx.outputs)
                 + Little(tx.locktime, 4) + Little(hashType, 4)
  {
    hide Raw, Segwit, Little, SizeBytes, AllInputs, AllOutputs, Reverse;
    LegacyLayout(tx, k, hashType, false);
  }
}
