/** `Transaction.raw` byte by byte (BIP 144, section "Serialization"). */
module RawLayout {
  import opened Digits
  import opened ByteLayout
  import opened CompactSize
  import opened Wire
  import opened RawTransaction
  import opened Sequences
  import opened Wrappers

  /** Amount and script of outputs. */
  function AllOutputs(outputs: seq<Output>): Bytes {
    if outputs == [] then []
    else Little(if outputs[0].value < 0 then 0 else outputs[0].value, 8) + StringBytes(outputs[0].lockScript)
         + AllOutputs(outputs[1..])
  }

  /** Previous output, script and sequence of inputs, `script` being the bytes in the script's place. */
  function AllInputs(inputs: seq<Input>, script: Input -> Bytes): Bytes {
    if inputs == [] then []
    else Reverse(inputs[0].prevTxid) + Reverse(inputs[0].outputN) + script(inputs[0]) + Little(inputs[0].sequence, 4)
         + AllInputs(inputs[1..], script)
  }

  function Strings(ss: seq<ByteString>): Bytes {
    if ss == [] then [] else StringBytes(ss[0]) + Strings(ss[1..])
  }

  function AllWitnesses(inputs: seq<Input>): Bytes {
    if inputs == [] then []
    else (if inputs[0].legacy || inputs[0].witnesses == [] then [0]
          else SizeBytes(|inputs[0].witnesses|) + Strings(inputs[0].witnesses))
         + AllWitnesses(inputs[1..])
  }

  /** The unlocking script, behind an extra size for the script that is one zero byte. */
  function OwnScript(): Input -> Bytes {
    (i: Input) => (if i.scriptType == Nonstandard0001 then [1] else []) + StringBytes(i.unlockingScript)
  }

  /** For the signature of input `k`, the script of the output it spends; other inputs have none. */
  function SignedScript(k: nat): Input -> Bytes {
    (i: Input) => if i.indexN != k then [0]
                  else StringBytes(if i.scriptType == P2shMultisig then i.redeemscript else i.lockingScript)
  }

  lemma {:induction false} OutputsAre(outputs: seq<Output>)
    ensures Written(OutputWriter(), outputs) == AllOutputs(outputs)
  {
    hide LittleEndian, Little, Varstr, StringBytes;
    if outputs != [] {
      LittleEndianIs(Amount(outputs[0]), 8);
      StringIs(outputs[0].lockScript);
      OutputsAre(outputs[1..]);
    }
  }

  lemma {:induction false} InputsAre(inputs: seq<Input>)
    ensures Written(InputWriter(None), inputs) == AllInputs(inputs, OwnScript())
  {
    hide LittleEndian, Little, Varstr, StringBytes, Reverse;
    if inputs != [] {
      LittleEndianIs(inputs[0].sequence, 4);
      StringIs(inputs[0].unlockingScript);
      InputsAre(inputs[1..]);
    }
  }

  lemma {:induction false} SignedInputsAre(inputs: seq<Input>, k: nat)
    ensures Written(InputWriter(Some(k)), inputs) == AllInputs(inputs, SignedScript(k))
  {
    hide LittleEndian, Little, Varstr, StringBytes, Reverse;
    if inputs != [] {
      LittleEndianIs(inputs[0].sequence, 4);
      StringIs(inputs[0].redeemscript);
      StringIs(inputs[0].lockingScript);
      SignedInputsAre(inputs[1..], k);
    }
  }

  lemma {:induction false} StringsAre(ss: seq<ByteString>)
    ensures Written(ItemWriter(), ss) == Strings(ss)
  {
    hide Varstr, StringBytes;
    if ss != [] {
      StringIs(ss[0]);
      StringsAre(ss[1..]);
    }
  }

  lemma {:induction false} WitnessesAre(inputs: seq<Input>)
    ensures Written(WitnessWriter(), inputs) == AllWitnesses(inputs)
  {
    hide Strings, SizeBytes, IntToVarbyteint;
    if inputs != [] {
      SizeIs(|inputs[0].witnesses|);
      StringsAre(inputs[0].witnesses);
      WitnessesAre(inputs[1..]);
    }
  }

  /** Numbers that fit the bytes they are written in. */
  predicate NumbersFit(tx: Tx) {
    && (forall i :: 0 <= i < |tx.inputs| ==> tx.inputs[i].sequence < 4294967296)
    && (forall o :: 0 <= o < |tx.outputs| ==> 0 <= tx.outputs[o].value < 18446744073709551616)
    && tx.locktime < 4294967296
  }

  /** The bytes of a transaction: version, marker and flag for segwit, inputs and outputs behind their numbers, for
      segwit the witnesses of each input, lock time. */
  lemma TransactionLayout(tx: Tx, hashType: nat, segwit: bool)
    ensures Raw(tx, None, hashType, segwit).Ok? <==> NumbersFit(tx)
    ensures Raw(tx, None, hashType, segwit).Ok? ==>
              Raw(tx, None, hashType, segwit).value
              == Reverse(tx.version) + (if segwit then [0, 1] else [])
                 + SizeBytes(|tx.inputs|) + AllInputs(tx.inputs, OwnScript())
                 + SizeBytes(|tx.outputs|) + AllOutputs(tx.outputs)
                 + (if segwit then AllWitnesses(tx.inputs) else [])
                 + Little(tx.locktime, 4)
  {
    hide Written, LittleEndian, Little, IntToVarbyteint, SizeBytes, AllInputs, AllOutputs, AllWitnesses, Reverse;
    SizeIs(|tx.inputs|);
    SizeIs(|tx.outputs|);
    InputsAre(tx.inputs);
    OutputsAre(tx.outputs);
    WitnessesAre(tx.inputs);
    LittleEndianIs(tx.locktime, 4);
    Regrouped(Reverse(tx.version) + (if segwit then [0, 1] else []), SizeBytes(|tx.inputs|),
              AllInputs(tx.inputs, OwnScript()), SizeBytes(|tx.outputs|), AllOutputs(tx.outputs),
              if segwit then AllWitnesses(tx.inputs) else [], Little(tx.locktime, 4), []);
  }

  lemma Regrouped(v: Bytes, n: Bytes, a: Bytes, m: Bytes, b: Bytes, w: Bytes, l: Bytes, h: Bytes)
    ensures v + (n + a + (m + b)) + w + l + h == v + n + a + m + b + w + l + h
    ensures v + n + a + m + b + w + l + [] == v + n + a + m + b + w + l
    ensures v + n + a + m + b + [] + l + h == v + n + a + m + b + l + h
  {
    var s := v + n + a + m + b;
    assert v + (n + a + (m + b)) == s;
    assert s + [] == s && s + w + l + [] == s + w + l;
  }

  /** The legacy message for the signature of input `k`: the transaction without marker and witnesses, with the script of
      the output this input spends and no other script, and the hash type. */
  lemma LegacyLayout(tx: Tx, k: nat, hashType: nat, segwit: bool)
    ensures Raw(tx, Some(k), hashType, segwit).Ok? <==> NumbersFit(tx) && hashType < 4294967296
    ensures Raw(tx, Some(k), hashType, segwit).Ok? ==>
              Raw(tx, Some(k), hashType, segwit).value
              == Reverse(tx.version)
                 + SizeBytes(|tx.inputs|) + AllInputs(tx.inputs, SignedScript(k))
                 + SizeBytes(|tx.outputs|) + AllOutputs(tx.outputs)
                 + Little(tx.locktime, 4) + Little(hashType, 4)
  {
    hide Written, LittleEndian, Little, IntToVarbyteint, SizeBytes, AllInputs, AllOutputs, AllWitnesses, Reverse;
    SizeIs(|tx.inputs|);
    SizeIs(|tx.outputs|);
    SignedInputsAre(tx.inputs, k);
    OutputsAre(tx.outputs);
    LittleEndianIs(tx.locktime, 4);
    LittleEndianIs(hashType, 4);
    assert Reverse(tx.version) + [] == Reverse(tx.version);
    Regrouped(Reverse(tx.version), SizeBytes(|tx.inputs|), AllInputs(tx.inputs, SignedScript(k)), SizeBytes(|tx.outputs|),
              AllOutputs(tx.outputs), [], Little(tx.locktime, 4), Little(hashType, 4));
  }
}
