/** Cosigning a transaction: every call signs the message of the transaction as it is then, with the
    unlocking scripts and witnesses of those who signed before. */
module CosignedTransaction {
  import opened Digits
  import opened CompactSize
  import opened RawTransaction
  import opened SegwitMessage
  import opened Multisig
  import opened Wrappers
  import Cosign

  type Message = Bytes

  type Maker<!P, !X> = (Message, P) -> X

  /** `verify(message, signature, key)`. */
  type Verifier<!P, !X> = (Message, X, P) -> bool

  /** What identifies an input's message: its number, hash type and kind. */
  datatype Place = Place(hash: Hash, k: nat, hashType: nat, legacy: bool)

  function MessageAt(place: Place, tx: Tx): Result<Message> {
    SegwitMessage.Message(place.hash, tx, place.k, place.hashType, place.legacy)
  }

  function Checked(m: Result<Message>): Option<Message> {
    if m.Ok? then Some(m.value) else None
  }

  /** One call each on the transaction in its state at the time, with one private key. */
  function SignInTurn<P(==), X>(make: Maker<P, X>, place: Place, keys: seq<Cosign.Key<P>>, sigs: seq<Cosign.Sig<P, X>>,
                                txs: seq<Tx>, ps: seq<P>): Option<seq<Cosign.Sig<P, X>>>
    requires |txs| == |ps|
    decreases |ps|
  {
    if ps == [] then Some(sigs)
    else
      match Cosign.SignInput(make, Checked(MessageAt(place, txs[0])), false, keys, sigs, [Cosign.Key(ps[0], true)], true)
      case Raised => None
      case NothingSigned => SignInTurn(make, place, keys, sigs, txs[1..], ps[1..])
      case Signed(more) => SignInTurn(make, place, keys, more, txs[1..], ps[1..])
  }

  function VerifierFor<P, X>(verify: Verifier<P, X>, m: Message): (X, P) -> bool {
    (x: X, p: P) => verify(m, x, p)
  }

  lemma {:induction false} SignInTurnIsRun<P, X>(make: Maker<P, X>, place: Place, base: Tx, keys: seq<Cosign.Key<P>>,
                                                 sigs: seq<Cosign.Sig<P, X>>, txs: seq<Tx>, ps: seq<P>)
    requires |txs| == |ps| && MessageAt(place, base).Ok?
    requires forall tx :: tx in txs ==> UnsignedTx(tx) == UnsignedTx(base)
    ensures SignInTurn(make, place, keys, sigs, txs, ps)
            == Cosign.Run(make, MessageAt(place, base).value, keys, sigs, Cosign.OneByOne(ps))
    decreases |ps|
  {
    hide SegwitMessage.Message, Cosign.SignInput, UnsignedTx;
    if ps != [] {
      MessageIgnoresSignatures(place.hash, txs[0], base, place.k, place.hashType, place.legacy);
      assert Cosign.OneByOne(ps)[1..] == Cosign.OneByOne(ps[1..]);
      var m := MessageAt(place, base).value;
      var r := Cosign.SignInput(make, Some(m), false, keys, sigs, [Cosign.Key(ps[0], true)], true);
      SignInTurnIsRun(make, place, base, keys, if r.Signed? then r.sigs else sigs, txs[1..], ps[1..]);
    }
  }

  /** Cosigners sign the transaction in any order, each one the message of the transaction in the state
      the others left it in; only unlocking scripts and witnesses change between. The list of
      signatures depends on the set of signers alone, and the finished transaction's own message verifies
      exactly when enough of them have signed. */
  lemma CosigningATransaction<P, X>(make: Maker<P, X>, verify: Verifier<P, X>, place: Place, base: Tx, final: Tx,
                                    keys: seq<Cosign.Key<P>>, txs: seq<Tx>, ps: seq<P>, required: nat)
    requires |txs| == |ps| && MessageAt(place, base).Ok?
    requires UnsignedTx(final) == UnsignedTx(base) && forall tx :: tx in txs ==> UnsignedTx(tx) == UnsignedTx(base)
    requires keys != [] && Cosign.Distinct(Cosign.PubKeys(keys)) && Cosign.ArePublic(keys)
    requires forall p :: p in ps ==> p in Cosign.PubKeys(keys)
    requires var m := MessageAt(place, base).value;
             Cosign.OwnKeyOnly(make, m, VerifierFor(verify, m), Cosign.PubKeys(keys))
    ensures MessageAt(place, final) == MessageAt(place, base)
            == SegwitMessage.Message(place.hash, base, place.k, place.hashType, place.legacy)
    ensures var m := MessageAt(place, final).value;
            var r := SignInTurn(make, place, keys, [], txs, ps);
            && r == Some(Cosign.InOrder(make, m, Cosign.PubKeys(keys), Cosign.SetOf(ps)))
            && (InputVerifies(VerifierFor(verify, m), Cosign.Bodies(r.value), Cosign.PubKeys(keys), required)
                <==> |Cosign.SetOf(ps)| >= required && ps != [])
  {
    hide SegwitMessage.Message, Cosign.Run, UnsignedTx, InputVerifies, Cosign.Distinct, Cosign.OwnKeyOnly, Cosign.InOrder;
    MessageIgnoresSignatures(place.hash, final, base, place.k, place.hashType, place.legacy);
    var m := MessageAt(place, base).value;
    SignInTurnIsRun(make, place, base, keys, [], txs, ps);
    Cosign.CosigningDependsOnSet(make, m, keys, ps);
    Cosign.CosignedVerifiesIff(make, m, VerifierFor(verify, m), keys, ps, required);
  }
}
