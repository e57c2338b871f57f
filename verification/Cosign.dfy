/** Signing by many: `Transaction.sign` and `Input.verify`.
  *
  * Cosigners sign one after the other and in any order. Every call places its signatures by the
  * position of the key, merges the ones already there and keeps the slots that are filled. The
  * specification is a set, the public keys that have signed so far.
  *
  * `make(m, p)` stands for the signature of message `m` by the private key of `p`.
  */
module Cosign {
  import opened Multisig
  import opened Wrappers

  datatype Key<P> = Key(pub: P, isPrivate: bool)

  /** A signature, with its public key unless it was read from a script. */
  datatype Sig<P, X> = Sig(pub: Option<P>, body: X)

  function Bodies<P, X>(sigs: seq<Sig<P, X>>): (r: seq<X>)
    ensures |r| == |sigs| && forall i :: 0 <= i < |sigs| ==> r[i] == sigs[i].body
  {
    seq(|sigs|, i requires 0 <= i < |sigs| => sigs[i].body)
  }

  // ---------------------------------------------------------------- one input, on values

  function PubKeys<P>(keys: seq<Key<P>>): (r: seq<P>)
    ensures |r| == |keys| && forall i :: 0 <= i < |keys| ==> r[i] == keys[i].pub
  {
    seq(|keys|, i requires 0 <= i < |keys| => keys[i].pub)
  }

  /** `pub_key_list.index(p)`. */
  function IndexOf<P(==)>(pubs: seq<P>, p: P): (i: nat)
    requires p in pubs
    ensures i < |pubs| && pubs[i] == p
  {
    if pubs[0] == p then 0 else 1 + IndexOf(pubs[1..], p)
  }

  predicate HasKey<P(==)>(keys: seq<Key<P>>, p: P) {
    exists i :: 0 <= i < |keys| && keys[i].pub == p
  }

  predicate HasSigned<P(==), X>(sigs: seq<Sig<P, X>>, p: P) {
    exists i :: 0 <= i < |sigs| && sigs[i].pub == Some(p)
  }

  /** The keys to sign with: the ones given, then the private keys of the input. */
  function SigningKeys<P(==)>(given: seq<Key<P>>, keys: seq<Key<P>>): seq<Key<P>>
    decreases |keys|
  {
    if keys == [] then given
    else if keys[0].isPrivate && !HasKey(given, keys[0].pub) then SigningKeys(given + [keys[0]], keys[1..])
    else SigningKeys(given, keys[1..])
  }

  type Slots<P, X> = seq<Option<Sig<P, X>>>

  function Free<P, X>(n: nat): Slots<P, X> {
    seq(n, i => None)
  }

  datatype Collected<P, X> = Collected(slots: Slots<P, X>, count: nat) | Failed

  function NewSig<M, P, X>(make: (M, P) -> X, m: M, p: P): Sig<P, X> {
    Sig(Some(p), make(m, p))
  }

  /** The loop over the keys. An unknown key fails the call or is passed over; the first key that has
      signed already ends the loop. */
  function Collect<M, P(==), X>(make: (M, P) -> X, m: M, pubs: seq<P>, known: seq<Sig<P, X>>, failOnUnknown: bool,
                                keys: seq<Key<P>>, slots: Slots<P, X>, count: nat): (r: Collected<P, X>)
    requires |slots| == |pubs|
    ensures r.Collected? ==> |r.slots| == |pubs|
    decreases |keys|
  {
    if keys == [] then Collected(slots, count)
    else
      var key := keys[0];
      if key.pub !in pubs then
        if failOnUnknown then Failed else Collect(make, m, pubs, known, failOnUnknown, keys[1..], slots, count)
      else if HasSigned(known, key.pub) then Collected(slots, count)
      else if !key.isPrivate then Failed
      else
        Collect(make, m, pubs, known, failOnUnknown, keys[1..],
                slots[IndexOf(pubs, key.pub) := Some(NewSig(make, m, key.pub))], count + 1)
  }

  /** Known signatures to the slots of their keys, until one without a key; with the number of those
      that found no slot. `index` raises for a key that is not in the list. */
  function PlaceKnown<P(==), X>(pubs: seq<P>, known: seq<Sig<P, X>>, slots: Slots<P, X>, left: int)
    : (r: Option<(Slots<P, X>, int)>)
    requires |slots| == |pubs|
    ensures r.Some? ==> |r.value.0| == |pubs|
  {
    if known == [] then Some((slots, left))
    else if known[0].pub == None then Some((slots, left))
    else if known[0].pub.value !in pubs then None
    else
      var pos := IndexOf(pubs, known[0].pub.value);
      if slots[pos] == None then PlaceKnown(pubs, known[1..], slots[pos := Some(known[0])], left - 1)
      else PlaceKnown(pubs, known[1..], slots, left)
  }

  function FirstFree<P, X>(slots: Slots<P, X>): (i: nat)
    ensures i <= |slots| && (i < |slots| ==> slots[i].None?)
  {
    if slots == [] || slots[0].None? then 0 else 1 + FirstFree(slots[1..])
  }

  /** The rest of them to the slots that are still free, one after the other. */
  function FillFree<P, X>(known: seq<Sig<P, X>>, slots: Slots<P, X>): (r: Slots<P, X>)
    ensures |r| == |slots|
    decreases |known|
  {
    if known == [] then slots
    else
      var i := FirstFree(slots);
      FillFree(known[1..], if i < |slots| then slots[i := Some(known[0])] else slots)
  }

  /** `[s for s in sig_domain if s != '']`. */
  function Compact<P, X>(slots: Slots<P, X>): seq<Sig<P, X>> {
    if slots == [] then []
    else if slots[0].None? then Compact(slots[1..])
    else [slots[0].value] + Compact(slots[1..])
  }

  /** What one round of `sign` does to an input. */
  datatype Outcome<P, X> = Signed(sigs: seq<Sig<P, X>>) | NothingSigned | Raised

  /** The keys of an input; without any it takes the ones it is signed with. */
  function InputKeys<P(==)>(given: seq<Key<P>>, keys: seq<Key<P>>): (r: seq<Key<P>>)
    ensures r == if keys == [] then given else keys
  {
    if keys == [] then SigningKeys(given, keys) else keys
  }

  function Merge<P(==), X>(pubs: seq<P>, known: seq<Sig<P, X>>, slots: Slots<P, X>): Outcome<P, X>
    requires |slots| == |pubs|
  {
    match PlaceKnown(pubs, known, slots, |known|)
    case None => Raised
    case Some((slots1, left)) => Signed(Compact(if left != 0 then FillFree(known, slots1) else slots1))
  }

  function SignInput<M, P(==), X>(make: (M, P) -> X, message: Option<M>, coinbase: bool, keys: seq<Key<P>>,
                                  known: seq<Sig<P, X>>, given: seq<Key<P>>, failOnUnknown: bool): Outcome<P, X>
  {
    if coinbase || message == None then Raised
    else
      var pubs := PubKeys(InputKeys(given, keys));
      match Collect(make, message.value, pubs, known, failOnUnknown, SigningKeys(given, keys), Free(|pubs|), 0)
      case Failed => Raised
      case Collected(slots, count) => if count == 0 then NothingSigned else Merge(pubs, known, slots)
  }

  // ---------------------------------------------------------------- the set of signers

  ghost predicate Distinct<P>(pubs: seq<P>) {
    forall i, j :: 0 <= i < j < |pubs| ==> pubs[i] != pubs[j]
  }

  /** The signatures of a set of signers, in the order of the keys. */
  function InOrder<M, P(==), X>(make: (M, P) -> X, m: M, pubs: seq<P>, signers: set<P>): seq<Sig<P, X>> {
    if pubs == [] then []
    else (if pubs[0] in signers then [NewSig(make, m, pubs[0])] else []) + InOrder(make, m, pubs[1..], signers)
  }

  /** The signers that a call adds; None when it raises. */
  function Added<P(==)>(pubs: seq<P>, signers: set<P>, failOnUnknown: bool, keys: seq<Key<P>>): (r: Option<set<P>>)
    ensures r.Some? ==> (forall p :: p in r.value ==> p in pubs) && r.value !! signers
  {
    if keys == [] then Some({})
    else
      var key := keys[0];
      if key.pub !in pubs then
        if failOnUnknown then None else Added(pubs, signers, failOnUnknown, keys[1..])
      else if key.pub in signers then Some({})
      else if !key.isPrivate then None
      else
        match Added(pubs, signers, failOnUnknown, keys[1..])
        case None => None
        case Some(more) => Some({key.pub} + more)
  }

  function SlotsOf<M, P(==), X>(make: (M, P) -> X, m: M, pubs: seq<P>, signers: set<P>): (r: Slots<P, X>)
    ensures |r| == |pubs|
    ensures forall i :: 0 <= i < |pubs| ==> r[i] == if pubs[i] in signers then Some(NewSig(make, m, pubs[i])) else None
  {
    seq(|pubs|, i requires 0 <= i < |pubs| => if pubs[i] in signers then Some(NewSig(make, m, pubs[i])) else None)
  }

  lemma IndexIs<P>(pubs: seq<P>, i: nat)
    requires Distinct(pubs) && i < |pubs|
    ensures IndexOf(pubs, pubs[i]) == i
  {
    var j := IndexOf(pubs, pubs[i]);
  }

  lemma FillSlot<M, P, X>(make: (M, P) -> X, m: M, pubs: seq<P>, signers: set<P>, p: P)
    requires Distinct(pubs) && p in pubs
    ensures SlotsOf(make, m, pubs, signers)[IndexOf(pubs, p) := Some(NewSig(make, m, p))]
            == SlotsOf(make, m, pubs, signers + {p})
  {
  }

  lemma {:induction false} SignedAre<M, P, X>(make: (M, P) -> X, m: M, pubs: seq<P>, signers: set<P>, p: P)
    ensures HasSigned(InOrder(make, m, pubs, signers), p) <==> p in pubs && p in signers
  {
    if pubs != [] {
      SignedAre(make, m, pubs[1..], signers, p);
      var head := if pubs[0] in signers then [NewSig(make, m, pubs[0])] else [];
      SignedIn(head, InOrder(make, m, pubs[1..], signers), p);
    }
  }

  lemma SignedIn<P, X>(s: seq<Sig<P, X>>, t: seq<Sig<P, X>>, p: P)
    ensures HasSigned(s + t, p) <==> HasSigned(s, p) || HasSigned(t, p)
  {
    if HasSigned(s, p) {
      var i :| 0 <= i < |s| && s[i].pub == Some(p);
      assert (s + t)[i].pub == Some(p);
    }
    if HasSigned(t, p) {
      var i :| 0 <= i < |t| && t[i].pub == Some(p);
      assert (s + t)[|s| + i].pub == Some(p);
    }
  }

  /** The loop over the keys fills the slots of the signers it adds. */
  lemma {:induction false} CollectAdds<M, P, X>(
    make: (M, P) -> X, m: M, pubs: seq<P>, signers: set<P>, failOnUnknown: bool, keys: seq<Key<P>>, sofar: set<P>,
    count: nat)
    requires Distinct(pubs)
    ensures var r := Collect(make, m, pubs, InOrder(make, m, pubs, signers), failOnUnknown, keys,
                             SlotsOf(make, m, pubs, sofar), count);
            match Added(pubs, signers, failOnUnknown, keys)
            case None => r == Failed
            case Some(more) => r.Collected? && r.slots == SlotsOf(make, m, pubs, sofar + more) && r.count >= count
                               && (r.count == count <==> more == {})
    decreases |keys|
  {
    hide HasSigned, SlotsOf, IndexOf, InOrder;
    if keys == [] {
      assert sofar + {} == sofar;
    } else {
      var key := keys[0];
      SignedAre(make, m, pubs, signers, key.pub);
      if key.pub !in pubs {
        CollectAdds(make, m, pubs, signers, failOnUnknown, keys[1..], sofar, count);
      } else if key.pub in signers {
        assert sofar + {} == sofar;
      } else if key.isPrivate {
        FillSlot(make, m, pubs, sofar, key.pub);
        CollectAdds(make, m, pubs, signers, failOnUnknown, keys[1..], sofar + {key.pub}, count + 1);
        var more := Added(pubs, signers, failOnUnknown, keys[1..]);
        if more.Some? {
          assert sofar + {key.pub} + more.value == sofar + ({key.pub} + more.value);
        }
      }
    }
  }

  lemma {:induction false} PlaceFrom<M, P, X>(
    make: (M, P) -> X, m: M, pubs: seq<P>, i: nat, signers: set<P>, placed: set<P>)
    requires Distinct(pubs) && i <= |pubs|
    requires forall j :: i <= j < |pubs| && pubs[j] in signers ==> pubs[j] !in placed
    ensures var known := InOrder(make, m, pubs[i..], signers);
            var r := PlaceKnown(pubs, known, SlotsOf(make, m, pubs, placed), |known|);
            && r.Some? && r.value.1 == 0
            && forall j :: 0 <= j < |pubs| ==>
                 r.value.0[j] == if pubs[j] in placed || (j >= i && pubs[j] in signers)
                                 then Some(NewSig(make, m, pubs[j])) else None
    decreases |pubs| - i
  {
    if i < |pubs| {
      var p := pubs[i];
      assert pubs[i..][1..] == pubs[i + 1..];
      if p in signers {
        PlaceOne(make, m, pubs, i, signers, placed);
        PlaceFrom(make, m, pubs, i + 1, signers, placed + {p});
      } else {
        var more := InOrder(make, m, pubs[i + 1..], signers);
        assert InOrder(make, m, pubs[i..], signers) == [] + more == more;
        PlaceFrom(make, m, pubs, i + 1, signers, placed);
      }
    }
  }

  lemma PlaceOne<M, P, X>(make: (M, P) -> X, m: M, pubs: seq<P>, i: nat, signers: set<P>, placed: set<P>)
    requires Distinct(pubs) && i < |pubs| && pubs[i] in signers && pubs[i] !in placed
    ensures var known := InOrder(make, m, pubs[i..], signers);
            var more := InOrder(make, m, pubs[i + 1..], signers);
            PlaceKnown(pubs, known, SlotsOf(make, m, pubs, placed), |known|)
            == PlaceKnown(pubs, more, SlotsOf(make, m, pubs, placed + {pubs[i]}), |more|)
  {
    hide SlotsOf, Distinct;
    var known, more := InOrder(make, m, pubs[i..], signers), InOrder(make, m, pubs[i + 1..], signers);
    assert pubs[i..][1..] == pubs[i + 1..];
    assert known == [NewSig(make, m, pubs[i])] + more;
    assert known[1..] == more;
    IndexIs(pubs, i);
    FillSlot(make, m, pubs, placed, pubs[i]);
    EmptySlot(make, m, pubs, placed, i);
  }

  lemma EmptySlot<M, P, X>(make: (M, P) -> X, m: M, pubs: seq<P>, placed: set<P>, i: nat)
    requires i < |pubs| && pubs[i] !in placed
    ensures SlotsOf(make, m, pubs, placed)[i] == None
  {
  }

  lemma {:induction false} CompactSlots<M, P, X>(make: (M, P) -> X, m: M, pubs: seq<P>, signers: set<P>)
    ensures Compact(SlotsOf(make, m, pubs, signers)) == InOrder(make, m, pubs, signers)
  {
    if pubs != [] {
      CompactSlots(make, m, pubs[1..], signers);
      assert SlotsOf(make, m, pubs, signers)[1..] == SlotsOf(make, m, pubs[1..], signers);
    }
  }

  lemma MergeAdds<M, P, X>(make: (M, P) -> X, m: M, pubs: seq<P>, signers: set<P>, added: set<P>)
    requires Distinct(pubs) && signers !! added
    ensures Merge(pubs, InOrder(make, m, pubs, signers), SlotsOf(make, m, pubs, added))
            == Signed(InOrder(make, m, pubs, signers + added))
  {
    PlaceFrom(make, m, pubs, 0, signers, added);
    assert pubs[0..] == pubs;
    var known := InOrder(make, m, pubs, signers);
    var r := PlaceKnown(pubs, known, SlotsOf(make, m, pubs, added), |known|);
    assert r.value.0 == SlotsOf(make, m, pubs, signers + added);
    CompactSlots(make, m, pubs, signers + added);
  }

  /** A call on an input whose signatures are those of a set of signers in key order. */
  lemma SignStep<M, P, X>(
    make: (M, P) -> X, m: M, keys: seq<Key<P>>, signers: set<P>, given: seq<Key<P>>, failOnUnknown: bool)
    requires Distinct(PubKeys(InputKeys(given, keys)))
    ensures var pubs := PubKeys(InputKeys(given, keys));
            SignInput(make, Some(m), false, keys, InOrder(make, m, pubs, signers), given, failOnUnknown)
            == match Added(pubs, signers, failOnUnknown, SigningKeys(given, keys))
               case None => Raised
               case Some(added) => if added == {} then NothingSigned else Signed(InOrder(make, m, pubs, signers + added))
  {
    hide Collect, InOrder, Merge, InputKeys, SigningKeys, Distinct;
    var pubs := PubKeys(InputKeys(given, keys));
    assert Free(|pubs|) == SlotsOf(make, m, pubs, {});
    CollectAdds(make, m, pubs, signers, failOnUnknown, SigningKeys(given, keys), {}, 0);
    var added := Added(pubs, signers, failOnUnknown, SigningKeys(given, keys));
    if added.Some? {
      assert {} + added.value == added.value;
      MergeAdds(make, m, pubs, signers, added.value);
    }
  }

  // ---------------------------------------------------------------- whole runs

  datatype Call<P> = Call(given: seq<Key<P>>, failOnUnknown: bool)

  /** The signatures after a run of calls; None as soon as one raises. */
  function Run<M, P(==), X>(make: (M, P) -> X, m: M, keys: seq<Key<P>>, sigs: seq<Sig<P, X>>, calls: seq<Call<P>>)
    : Option<seq<Sig<P, X>>>
    decreases |calls|
  {
    if calls == [] then Some(sigs)
    else
      match SignInput(make, Some(m), false, keys, sigs, calls[0].given, calls[0].failOnUnknown)
      case Raised => None
      case NothingSigned => Run(make, m, keys, sigs, calls[1..])
      case Signed(more) => Run(make, m, keys, more, calls[1..])
  }

  /** The same run on sets of signers. */
  function Signers<P(==)>(keys: seq<Key<P>>, signers: set<P>, calls: seq<Call<P>>): Option<set<P>>
    decreases |calls|
  {
    if calls == [] then Some(signers)
    else
      match Added(PubKeys(keys), signers, calls[0].failOnUnknown, SigningKeys(calls[0].given, keys))
      case None => None
      case Some(added) => Signers(keys, signers + added, calls[1..])
  }

  /** Every run of calls, whatever keys they bring, keeps the signatures in strict key order with one
      for each signer: the list is a function of the set. */
  lemma {:induction false} RunKeepsOrder<M, P, X>(
    make: (M, P) -> X, m: M, keys: seq<Key<P>>, signers: set<P>, calls: seq<Call<P>>)
    requires keys != [] && Distinct(PubKeys(keys))
    ensures Run(make, m, keys, InOrder(make, m, PubKeys(keys), signers), calls)
            == match Signers(keys, signers, calls)
               case None => None
               case Some(all) => Some(InOrder(make, m, PubKeys(keys), all))
    decreases |calls|
  {
    hide SignInput, InOrder, SigningKeys, Distinct;
    if calls != [] {
      var call := calls[0];
      SignStep(make, m, keys, signers, call.given, call.failOnUnknown);
      var added := Added(PubKeys(keys), signers, call.failOnUnknown, SigningKeys(call.given, keys));
      if added.Some? {
        assert added.value == {} ==> signers + added.value == signers;
        RunKeepsOrder(make, m, keys, signers + added.value, calls[1..]);
      }
    }
  }

  /** A call with the one private key of `p`. */
  function One<P>(p: P): Call<P> {
    Call([Key(p, true)], true)
  }

  function OneByOne<P>(ps: seq<P>): (calls: seq<Call<P>>)
    ensures |calls| == |ps|
  {
    seq(|ps|, i requires 0 <= i < |ps| => One(ps[i]))
  }

  function SetOf<P>(ps: seq<P>): set<P> {
    if ps == [] then {} else {ps[0]} + SetOf(ps[1..])
  }

  predicate ArePublic<P>(keys: seq<Key<P>>) {
    forall i :: 0 <= i < |keys| ==> !keys[i].isPrivate
  }

  lemma {:induction false} NoPrivateKeys<P>(given: seq<Key<P>>, keys: seq<Key<P>>)
    requires ArePublic(keys)
    ensures SigningKeys(given, keys) == given
    decreases |keys|
  {
    if keys != [] {
      NoPrivateKeys(given, keys[1..]);
    }
  }

  lemma {:induction false} OneByOneSigns<P>(keys: seq<Key<P>>, signers: set<P>, ps: seq<P>)
    requires ArePublic(keys) && forall p :: p in ps ==> p in PubKeys(keys)
    ensures Signers(keys, signers, OneByOne(ps)) == Some(signers + SetOf(ps))
    decreases |ps|
  {
    hide PubKeys, SigningKeys;
    if ps == [] {
      assert signers + {} == signers;
    } else {
      NoPrivateKeys([Key(ps[0], true)], keys);
      OneAdds(PubKeys(keys), signers, ps[0]);
      assert OneByOne(ps)[1..] == OneByOne(ps[1..]);
      var added := if ps[0] in signers then {} else {ps[0]};
      OneByOneSigns(keys, signers + added, ps[1..]);
      assert signers + added + SetOf(ps[1..]) == signers + SetOf(ps);
    }
  }

  lemma OneAdds<P>(pubs: seq<P>, signers: set<P>, p: P)
    requires p in pubs
    ensures Added(pubs, signers, true, [Key(p, true)]) == Some(if p in signers then {} else {p})
  {
    assert [Key(p, true)][1..] == [];
    assert {p} + {} == {p};
  }

  /** Cosigners that sign one at a time in any order, some of them repeatedly, end with the signatures
      of the set of those who signed, in key order. */
  lemma CosigningDependsOnSet<M, P, X>(make: (M, P) -> X, m: M, keys: seq<Key<P>>, ps: seq<P>)
    requires keys != [] && Distinct(PubKeys(keys)) && ArePublic(keys)
    requires forall p :: p in ps ==> p in PubKeys(keys)
    ensures Run(make, m, keys, [], OneByOne(ps)) == Some(InOrder(make, m, PubKeys(keys), SetOf(ps)))
  {
    NobodySigned(make, m, PubKeys(keys));
    RunKeepsOrder(make, m, keys, {}, OneByOne(ps));
    OneByOneSigns(keys, {}, ps);
    assert {} + SetOf(ps) == SetOf(ps);
  }

  lemma {:induction false} NobodySigned<M, P, X>(make: (M, P) -> X, m: M, pubs: seq<P>)
    ensures InOrder<M, P, X>(make, m, pubs, {}) == []
  {
    if pubs != [] {
      NobodySigned(make, m, pubs[1..]);
    }
  }

  lemma {:induction false} InSet<P>(ps: seq<P>, p: P)
    ensures p in SetOf(ps) <==> p in ps
  {
    if ps != [] {
      InSet(ps[1..], p);
    }
  }

  // ---------------------------------------------------------------- the keys a call signs with

  /** A private key of the input that is not given and stands nowhere before with the same public key. */
  predicate IsOwnKey<P(==)>(given: seq<Key<P>>, keys: seq<Key<P>>, j: nat)
    requires j < |keys|
  {
    && keys[j].isPrivate
    && (forall i :: 0 <= i < |given| ==> given[i].pub != keys[j].pub)
    && (forall i :: 0 <= i < j ==> !(keys[i].isPrivate && keys[i].pub == keys[j].pub))
  }

  /** A call signs with the keys it is given and then with the private keys of the input whose public key is
      not given, in the order of the input and each public key once; `own` are their places there. */
  lemma {:induction false} SigningKeysAre<P>(given: seq<Key<P>>, keys: seq<Key<P>>) returns (own: seq<nat>)
    ensures forall i :: 0 <= i < |own| ==> own[i] < |keys|
    ensures forall i, j :: 0 <= i < j < |own| ==> own[i] < own[j]
    ensures forall j: nat :: j < |keys| ==> (j in own <==> IsOwnKey(given, keys, j))
    ensures |SigningKeys(given, keys)| == |given| + |own|
    ensures forall i :: 0 <= i < |given| ==> SigningKeys(given, keys)[i] == given[i]
    ensures forall i :: 0 <= i < |own| ==> SigningKeys(given, keys)[|given| + i] == keys[own[i]]
    decreases |keys|
  {
    if keys == [] {
      own := [];
    } else {
      var first := keys[0].isPrivate && !HasKey(given, keys[0].pub);
      var more := if first then given + [keys[0]] else given;
      var rest := SigningKeysAre(more, keys[1..]);
      own := (if first then [0] else []) + Shifted(rest);
      forall j: nat | j < |keys|
        ensures j in own <==> IsOwnKey(given, keys, j)
      {
        if j > 0 {
          OwnKeyLater(given, keys, j);
          assert j in own <==> j - 1 in rest by {
            InShifted(rest, j);
          }
        } else {
          assert 0 !in Shifted(rest);
        }
      }
    }
  }

  lemma InShifted(f: seq<nat>, j: nat)
    requires j > 0
    ensures j in Shifted(f) <==> j - 1 in f
  {
    if j - 1 in f {
      var i :| 0 <= i < |f| && f[i] == j - 1;
      assert Shifted(f)[i] == j;
    }
  }

  lemma OwnKeyLater<P>(given: seq<Key<P>>, keys: seq<Key<P>>, j: nat)
    requires 0 < j < |keys|
    ensures var first := keys[0].isPrivate && !HasKey(given, keys[0].pub);
            IsOwnKey(given, keys, j) <==> IsOwnKey(if first then given + [keys[0]] else given, keys[1..], j - 1)
  {
    var first := keys[0].isPrivate && !HasKey(given, keys[0].pub);
    var more := if first then given + [keys[0]] else given;
    assert forall i :: 0 < i < j ==> keys[i] == keys[1..][i - 1];
    if IsOwnKey(more, keys[1..], j - 1) {
      forall i | 0 <= i < |given| ensures given[i].pub != keys[j].pub {
        assert more[i] == given[i];
      }
      assert first ==> more[|given|] == keys[0];
    }
  }

  // ---------------------------------------------------------------- the signers a call adds

  /** The loop over the keys comes to key `i`: none up to it has signed already. */
  predicate IsReached<P(==)>(pubs: seq<P>, signers: set<P>, keys: seq<Key<P>>, i: int) {
    0 <= i < |keys| && forall j :: 0 <= j <= i ==> !(keys[j].pub in pubs && keys[j].pub in signers)
  }

  /** A call raises exactly when it comes to a key that is not of the input, unless such keys are passed over, or
      to one of the input that is not private. Otherwise it adds those of the input that it comes to. */
  lemma {:induction false} AddedIs<P>(pubs: seq<P>, signers: set<P>, failOnUnknown: bool, keys: seq<Key<P>>)
    ensures Added(pubs, signers, failOnUnknown, keys) == None
            <==> exists i :: IsReached(pubs, signers, keys, i)
                             && (if keys[i].pub in pubs then !keys[i].isPrivate else failOnUnknown)
    ensures Added(pubs, signers, failOnUnknown, keys).Some? ==>
              forall p :: p in Added(pubs, signers, failOnUnknown, keys).value
                          <==> p in pubs && exists i :: IsReached(pubs, signers, keys, i) && keys[i].pub == p
    decreases |keys|
  {
    if keys != [] {
      AddedIs(pubs, signers, failOnUnknown, keys[1..]);
      ReachedLater(pubs, signers, keys);
    }
  }

  lemma ReachedLater<P>(pubs: seq<P>, signers: set<P>, keys: seq<Key<P>>)
    requires keys != []
    ensures var stops := keys[0].pub in pubs && keys[0].pub in signers;
            && (IsReached(pubs, signers, keys, 0) <==> !stops)
            && forall i :: i > 0 ==>
                 (IsReached(pubs, signers, keys, i) <==> !stops && IsReached(pubs, signers, keys[1..], i - 1))
  {
    var stops := keys[0].pub in pubs && keys[0].pub in signers;
    forall i | 0 < i < |keys|
      ensures IsReached(pubs, signers, keys, i) <==> !stops && IsReached(pubs, signers, keys[1..], i - 1)
    {
      assert forall j :: 0 < j <= i ==> keys[j] == keys[1..][j - 1];
      if IsReached(pubs, signers, keys[1..], i - 1) {
        forall j | 0 < j <= i
          ensures !(keys[j].pub in pubs && keys[j].pub in signers)
        {
          assert keys[1..][j - 1] == keys[j];
        }
      }
    }
  }

  // ---------------------------------------------------------------- when a call with many keys signs for all

  /** The public keys of the input that a list of keys can sign for. */
  function KnownOf<P(==)>(pubs: seq<P>, keys: seq<Key<P>>): set<P> {
    if keys == [] then {}
    else if keys[0].pub in pubs then {keys[0].pub} + KnownOf(pubs, keys[1..])
    else KnownOf(pubs, keys[1..])
  }

  /** A key that has signed already stands before one that has not and that does not stand earlier
      either. */
  ghost predicate Skips<P>(pubs: seq<P>, signers: set<P>, keys: seq<Key<P>>, done: set<P>) {
    exists i, j :: SkipsAt(pubs, signers, keys, done, i, j)
  }

  ghost predicate SkipsAt<P>(pubs: seq<P>, signers: set<P>, keys: seq<Key<P>>, done: set<P>, i: int, j: int) {
    && 0 <= i < j < |keys|
    && keys[i].pub in pubs && keys[i].pub in signers
    && keys[j].pub in pubs && keys[j].pub !in signers + done
    && forall k :: 0 <= k < i ==> keys[k].pub != keys[j].pub
  }

  lemma {:induction false} KnownMember<P>(pubs: seq<P>, keys: seq<Key<P>>, p: P)
    ensures p in KnownOf(pubs, keys) <==> p in pubs && HasKey(keys, p)
  {
    if keys != [] {
      KnownMember(pubs, keys[1..], p);
      if HasKey(keys[1..], p) {
        var i :| 0 <= i < |keys[1..]| && keys[1..][i].pub == p;
        assert keys[i + 1].pub == p;
      }
      if HasKey(keys, p) && keys[0].pub != p {
        var i :| 0 <= i < |keys| && keys[i].pub == p;
        assert keys[1..][i - 1].pub == p;
      }
    }
  }

  /** Leaving out a first key that is not signed by anyone yet, or not known, loses no such pair. */
  lemma SkipsLater<P>(pubs: seq<P>, signers: set<P>, keys: seq<Key<P>>, done: set<P>)
    requires keys != [] && !(keys[0].pub in pubs && keys[0].pub in signers)
    ensures Skips(pubs, signers, keys, done)
            <==> Skips(pubs, signers, keys[1..], if keys[0].pub in pubs then done + {keys[0].pub} else done)
  {
    var more := if keys[0].pub in pubs then done + {keys[0].pub} else done;
    if Skips(pubs, signers, keys, done) {
      var i, j :| SkipsAt(pubs, signers, keys, done, i, j);
      assert SkipsAt(pubs, signers, keys[1..], more, i - 1, j - 1);
    }
    if Skips(pubs, signers, keys[1..], more) {
      var i, j :| SkipsAt(pubs, signers, keys[1..], more, i, j);
      assert SkipsAt(pubs, signers, keys, done, i + 1, j + 1);
    }
  }

  /** Behind a key that has signed, nothing is signed any more. */
  lemma SkipsNow<P>(pubs: seq<P>, signers: set<P>, keys: seq<Key<P>>, done: set<P>)
    requires keys != [] && keys[0].pub in pubs && keys[0].pub in signers
    ensures Skips(pubs, signers, keys, done) <==> !(KnownOf(pubs, keys) <= signers + done)
  {
    if Skips(pubs, signers, keys, done) {
      var i, j :| SkipsAt(pubs, signers, keys, done, i, j);
      KnownMember(pubs, keys, keys[j].pub);
    }
    if !(KnownOf(pubs, keys) <= signers + done) {
      var p :| p in KnownOf(pubs, keys) && p !in signers + done;
      KnownMember(pubs, keys, p);
      var j :| 0 <= j < |keys| && keys[j].pub == p;
      assert SkipsAt(pubs, signers, keys, done, 0, j);
    }
  }

  lemma {:induction false} AddedCovers<P>(pubs: seq<P>, signers: set<P>, keys: seq<Key<P>>, done: set<P>)
    requires forall i :: 0 <= i < |keys| ==> keys[i].isPrivate
    ensures Added(pubs, signers, false, keys).Some?
    ensures KnownOf(pubs, keys) <= signers + Added(pubs, signers, false, keys).value + done
            <==> !Skips(pubs, signers, keys, done)
    decreases |keys|
  {
    if keys != [] {
      var p := keys[0].pub;
      if p !in pubs {
        SkipsLater(pubs, signers, keys, done);
        AddedCovers(pubs, signers, keys[1..], done);
      } else if p in signers {
        SkipsNow(pubs, signers, keys, done);
      } else {
        SkipsLater(pubs, signers, keys, done);
        AddedCovers(pubs, signers, keys[1..], done + {p});
      }
    }
  }

  lemma OnlyPrivate<P>(given: seq<Key<P>>, keys: seq<Key<P>>)
    requires forall i :: 0 <= i < |given| ==> given[i].isPrivate
    ensures forall i :: 0 <= i < |SigningKeys(given, keys)| ==> SigningKeys(given, keys)[i].isPrivate
  {
    var own := SigningKeysAre(given, keys);
    hide SigningKeys;
    forall i | 0 <= i < |SigningKeys(given, keys)|
      ensures SigningKeys(given, keys)[i].isPrivate
    {
      if i >= |given| {
        assert own[i - |given|] in own;
      }
    }
  }

  /** A call with several private keys, given or of the input, leaves every one of them that the input knows signed
      exactly when none that has not signed stands only behind one that has: the loop stops there. */
  lemma SignsAllIff<M, P, X>(make: (M, P) -> X, m: M, keys: seq<Key<P>>, signers: set<P>, given: seq<Key<P>>)
    requires keys != [] && Distinct(PubKeys(keys))
    requires forall i :: 0 <= i < |given| ==> given[i].isPrivate
    ensures var all := Signers(keys, signers, [Call(given, false)]);
            var with := SigningKeys(given, keys);
            && all.Some?
            && Run(make, m, keys, InOrder(make, m, PubKeys(keys), signers), [Call(given, false)])
               == Some(InOrder(make, m, PubKeys(keys), all.value))
            && (KnownOf(PubKeys(keys), with) <= all.value <==> !Skips(PubKeys(keys), signers, with, {}))
  {
    hide InOrder, Run, Skips, KnownOf, Distinct, PubKeys, SigningKeys;
    RunKeepsOrder(make, m, keys, signers, [Call(given, false)]);
    OnlyPrivate(given, keys);
    AddedCovers(PubKeys(keys), signers, SigningKeys(given, keys), {});
    assert [Call(given, false)][1..] == [];
  }

  /** The public keys of the private keys of an input. */
  function OwnPubs<P>(keys: seq<Key<P>>): set<P> {
    set i | 0 <= i < |keys| && keys[i].isPrivate :: keys[i].pub
  }

  /** On an input that no one has signed, a call without keys signs with exactly the private keys of the input, or
      signs nothing when there are none. */
  lemma SignsWithOwnKeys<M, P, X>(make: (M, P) -> X, m: M, keys: seq<Key<P>>, failOnUnknown: bool)
    requires Distinct(PubKeys(keys))
    ensures SignInput(make, Some(m), false, keys, [], [], failOnUnknown)
            == if OwnPubs(keys) == {} then NothingSigned
               else Signed(InOrder(make, m, PubKeys(keys), OwnPubs(keys)))
  {
    hide SignInput, InOrder, Distinct;
    var pubs := PubKeys(keys);
    NobodySigned(make, m, pubs);
    SignStep(make, m, keys, {}, [], failOnUnknown);
    OwnKeysAdd(keys, failOnUnknown);
    assert {} + OwnPubs(keys) == OwnPubs(keys);
  }

  lemma OwnKeysAdd<P>(keys: seq<Key<P>>, failOnUnknown: bool)
    ensures Added(PubKeys(keys), {}, failOnUnknown, SigningKeys([], keys)) == Some(OwnPubs(keys))
  {
    var own := SigningKeysAre([], keys);
    var with := SigningKeys([], keys);
    AddedIs(PubKeys(keys), {}, failOnUnknown, with);
    hide SigningKeys, Added;
    forall i | 0 <= i < |with|
      ensures with[i].isPrivate && with[i].pub in PubKeys(keys) && with[i].pub in OwnPubs(keys)
      ensures IsReached(PubKeys(keys), {}, with, i)
    {
      assert own[i] in own && with[i] == keys[own[i]];
      assert PubKeys(keys)[own[i]] == with[i].pub;
    }
    var added := Added(PubKeys(keys), {}, failOnUnknown, with);
    assert added.Some?;
    forall p | p in added.value
      ensures p in OwnPubs(keys)
    {
      var i :| IsReached(PubKeys(keys), {}, with, i) && with[i].pub == p;
    }
    forall p | p in OwnPubs(keys)
      ensures p in added.value
    {
      var j :| 0 <= j < |keys| && keys[j].isPrivate && keys[j].pub == p;
      var first := FirstOwn(keys, j);
      assert first in own;
      var i :| 0 <= i < |own| && own[i] == first;
      assert with[i] == keys[first] && PubKeys(keys)[first] == p;
      assert IsReached(PubKeys(keys), {}, with, i);
    }
    assert added.value == OwnPubs(keys);
  }

  /** The first private key with the same public key. */
  lemma {:induction false} FirstOwn<P>(keys: seq<Key<P>>, j: nat) returns (first: nat)
    requires j < |keys| && keys[j].isPrivate
    ensures first <= j && IsOwnKey([], keys, first) && keys[first].pub == keys[j].pub
    decreases j
  {
    if i :| 0 <= i < j && keys[i].isPrivate && keys[i].pub == keys[j].pub {
      first := FirstOwn(keys, i);
    } else {
      first := j;
    }
  }

  // ---------------------------------------------------------------- verifying

  /** A signature is valid under its own key only. */
  ghost predicate OwnKeyOnly<M, P, X>(make: (M, P) -> X, m: M, w: (X, P) -> bool, pubs: seq<P>) {
    forall p, q :: p in pubs && q in pubs ==> IsOwn(make, m, w, p, q)
  }

  /** The signature of `p` verifies under `q` only if that is the same key. */
  predicate IsOwn<M, P(==), X>(make: (M, P) -> X, m: M, w: (X, P) -> bool, p: P, q: P) {
    w(make(m, p), q) <==> p == q
  }

  lemma OwnKeyOfRest<M, P, X>(make: (M, P) -> X, m: M, w: (X, P) -> bool, pubs: seq<P>)
    requires pubs != [] && OwnKeyOnly(make, m, w, pubs)
    ensures OwnKeyOnly(make, m, w, pubs[1..])
  {
    hide IsOwn;
    assert forall p :: p in pubs[1..] ==> p in pubs;
  }

  lemma {:induction false} InOrderMembers<M, P, X>(make: (M, P) -> X, m: M, pubs: seq<P>, signers: set<P>, s: Sig<P, X>)
    requires s in InOrder(make, m, pubs, signers)
    ensures exists p :: p in pubs && p in signers && s == NewSig(make, m, p)
  {
    if pubs != [] && !(pubs[0] in signers && s == NewSig(make, m, pubs[0])) {
      InOrderMembers(make, m, pubs[1..], signers, s);
    }
  }

  lemma {:induction false} InOrderLength<M, P, X>(make: (M, P) -> X, m: M, pubs: seq<P>, signers: set<P>)
    requires Distinct(pubs) && forall p :: p in signers ==> p in pubs
    ensures |InOrder(make, m, pubs, signers)| == |signers|
  {
    if pubs == [] {
      assert signers == {};
    } else {
      InOrderLength(make, m, pubs[1..], signers - {pubs[0]});
      SameInOrder(make, m, pubs[1..], signers, pubs[0]);
      assert pubs[0] !in signers ==> signers - {pubs[0]} == signers;
    }
  }

  lemma {:induction false} SameInOrder<M, P, X>(make: (M, P) -> X, m: M, pubs: seq<P>, signers: set<P>, p: P)
    requires p !in pubs
    ensures InOrder(make, m, pubs, signers - {p}) == InOrder(make, m, pubs, signers)
  {
    if pubs != [] {
      SameInOrder(make, m, pubs[1..], signers, p);
    }
  }

  function Shifted(f: seq<nat>): (r: seq<nat>)
    ensures |r| == |f| && forall i :: 0 <= i < |f| ==> r[i] == f[i] + 1
  {
    seq(|f|, i requires 0 <= i < |f| => f[i] + 1)
  }

  lemma EmbedsBehind<S, K>(v: (S, K) -> bool, sigs: seq<S>, keys: seq<K>, f: seq<nat>)
    requires keys != [] && Embeds(v, sigs, keys[1..], f)
    ensures Embeds(v, sigs, keys, Shifted(f))
  {
  }

  lemma EmbedsFirst<S, K>(v: (S, K) -> bool, s: S, sigs: seq<S>, keys: seq<K>, f: seq<nat>)
    requires keys != [] && Embeds(v, sigs, keys[1..], f) && v(s, keys[0])
    ensures Embeds(v, [s] + sigs, keys, [0] + Shifted(f))
  {
    var g := [0] + Shifted(f);
    forall i | 0 <= i < |g|
      ensures g[i] < |keys| && v(([s] + sigs)[i], keys[g[i]])
    {
      if i > 0 {
        assert v(sigs[i - 1], keys[1..][f[i - 1]]);
      }
    }
  }

  /** Each signature goes to its own key. */
  lemma {:induction false} InOrderEmbeds<M, P, X>(
    make: (M, P) -> X, m: M, w: (X, P) -> bool, pubs: seq<P>, signers: set<P>)
    returns (f: seq<nat>)
    requires OwnKeyOnly(make, m, w, pubs)
    ensures Embeds(w, Bodies(InOrder(make, m, pubs, signers)), pubs, f)
  {
    if pubs == [] {
      f := [];
    } else {
      OwnKeyOfRest(make, m, w, pubs);
      assert IsOwn(make, m, w, pubs[0], pubs[0]);
      hide OwnKeyOnly, Embeds;
      var rest := Bodies(InOrder(make, m, pubs[1..], signers));
      var g := InOrderEmbeds(make, m, w, pubs[1..], signers);
      if pubs[0] in signers {
        EmbedsFirst(w, make(m, pubs[0]), rest, pubs, g);
        assert Bodies(InOrder(make, m, pubs, signers)) == [make(m, pubs[0])] + rest;
        return [0] + Shifted(g);
      }
      EmbedsBehind(w, rest, pubs, g);
      assert Bodies(InOrder(make, m, pubs, signers)) == rest;
      return Shifted(g);
    }
  }

  lemma OwnBodiesOneKey<M, P, X>(make: (M, P) -> X, m: M, w: (X, P) -> bool, pubs: seq<P>, bodies: seq<X>)
    requires Distinct(pubs) && OwnKeyOnly(make, m, w, pubs)
    requires forall x :: x in bodies ==> exists p :: p in pubs && x == make(m, p)
    ensures OneKeyEach(w, bodies, pubs)
  {
    forall x, i, j | x in bodies && 0 <= i < j < |pubs|
      ensures !(w(x, pubs[i]) && w(x, pubs[j]))
    {
      var p :| p in pubs && x == make(m, p);
      assert pubs[i] in pubs && pubs[j] in pubs;
      assert IsOwn(make, m, w, p, pubs[i]) && IsOwn(make, m, w, p, pubs[j]);
    }
  }

  lemma InOrderOneKey<M, P, X>(make: (M, P) -> X, m: M, w: (X, P) -> bool, pubs: seq<P>, signers: set<P>)
    requires Distinct(pubs) && OwnKeyOnly(make, m, w, pubs)
    ensures OneKeyEach(w, Bodies(InOrder(make, m, pubs, signers)), pubs)
  {
    hide OneKeyEach, Distinct, OwnKeyOnly;
    var sigs := InOrder(make, m, pubs, signers);
    forall x | x in Bodies(sigs)
      ensures exists p :: p in pubs && x == make(m, p)
    {
      var i :| 0 <= i < |sigs| && sigs[i].body == x;
      InOrderMembers(make, m, pubs, signers, sigs[i]);
    }
    OwnBodiesOneKey(make, m, w, pubs, Bodies(sigs));
  }

  /** The input verifies exactly when at least `required` cosigners, and at least one, have signed. */
  lemma VerifiesIffEnough<M, P, X>(
    make: (M, P) -> X, m: M, w: (X, P) -> bool, pubs: seq<P>, signers: set<P>, required: nat)
    requires Distinct(pubs) && OwnKeyOnly(make, m, w, pubs) && forall p :: p in signers ==> p in pubs
    ensures InputVerifies(w, Bodies(InOrder(make, m, pubs, signers)), pubs, required)
            <==> |signers| >= required && signers != {}
  {
    var sigs := Bodies(InOrder(make, m, pubs, signers));
    InOrderLength(make, m, pubs, signers);
    InOrderOneKey(make, m, w, pubs, signers);
    InputVerifiesIff(w, sigs, pubs, required);
    if required <= |sigs| {
      var f := InOrderEmbeds(make, m, w, pubs, signers);
      assert Embeds(w, sigs[..required], pubs, f[..required]);
    }
  }

  /** The whole protocol: after cosigners have signed one at a time, in any order and any number of times,
      the input verifies exactly when enough different ones have. */
  lemma CosignedVerifiesIff<M, P, X>(
    make: (M, P) -> X, m: M, w: (X, P) -> bool, keys: seq<Key<P>>, ps: seq<P>, required: nat)
    requires keys != [] && Distinct(PubKeys(keys)) && ArePublic(keys) && OwnKeyOnly(make, m, w, PubKeys(keys))
    requires forall p :: p in ps ==> p in PubKeys(keys)
    ensures var r := Run(make, m, keys, [], OneByOne(ps));
            r.Some? && (InputVerifies(w, Bodies(r.value), PubKeys(keys), required) <==> |SetOf(ps)| >= required && ps != [])
  {
    hide InputVerifies, Run, InOrder, Distinct, OwnKeyOnly;
    CosigningDependsOnSet(make, m, keys, ps);
    forall p | p in SetOf(ps)
      ensures p in PubKeys(keys)
    {
      InSet(ps, p);
    }
    VerifiesIffEnough(make, m, w, PubKeys(keys), SetOf(ps), required);
  }

  /** The signatures when the loop of `verify` ends, from a given state on: each one it tries carries the key it
      was last tried under. */
  function LabelFrom<P, X>(w: (X, P) -> bool, sigs: seq<Sig<P, X>>, pubs: seq<P>, required: nat,
                           sigN: nat, keyN: nat, verified: nat): (r: seq<Sig<P, X>>)
    requires sigN <= |sigs| && keyN <= |pubs|
    ensures Bodies(r) == Bodies(sigs) && |r| == |sigs|
    decreases |pubs| - keyN
  {
    if verified >= required || keyN >= |pubs| || sigN >= |sigs| then sigs
    else
      var tried := sigs[sigN := sigs[sigN].(pub := Some(pubs[keyN]))];
      assert Bodies(tried) == Bodies(sigs);
      if w(sigs[sigN].body, pubs[keyN]) then LabelFrom(w, tried, pubs, required, sigN + 1, keyN + 1, verified + 1)
      else if sigN > 0 && w(sigs[sigN - 1].body, pubs[keyN]) then
        LabelFrom(w, tried, pubs, required, sigN, keyN + 1, verified + 1)
      else LabelFrom(w, tried, pubs, required, sigN, keyN + 1, verified)
  }

  function Labels<P, X>(w: (X, P) -> bool, sigs: seq<Sig<P, X>>, pubs: seq<P>, required: nat): (r: seq<Sig<P, X>>)
    ensures Bodies(r) == Bodies(sigs) && |r| == |sigs|
  {
    LabelFrom(w, sigs, pubs, required, 0, 0, 0)
  }

  /** What one turn of the loop adds to its counters. */
  lemma ScanNext<P, X>(
    w: (X, P) -> bool, sigs: seq<Sig<P, X>>, pubs: seq<P>, required: nat, sigN: nat, keyN: nat, verified: nat)
    requires sigN < |sigs| && keyN < |pubs| && verified < required
    ensures var tried := sigs[sigN := sigs[sigN].(pub := Some(pubs[keyN]))];
            var hit := w(sigs[sigN].body, pubs[keyN]);
            var again := !hit && sigN > 0 && w(sigs[sigN - 1].body, pubs[keyN]);
            var s, v := if hit then sigN + 1 else sigN, if hit || again then verified + 1 else verified;
            && Bodies(tried) == Bodies(sigs)
            && VerifyFrom(w, Bodies(sigs), pubs, required, sigN, keyN, verified)
               == VerifyFrom(w, Bodies(sigs), pubs, required, s, keyN + 1, v)
            && LabelFrom(w, sigs, pubs, required, sigN, keyN, verified)
               == LabelFrom(w, tried, pubs, required, s, keyN + 1, v)
  {
  }

  lemma ScanEnds<P, X>(
    w: (X, P) -> bool, sigs: seq<Sig<P, X>>, pubs: seq<P>, required: nat, sigN: nat, keyN: nat, verified: nat)
    requires sigN <= |sigs| && keyN <= |pubs| && (verified >= required || keyN == |pubs| || sigN == |sigs|)
    ensures VerifyFrom(w, Bodies(sigs), pubs, required, sigN, keyN, verified) <==> verified >= required
    ensures LabelFrom(w, sigs, pubs, required, sigN, keyN, verified) == sigs
  {
  }

  // ---------------------------------------------------------------- the input as an object

  class Input<P(==), X(==)> {
    var keys: seq<Key<P>>
    var signatures: seq<Sig<P, X>>
    var valid: bool
    const sigsRequired: nat
    const coinbase: bool

    constructor (keys: seq<Key<P>>, signatures: seq<Sig<P, X>>, sigsRequired: nat, coinbase: bool)
      ensures this.keys == keys && this.signatures == signatures
      ensures this.sigsRequired == sigsRequired && this.coinbase == coinbase && !valid
    {
      valid := false;
      this.keys, this.signatures, this.sigsRequired, this.coinbase := keys, signatures, sigsRequired, coinbase;
    }

    /** `Input.verify`. Every signature it tries takes the key it is tried under; the one before it is
        tried again as a copy. */
    method Verify(w: (X, P) -> bool) returns (ok: bool)
      modifies this`signatures, this`valid
      ensures ok == (coinbase || InputVerifies(w, Bodies(old(signatures)), PubKeys(keys), sigsRequired))
      ensures signatures
              == if coinbase then old(signatures) else Labels(w, old(signatures), PubKeys(keys), sigsRequired)
      ensures valid == (old(valid) || ok)
    {
      hide VerifyFrom, LabelFrom, PubKeys, Bodies;
      if coinbase {
        valid := true;
        return true;
      }
      if signatures == [] {
        ScanEnds(w, signatures, PubKeys(keys), sigsRequired, 0, 0, 0);
        return false;
      }
      ghost var pubs, bodies := PubKeys(keys), Bodies(signatures);
      var sigN, keyN, sigsVerified := 0, 0, 0;
      while sigsVerified < sigsRequired
        invariant sigN <= |signatures| && keyN <= |keys| && Bodies(signatures) == bodies && valid == old(valid)
        invariant VerifyFrom(w, bodies, pubs, sigsRequired, 0, 0, 0)
               == VerifyFrom(w, bodies, pubs, sigsRequired, sigN, keyN, sigsVerified)
        invariant LabelFrom(w, old(signatures), pubs, sigsRequired, 0, 0, 0)
               == LabelFrom(w, signatures, pubs, sigsRequired, sigN, keyN, sigsVerified)
        decreases |keys| - keyN
      {
        if keyN >= |keys| || sigN >= |signatures| {
          ScanEnds(w, signatures, pubs, sigsRequired, sigN, keyN, sigsVerified);
          return false;
        }
        ScanNext(w, signatures, pubs, sigsRequired, sigN, keyN, sigsVerified);
        var key := keys[keyN].pub;
        signatures := signatures[sigN := signatures[sigN].(pub := Some(key))];
        if w(signatures[sigN].body, key) {
          sigsVerified, sigN := sigsVerified + 1, sigN + 1;
        } else if sigN > 0 && w(signatures[sigN - 1].body, key) {
          sigsVerified := sigsVerified + 1;
        }
        keyN := keyN + 1;
      }
      ScanEnds(w, signatures, pubs, sigsRequired, sigN, keyN, sigsVerified);
      valid := true;
      return true;
    }

    /** The keys to sign with, as the loop over the keys of the input appends them. */
    method CollectKeys(given: seq<Key<P>>) returns (tidKeys: seq<Key<P>>)
      ensures tidKeys == SigningKeys(given, keys)
    {
      tidKeys := given;
      for i := 0 to |keys|
        invariant SigningKeys(tidKeys, keys[i..]) == SigningKeys(given, keys)
      {
        assert keys[i..][1..] == keys[i + 1..];
        var k := keys[i];
        if k.isPrivate && !HasKey(tidKeys, k.pub) {
          tidKeys := tidKeys + [k];
        }
      }
    }

    /** One round of `Transaction.sign`. */
    method Sign<M>(make: (M, P) -> X, message: Option<M>, given: seq<Key<P>>, failOnUnknown: bool)
      returns (r: Outcome<P, X>)
      modifies this`keys, this`signatures
      ensures r == SignInput(make, message, coinbase, old(keys), old(signatures), given, failOnUnknown)
      ensures coinbase || message == None ==> r.Raised?
      ensures keys == InputKeys(given, old(keys))
      ensures signatures == if r.Signed? then r.sigs else old(signatures)
    {
      var tidKeys := CollectKeys(given);
      if keys == [] {
        keys := tidKeys;
      }
      if coinbase || message == None {
        return Raised;
      }
      var pubKeyList := PubKeys(keys);
      var sigDomain := new Option<Sig<P, X>>[|keys|](i => None);
      assert sigDomain[..] == Free(|keys|);
      var ok, nSigns := SignWithKeys(make, message.value, pubKeyList, tidKeys, failOnUnknown, sigDomain);
      if !ok {
        return Raised;
      }
      if nSigns == 0 {
        return NothingSigned;
      }
      ok := MergeKnown(pubKeyList, sigDomain);
      if !ok {
        return Raised;
      }
      signatures := Compact(sigDomain[..]);
      r := Signed(signatures);
    }

    method SignWithKeys<M>(make: (M, P) -> X, m: M, pubs: seq<P>, tidKeys: seq<Key<P>>, failOnUnknown: bool,
                           sigDomain: array<Option<Sig<P, X>>>)
      returns (ok: bool, nSigns: nat)
      requires sigDomain.Length == |pubs|
      modifies sigDomain
      ensures Collect(make, m, pubs, signatures, failOnUnknown, tidKeys, old(sigDomain[..]), 0)
              == if ok then Collected(sigDomain[..], nSigns) else Failed
    {
      nSigns := 0;
      for i := 0 to |tidKeys|
        invariant Collect(make, m, pubs, signatures, failOnUnknown, tidKeys, old(sigDomain[..]), 0)
               == Collect(make, m, pubs, signatures, failOnUnknown, tidKeys[i..], sigDomain[..], nSigns)
      {
        var key := tidKeys[i];
        assert tidKeys[i..][1..] == tidKeys[i + 1..];
        if key.pub !in pubs {
          if failOnUnknown {
            return false, nSigns;
          } else {
            continue;
          }
        }
        if HasSigned(signatures, key.pub) {
          return true, nSigns;
        }
        if !key.isPrivate {
          return false, nSigns;
        }
        var newsigPos := IndexOf(pubs, key.pub);
        ghost var before := sigDomain[..];
        sigDomain[newsigPos] := Some(NewSig(make, m, key.pub));
        assert sigDomain[..] == before[newsigPos := Some(NewSig(make, m, key.pub))];
        nSigns := nSigns + 1;
      }
      ok := true;
    }

    method MergeKnown(pubs: seq<P>, sigDomain: array<Option<Sig<P, X>>>) returns (ok: bool)
      requires sigDomain.Length == |pubs|
      modifies sigDomain
      ensures Merge(pubs, signatures, old(sigDomain[..])) == if ok then Signed(Compact(sigDomain[..])) else Raised
    {
      var nSigsToInsert := |signatures|;
      ok, nSigsToInsert := InsertByKey(pubs, sigDomain);
      if ok && nSigsToInsert != 0 {
        InsertFree(sigDomain);
      }
    }

    method InsertByKey(pubs: seq<P>, sigDomain: array<Option<Sig<P, X>>>) returns (ok: bool, nSigsToInsert: int)
      requires sigDomain.Length == |pubs|
      modifies sigDomain
      ensures PlaceKnown(pubs, signatures, old(sigDomain[..]), |signatures|)
              == if ok then Some((sigDomain[..], nSigsToInsert)) else None
    {
      nSigsToInsert := |signatures|;
      for i := 0 to |signatures|
        invariant PlaceKnown(pubs, signatures, old(sigDomain[..]), |signatures|)
               == PlaceKnown(pubs, signatures[i..], sigDomain[..], nSigsToInsert)
      {
        var sig := signatures[i];
        assert signatures[i..][1..] == signatures[i + 1..];
        if sig.pub == None {
          return true, nSigsToInsert;
        }
        if sig.pub.value !in pubs {
          return false, nSigsToInsert;
        }
        var newsigPos := IndexOf(pubs, sig.pub.value);
        if sigDomain[newsigPos] == None {
          ghost var before := sigDomain[..];
          sigDomain[newsigPos] := Some(sig);
          assert sigDomain[..] == before[newsigPos := Some(sig)];
          nSigsToInsert := nSigsToInsert - 1;
        }
      }
      ok := true;
    }

    method InsertFree(sigDomain: array<Option<Sig<P, X>>>)
      modifies sigDomain
      ensures sigDomain[..] == FillFree(signatures, old(sigDomain[..]))
    {
      for i := 0 to |signatures|
        invariant FillFree(signatures, old(sigDomain[..])) == FillFree(signatures[i..], sigDomain[..])
      {
        assert signatures[i..][1..] == signatures[i + 1..];
        var pos := FirstFree(sigDomain[..]);
        if pos < sigDomain.Length {
          ghost var before := sigDomain[..];
          sigDomain[pos] := Some(signatures[i]);
          assert sigDomain[..] == before[pos := Some(signatures[i])];
        }
      }
    }
  }

  // ---------------------------------------------------------------- all inputs of a transaction

  datatype InputState<P, X> = InputState(keys: seq<Key<P>>, sigs: seq<Sig<P, X>>, coinbase: bool)

  datatype AllSigned<P, X> = AllSigned(states: seq<InputState<P, X>>, raised: bool)

  function Round<M, P(==), X>(
    make: (M, P) -> X, message: Option<M>, s: InputState<P, X>, given: seq<Key<P>>, failOnUnknown: bool)
    : Outcome<P, X>
  {
    SignInput(make, message, s.coinbase, s.keys, s.sigs, given, failOnUnknown)
  }

  function AfterRound<P(==), X>(s: InputState<P, X>, r: Outcome<P, X>, given: seq<Key<P>>): InputState<P, X> {
    InputState(InputKeys(given, s.keys), if r.Signed? then r.sigs else s.sigs, s.coinbase)
  }

  /** `Transaction.sign` over the inputs from `i` to `hi`: it ends at the first one for which it signs
      nothing. */
  function SignRange<M, P(==), X>(make: (M, P) -> X, messages: seq<Option<M>>, states: seq<InputState<P, X>>,
                                  given: seq<Key<P>>, failOnUnknown: bool, i: nat, hi: nat): (r: AllSigned<P, X>)
    requires |messages| == |states| && hi <= |states|
    ensures |r.states| == |states|
    decreases hi - i
  {
    if i >= hi then AllSigned(states, false)
    else
      var r := Round(make, messages[i], states[i], given, failOnUnknown);
      var after := states[i := AfterRound(states[i], r, given)];
      if r.Signed? then SignRange(make, messages, after, given, failOnUnknown, i + 1, hi) else AllSigned(after, r.Raised?)
  }

  /** `sign` leaves the inputs from `i` on signed up to the first one for which it signs nothing or raises, and those
      behind it as they are. */
  lemma {:induction false} SignRangeStops<M, P, X>(
    make: (M, P) -> X, messages: seq<Option<M>>, states: seq<InputState<P, X>>, given: seq<Key<P>>, failOnUnknown: bool,
    i: nat, hi: nat) returns (stop: nat)
    requires |messages| == |states| && i <= hi <= |states|
    ensures i <= stop <= hi
    ensures forall j :: i <= j < stop ==> Round(make, messages[j], states[j], given, failOnUnknown).Signed?
    ensures stop < hi ==> !Round(make, messages[stop], states[stop], given, failOnUnknown).Signed?
    ensures var r := SignRange(make, messages, states, given, failOnUnknown, i, hi);
            && (r.raised <==> stop < hi && Round(make, messages[stop], states[stop], given, failOnUnknown).Raised?)
            && forall j :: 0 <= j < |states| ==>
                 r.states[j] == if i <= j <= stop && j < hi
                                then AfterRound(states[j], Round(make, messages[j], states[j], given, failOnUnknown), given)
                                else states[j]
    decreases hi - i
  {
    hide Round, AfterRound;
    if i < hi {
      var r := Round(make, messages[i], states[i], given, failOnUnknown);
      if r.Signed? {
        var after := states[i := AfterRound(states[i], r, given)];
        stop := SignRangeStops(make, messages, after, given, failOnUnknown, i + 1, hi);
      } else {
        stop := i;
      }
    } else {
      stop := i;
    }
  }

  /** Inputs as sets of signers, with their signatures in key order. */
  function StatesOf<M, P(==), X>(make: (M, P) -> X, messages: seq<M>, keys: seq<seq<Key<P>>>, signers: seq<set<P>>)
    : (r: seq<InputState<P, X>>)
    requires |messages| == |keys| == |signers|
    ensures |r| == |signers|
    ensures forall i :: 0 <= i < |signers| ==> r[i] == StateOf(make, messages[i], keys[i], signers[i])
  {
    seq(|signers|, i requires 0 <= i < |signers| => StateOf(make, messages[i], keys[i], signers[i]))
  }

  function StateOf<M, P(==), X>(make: (M, P) -> X, m: M, keys: seq<Key<P>>, signers: set<P>): InputState<P, X> {
    InputState(keys, InOrder(make, m, PubKeys(keys), signers), false)
  }

  function AllKnown<M>(messages: seq<M>): (r: seq<Option<M>>)
    ensures |r| == |messages| && forall i :: 0 <= i < |messages| ==> r[i] == Some(messages[i])
  {
    seq(|messages|, i requires 0 <= i < |messages| => Some(messages[i]))
  }

  /** The signers after a call with the key of `p`: up to the first input that `p` has signed. */
  function SignUntilSigned<P(==)>(signers: seq<set<P>>, p: P, i: nat): (r: seq<set<P>>)
    ensures |r| == |signers|
    decreases |signers| - i
  {
    if i >= |signers| || p in signers[i] then signers else SignUntilSigned(signers[i := signers[i] + {p}], p, i + 1)
  }

  /** Inputs that can be signed with the key of `p`: distinct public keys, one of them `p`. */
  ghost predicate IsCosignInput<P>(keys: seq<Key<P>>, p: P) {
    keys != [] && Distinct(PubKeys(keys)) && ArePublic(keys) && p in PubKeys(keys)
  }

  lemma RoundSigns<M, P, X>(make: (M, P) -> X, m: M, keys: seq<Key<P>>, signers: set<P>, p: P)
    requires IsCosignInput(keys, p)
    ensures var s := StateOf(make, m, keys, signers);
            var r := Round(make, Some(m), s, [Key(p, true)], true);
            && !r.Raised? && (r.Signed? <==> p !in signers)
            && AfterRound(s, r, [Key(p, true)]) == StateOf(make, m, keys, signers + {p})
  {
    NoPrivateKeys([Key(p, true)], keys);
    OneAdds(PubKeys(keys), signers, p);
    hide InOrder, Distinct;
    SignStep(make, m, keys, signers, [Key(p, true)], true);
    assert p in signers ==> signers + {p} == signers;
  }

  lemma {:induction false} SignRangeSigns<M, P, X>(
    make: (M, P) -> X, messages: seq<M>, keys: seq<seq<Key<P>>>, signers: seq<set<P>>, p: P, i: nat)
    requires |messages| == |keys| == |signers| && i <= |signers|
    requires forall j :: 0 <= j < |keys| ==> IsCosignInput(keys[j], p)
    ensures SignRange(make, AllKnown(messages), StatesOf(make, messages, keys, signers), [Key(p, true)], true, i, |signers|)
            == AllSigned(StatesOf(make, messages, keys, SignUntilSigned(signers, p, i)), false)
    decreases |signers| - i
  {
    hide Round, AfterRound, StateOf, IsCosignInput, StatesOf, AllKnown;
    if i < |signers| {
      RoundSigns(make, messages[i], keys[i], signers[i], p);
      var more := signers[i := signers[i] + {p}];
      assert StatesOf(make, messages, keys, more)
          == StatesOf(make, messages, keys, signers)[i := StateOf(make, messages[i], keys[i], signers[i] + {p})];
      if p in signers[i] {
        assert signers[i] + {p} == signers[i];
        assert more == signers;
      } else {
        SignRangeSigns(make, messages, keys, more, p, i + 1);
      }
    }
  }

  lemma {:induction false} UntilSigned<P>(signers: seq<set<P>>, p: P, i: nat, k: nat)
    requires k < |signers|
    ensures SignUntilSigned(signers, p, i)[k]
            == if k < i || exists j :: i <= j <= k && p in signers[j] then signers[k] else signers[k] + {p}
    decreases |signers| - i
  {
    if i < |signers| && p !in signers[i] {
      var more := signers[i := signers[i] + {p}];
      UntilSigned(more, p, i + 1, k);
      assert forall j :: i < j <= k ==> more[j] == signers[j];
      assert (exists j :: i <= j <= k && p in signers[j]) == (exists j :: i + 1 <= j <= k && p in more[j]);
    }
  }

  /** One call with one private key signs every input exactly when no input this key has signed stands
      before one it has not: the call ends at the first input for which it has nothing to do. */
  lemma SignsEveryInputIff<M, P, X>(
    make: (M, P) -> X, messages: seq<M>, keys: seq<seq<Key<P>>>, signers: seq<set<P>>, p: P)
    requires |messages| == |keys| == |signers|
    requires forall i :: 0 <= i < |keys| ==> IsCosignInput(keys[i], p)
    ensures var after := SignUntilSigned(signers, p, 0);
            && SignRange(make, AllKnown(messages), StatesOf(make, messages, keys, signers), [Key(p, true)], true,
                         0, |signers|)
               == AllSigned(StatesOf(make, messages, keys, after), false)
            && ((forall i :: 0 <= i < |after| ==> p in after[i])
                <==> forall j, i :: 0 <= j < i < |signers| && p in signers[j] ==> p in signers[i])
  {
    hide SignRange, StatesOf, SignUntilSigned, IsCosignInput;
    SignRangeSigns(make, messages, keys, signers, p, 0);
    var after := SignUntilSigned(signers, p, 0);
    forall i | 0 <= i < |signers|
      ensures p in after[i] <==> p in signers[i] || forall j :: 0 <= j <= i ==> p !in signers[j]
    {
      UntilSigned(signers, p, 0, i);
    }
  }

  class Transaction<P(==), X(==)> {
    const inputs: seq<Input<P, X>>

    constructor (inputs: seq<Input<P, X>>)
      ensures this.inputs == inputs
    {
      this.inputs := inputs;
    }

    ghost predicate Valid() {
      forall i, j :: 0 <= i < j < |inputs| ==> inputs[i] != inputs[j]
    }

    function States(): (r: seq<InputState<P, X>>)
      reads inputs
      ensures |r| == |inputs|
    {
      seq(|inputs|, i requires 0 <= i < |inputs| reads inputs =>
        InputState(inputs[i].keys, inputs[i].signatures, inputs[i].coinbase))
    }

    method SignAt<M>(make: (M, P) -> X, message: Option<M>, tid: nat, given: seq<Key<P>>, failOnUnknown: bool)
      returns (r: Outcome<P, X>)
      requires Valid() && tid < |inputs|
      modifies inputs[tid]
      ensures r == Round(make, message, old(States())[tid], given, failOnUnknown)
      ensures States() == old(States())[tid := AfterRound(old(States())[tid], r, given)]
    {
      hide SignInput, InputKeys;
      r := inputs[tid].Sign(make, message, given, failOnUnknown);
    }

    /** `Transaction.sign`, for all inputs or for one of them. */
    method Sign<M>(make: (M, P) -> X, messages: seq<Option<M>>, given: seq<Key<P>>, indexN: Option<nat>,
                   failOnUnknown: bool)
      returns (raised: bool)
      requires Valid() && |messages| == |inputs| && (indexN.Some? ==> indexN.value < |inputs|)
      modifies inputs
      ensures SignRange(make, messages, old(States()), given, failOnUnknown, if indexN.Some? then indexN.value else 0,
                        if indexN.Some? then indexN.value + 1 else |inputs|)
              == AllSigned(States(), raised)
    {
      hide Round, AfterRound, Transaction.States;
      var lo, hi := 0, |inputs|;
      if indexN.Some? {
        lo, hi := indexN.value, indexN.value + 1;
      }
      var tid := lo;
      while tid < hi
        invariant lo <= tid <= hi
        invariant SignRange(make, messages, old(States()), given, failOnUnknown, lo, hi)
               == SignRange(make, messages, States(), given, failOnUnknown, tid, hi)
      {
        var r := SignAt(make, messages[tid], tid, given, failOnUnknown);
        if !r.Signed? {
          return r.Raised?;
        }
        tid := tid + 1;
      }
      return false;
    }
  }
}
