/** What `Input.verify` writes into the signatures it tries.
  *
  * `Signature.verify` stores the key it is called with, whether the signature verifies or not, and `sign` takes
  * the stored key for the signer's.
  */
module Labels {
  import opened Cosign
  import opened KnownSignatures
  import opened Multisig
  import opened Wrappers

  // ---------------------------------------------------------------- lists in key order

  /** Up to `required`, the signatures from `lo` on have become the ones given. */
  ghost predicate Becomes<S>(after: seq<S>, before: seq<S>, lo: nat, required: nat, given: seq<S>) {
    && |after| == |before| == lo + |given|
    && forall i :: 0 <= i < |before| ==> after[i] == if lo <= i < required then given[i - lo] else before[i]
  }

  lemma BecomesFirst<S>(after: seq<S>, before: seq<S>, lo: nat, required: nat, s: S, given: seq<S>)
    requires lo < |before| && lo < required && Becomes(after, before[lo := s], lo + 1, required, given)
    ensures Becomes(after, before, lo, required, [s] + given)
  {
  }

  lemma BecomesAnyway<S>(after: seq<S>, before: seq<S>, lo: nat, required: nat, s: S, given: seq<S>)
    requires lo < |before| && lo < required && Becomes(after, before[lo := s], lo, required, given)
    ensures Becomes(after, before, lo, required, given)
  {
  }

  lemma BecomesNothing<S>(before: seq<S>, lo: nat, required: nat, given: seq<S>)
    requires |before| == lo + |given| && (given == [] || required <= lo)
    ensures Becomes(before, before, lo, required, given)
  {
  }

  /** The signature in front of `sigN` is of a key in front of `keyN`. */
  ghost predicate Behind<M, P, X>(make: (M, P) -> X, m: M, pubs: seq<P>, sigs: seq<Sig<P, X>>, sigN: nat, keyN: nat)
    requires sigN <= |sigs| && keyN <= |pubs|
  {
    sigN > 0 ==> exists k :: 0 <= k < keyN && sigs[sigN - 1].body == make(m, pubs[k])
  }

  lemma BehindDiffers<M, P, X>(
    make: (M, P) -> X, m: M, w: (X, P) -> bool, pubs: seq<P>, sigs: seq<Sig<P, X>>, sigN: nat, keyN: nat,
    s: Sig<P, X>)
    requires Distinct(pubs) && OwnKeyOnly(make, m, w, pubs) && sigN < |sigs| && keyN < |pubs|
    requires Behind(make, m, pubs, sigs, sigN, keyN)
    ensures sigN > 0 ==> !w(sigs[sigN - 1].body, pubs[keyN])
    ensures Behind(make, m, pubs, sigs[sigN := s], sigN, keyN + 1)
  {
    hide OwnKeyOnly, Distinct;
    if sigN > 0 {
      var k :| 0 <= k < keyN && sigs[sigN - 1].body == make(m, pubs[k]);
      OwnVerifies(make, m, w, pubs, k, keyN);
    }
  }

  /** The loop on signatures in key order, from the key `keyN` on: those still to be tried get their own keys. */
  lemma {:induction false} LabelsInOrder<M, P, X>(make: (M, P) -> X, m: M, w: (X, P) -> bool, pubs: seq<P>,
                                                  signers: set<P>, sigs: seq<Sig<P, X>>, required: nat,
                                                  sigN: nat, keyN: nat)
    requires Distinct(pubs) && OwnKeyOnly(make, m, w, pubs)
    requires sigN <= |sigs| && keyN <= |pubs| && Behind(make, m, pubs, sigs, sigN, keyN)
    requires Bodies(sigs[sigN..]) == Bodies(InOrder(make, m, pubs[keyN..], signers))
    ensures Becomes(LabelFrom(w, sigs, pubs, required, sigN, keyN, sigN), sigs, sigN, required,
                    InOrder(make, m, pubs[keyN..], signers))
    decreases |pubs| - keyN
  {
    hide InOrder, OwnKeyOnly, Distinct, IsOwn, Becomes, Behind, LabelFrom, VerifyFrom;
    var given := InOrder(make, m, pubs[keyN..], signers);
    assert |given| == |Bodies(sigs[sigN..])| == |sigs| - sigN;
    InOrderFrom(make, m, pubs, signers, keyN);
    if keyN < |pubs| && sigN < required && sigN < |sigs| {
      var p, rest := pubs[keyN], InOrder(make, m, pubs[keyN + 1..], signers);
      var s := sigs[sigN].(pub := Some(p));
      var tried := sigs[sigN := s];
      assert sigs[sigN].body == Bodies(sigs[sigN..])[0];
      ScanNext(w, sigs, pubs, required, sigN, keyN, sigN);
      if p in signers {
        OwnVerifies(make, m, w, pubs, keyN, keyN);
        assert s == NewSig(make, m, p);
        assert Bodies(tried[sigN + 1..]) == Bodies(sigs[sigN..])[1..] == Bodies(rest);
        BehindNext(make, m, pubs, tried, sigN, keyN);
        LabelsInOrder(make, m, w, pubs, signers, tried, required, sigN + 1, keyN + 1);
        BecomesFirst(LabelFrom(w, sigs, pubs, required, sigN, keyN, sigN), sigs, sigN, required, s, rest);
      } else {
        var k := FirstSigner(make, m, pubs, signers, keyN + 1);
        OwnVerifies(make, m, w, pubs, k, keyN);
        BehindDiffers(make, m, w, pubs, sigs, sigN, keyN, s);
        assert given == rest && Bodies(tried[sigN..]) == Bodies(sigs[sigN..]);
        LabelsInOrder(make, m, w, pubs, signers, tried, required, sigN, keyN + 1);
        BecomesAnyway(LabelFrom(w, sigs, pubs, required, sigN, keyN, sigN), sigs, sigN, required, s, rest);
      }
    } else {
      ScanEnds(w, sigs, pubs, required, sigN, keyN, sigN);
      BecomesNothing(sigs, sigN, required, given);
    }
  }

  lemma BehindNext<M, P, X>(make: (M, P) -> X, m: M, pubs: seq<P>, sigs: seq<Sig<P, X>>, sigN: nat, keyN: nat)
    requires sigN < |sigs| && keyN < |pubs| && sigs[sigN].body == make(m, pubs[keyN])
    ensures Behind(make, m, pubs, sigs, sigN + 1, keyN + 1)
  {
  }

  lemma InOrderFrom<M, P, X>(make: (M, P) -> X, m: M, pubs: seq<P>, signers: set<P>, i: nat)
    requires i <= |pubs|
    ensures InOrder(make, m, pubs[i..], signers)
            == if i == |pubs| then []
               else
                 (if pubs[i] in signers then [NewSig(make, m, pubs[i])] else [])
                 + InOrder(make, m, pubs[i + 1..], signers)
  {
    if i < |pubs| {
      assert pubs[i..][1..] == pubs[i + 1..] && pubs[i..][0] == pubs[i];
    }
  }

  lemma OwnVerifies<M, P, X>(make: (M, P) -> X, m: M, w: (X, P) -> bool, pubs: seq<P>, i: nat, j: nat)
    requires Distinct(pubs) && OwnKeyOnly(make, m, w, pubs) && i < |pubs| && j < |pubs|
    ensures w(make(m, pubs[i]), pubs[j]) <==> i == j
  {
    assert IsOwn(make, m, w, pubs[i], pubs[j]);
  }

  lemma FirstSigner<M, P, X>(make: (M, P) -> X, m: M, pubs: seq<P>, signers: set<P>, i: nat) returns (k: nat)
    requires i <= |pubs| && InOrder(make, m, pubs[i..], signers) != []
    ensures i <= k < |pubs| && InOrder(make, m, pubs[i..], signers)[0].body == make(m, pubs[k])
  {
    var s := InOrder(make, m, pubs[i..], signers)[0];
    InOrderMembers(make, m, pubs[i..], signers, s);
    var p :| p in pubs[i..] && p in signers && s == NewSig(make, m, p);
    var j :| 0 <= j < |pubs[i..]| && pubs[i..][j] == p;
    k := i + j;
  }

  /** Signatures of a set of signers in the order of the keys, whatever keys they carry: `verify` gives each one it
      needs its own key. */
  lemma VerifyRestoresKeys<M, P, X>(
    make: (M, P) -> X, m: M, w: (X, P) -> bool, pubs: seq<P>, signers: set<P>, sigs: seq<Sig<P, X>>, required: nat)
    requires Distinct(pubs) && OwnKeyOnly(make, m, w, pubs)
    requires Bodies(sigs) == Bodies(InOrder(make, m, pubs, signers))
    ensures Becomes(Labels(w, sigs, pubs, required), sigs, 0, required, InOrder(make, m, pubs, signers))
  {
    hide InOrder, OwnKeyOnly, Distinct;
    assert sigs[0..] == sigs && pubs[0..] == pubs;
    LabelsInOrder(make, m, w, pubs, signers, sigs, required, 0, 0);
  }

  // ---------------------------------------------------------------- verifying between the calls

  datatype Step<P> = Sign(call: Call<P>) | Verify

  /** Calls of `sign` with calls of `verify` between them; None as soon as one raises. */
  function RunSteps<M, P(==), X>(make: (M, P) -> X, m: M, w: (X, P) -> bool, keys: seq<Key<P>>, required: nat,
                                 sigs: seq<Sig<P, X>>, steps: seq<Step<P>>): Option<seq<Sig<P, X>>>
    decreases |steps|
  {
    if steps == [] then Some(sigs)
    else
      match steps[0]
      case Verify => RunSteps(make, m, w, keys, required, Labels(w, sigs, PubKeys(keys), required), steps[1..])
      case Sign(call) =>
        match SignInput(make, Some(m), false, keys, sigs, call.given, call.failOnUnknown)
        case Raised => None
        case NothingSigned => RunSteps(make, m, w, keys, required, sigs, steps[1..])
        case Signed(more) => RunSteps(make, m, w, keys, required, more, steps[1..])
  }

  function CallsOf<P>(steps: seq<Step<P>>): seq<Call<P>> {
    if steps == [] then []
    else if steps[0].Sign? then [steps[0].call] + CallsOf(steps[1..])
    else CallsOf(steps[1..])
  }

  lemma VerifyKeeps<M, P, X>(
    make: (M, P) -> X, m: M, w: (X, P) -> bool, pubs: seq<P>, signers: set<P>, required: nat)
    requires Distinct(pubs) && OwnKeyOnly(make, m, w, pubs)
    ensures Labels(w, InOrder(make, m, pubs, signers), pubs, required) == InOrder(make, m, pubs, signers)
  {
    hide InOrder, OwnKeyOnly, Distinct, Labels;
    VerifyRestoresKeys(make, m, w, pubs, signers, InOrder(make, m, pubs, signers), required);
  }

  /** Verifying in between, at any time and any number of times, makes no difference to what cosigners end with. */
  lemma {:induction false} VerifyingInBetween<M, P, X>(make: (M, P) -> X, m: M, w: (X, P) -> bool, keys: seq<Key<P>>,
                                                       required: nat, signers: set<P>, steps: seq<Step<P>>)
    requires keys != [] && Distinct(PubKeys(keys)) && OwnKeyOnly(make, m, w, PubKeys(keys))
    ensures var sigs := InOrder(make, m, PubKeys(keys), signers);
            RunSteps(make, m, w, keys, required, sigs, steps) == Run(make, m, keys, sigs, CallsOf(steps))
    decreases |steps|
  {
    hide SignInput, InOrder, SigningKeys, Distinct, OwnKeyOnly, Labels;
    if steps != [] {
      match steps[0]
      case Verify =>
        VerifyKeeps(make, m, w, PubKeys(keys), signers, required);
        VerifyingInBetween(make, m, w, keys, required, signers, steps[1..]);
      case Sign(call) =>
        assert CallsOf(steps)[1..] == CallsOf(steps[1..]);
        SignStep(make, m, keys, signers, call.given, call.failOnUnknown);
        var added := Added(PubKeys(keys), signers, call.failOnUnknown, SigningKeys(call.given, keys));
        if added.Some? {
          assert added.value == {} ==> signers + added.value == signers;
          VerifyingInBetween(make, m, w, keys, required, signers + added.value, steps[1..]);
        }
    }
  }

  /** A list read from a script gets all its keys back from `verify` exactly when it holds no more signatures than
      are required. */
  lemma KeysBackIff<M, P, X>(
    make: (M, P) -> X, m: M, w: (X, P) -> bool, pubs: seq<P>, signers: set<P>, required: nat)
    requires Distinct(pubs) && OwnKeyOnly(make, m, w, pubs)
    ensures Labels(w, FromScript(make, m, pubs, signers), pubs, required) == InOrder(make, m, pubs, signers)
            <==> |InOrder(make, m, pubs, signers)| <= required
  {
    hide InOrder, OwnKeyOnly, Distinct, Labels;
    var known, sigs := InOrder(make, m, pubs, signers), FromScript(make, m, pubs, signers);
    VerifyRestoresKeys(make, m, w, pubs, signers, sigs, required);
    var r := Labels(w, sigs, pubs, required);
    if required < |known| {
      AllHaveKeys(make, m, pubs, signers, known[required]);
      assert r[required].pub == None;
    }
  }

  lemma AllHaveKeys<M, P, X>(make: (M, P) -> X, m: M, pubs: seq<P>, signers: set<P>, s: Sig<P, X>)
    requires s in InOrder(make, m, pubs, signers)
    ensures s.pub.Some?
  {
    InOrderMembers(make, m, pubs, signers, s);
  }

  /** Verifying first makes cosigners go on from such a list as if the keys had always been there. */
  lemma VerifyFirst<M, P, X>(make: (M, P) -> X, m: M, w: (X, P) -> bool, keys: seq<Key<P>>,
                             required: nat, signers: set<P>, steps: seq<Step<P>>)
    requires keys != [] && Distinct(PubKeys(keys)) && OwnKeyOnly(make, m, w, PubKeys(keys))
    requires |InOrder(make, m, PubKeys(keys), signers)| <= required
    ensures RunSteps(make, m, w, keys, required, FromScript(make, m, PubKeys(keys), signers), [Verify] + steps)
            == Run(make, m, keys, InOrder(make, m, PubKeys(keys), signers), CallsOf(steps))
  {
    hide InOrder, OwnKeyOnly, Distinct, Labels, FromScript, Run;
    KeysBackIff(make, m, w, PubKeys(keys), signers, required);
    VerifyingInBetween(make, m, w, keys, required, signers, steps);
    assert ([Verify] + steps)[1..] == steps;
  }

  // ---------------------------------------------------------------- wrong keys

  predicate Fits<P, X>(w: (X, P) -> bool, s: Sig<P, X>) {
    s.pub.Some? ==> w(s.body, s.pub.value)
  }

  /** Every signature that carries a key verifies under it. */
  predicate WellLabelled<P, X>(w: (X, P) -> bool, sigs: seq<Sig<P, X>>) {
    forall i :: 0 <= i < |sigs| ==> Fits(w, sigs[i])
  }

  /** The loop leaves a signature with a key it does not verify under; `tried` if the first one carries such a
      key already. */
  predicate Stuck<X, P>(w: (X, P) -> bool, bodies: seq<X>, pubs: seq<P>, tried: bool)
    decreases |pubs|
  {
    if bodies == [] then false
    else if pubs == [] then tried
    else if w(bodies[0], pubs[0]) then Stuck(w, bodies[1..], pubs[1..], false)
    else Stuck(w, bodies, pubs[1..], true)
  }

  lemma {:induction false} StuckIsGreedy<X, P>(w: (X, P) -> bool, bodies: seq<X>, pubs: seq<P>, tried: bool)
    ensures Stuck(w, bodies, pubs, tried)
            <==> if pubs == [] then tried && bodies != []
                 else Greedy(w, bodies, pubs[..|pubs| - 1]) == Greedy(w, bodies, pubs) < |bodies|
    decreases |pubs|
  {
    if pubs != [] && bodies != [] {
      if |pubs| > 1 {
        assert pubs[..|pubs| - 1][1..] == pubs[1..][..|pubs[1..]| - 1];
      }
      if w(bodies[0], pubs[0]) {
        StuckIsGreedy(w, bodies[1..], pubs[1..], false);
      } else {
        StuckIsGreedy(w, bodies, pubs[1..], true);
      }
    }
  }

  /** All signatures but the one at `k` carry a key they verify under, or none. */
  ghost predicate FitsExcept<P, X>(w: (X, P) -> bool, sigs: seq<Sig<P, X>>, k: nat, tried: bool) {
    && (forall i :: 0 <= i < |sigs| && i != k ==> Fits(w, sigs[i]))
    && (k < |sigs| ==> (Fits(w, sigs[k]) <==> !tried))
    && (tried ==> k < |sigs|)
  }

  /** The signature in front of `sigN` verifies under a key in front of `keyN`. */
  ghost predicate Counted<P, X>(w: (X, P) -> bool, sigs: seq<Sig<P, X>>, pubs: seq<P>, sigN: nat, keyN: nat)
    requires sigN <= |sigs| && keyN <= |pubs|
  {
    sigN > 0 ==> exists k :: 0 <= k < keyN && w(sigs[sigN - 1].body, pubs[k])
  }

  lemma FitsAfter<P, X>(w: (X, P) -> bool, sigs: seq<Sig<P, X>>, sigN: nat, tried: bool, p: P)
    requires sigN < |sigs| && FitsExcept(w, sigs, sigN, tried)
    ensures var after := sigs[sigN := sigs[sigN].(pub := Some(p))];
            if w(sigs[sigN].body, p) then FitsExcept(w, after, sigN + 1, false) else FitsExcept(w, after, sigN, true)
  {
  }

  lemma CountedAfter<P, X>(
    w: (X, P) -> bool, sigs: seq<Sig<P, X>>, pubs: seq<P>, sigN: nat, keyN: nat, s: Sig<P, X>)
    requires sigN < |sigs| && keyN < |pubs| && s.body == sigs[sigN].body
    requires OneKeyEach(w, Bodies(sigs), pubs) && Counted(w, sigs, pubs, sigN, keyN)
    ensures sigN > 0 ==> !w(sigs[sigN - 1].body, pubs[keyN])
    ensures Counted(w, sigs[sigN := s], pubs, sigN, keyN + 1)
    ensures w(s.body, pubs[keyN]) ==> Counted(w, sigs[sigN := s], pubs, sigN + 1, keyN + 1)
  {
    if sigN > 0 {
      assert Bodies(sigs)[sigN - 1] in Bodies(sigs);
    }
  }

  /** The signatures that the loop from `sigN` on may try. */
  function Needed<X>(bodies: seq<X>, sigN: nat, required: nat): seq<X>
    requires sigN <= |bodies|
  {
    if required <= sigN then [] else if required < |bodies| then bodies[sigN..required] else bodies[sigN..]
  }

  lemma LabelNext<P, X>(w: (X, P) -> bool, sigs: seq<Sig<P, X>>, pubs: seq<P>, required: nat, sigN: nat, keyN: nat)
    requires keyN < |pubs| && sigN < required && sigN < |sigs|
    requires sigN > 0 ==> !w(sigs[sigN - 1].body, pubs[keyN])
    ensures var after := sigs[sigN := sigs[sigN].(pub := Some(pubs[keyN]))];
            LabelFrom(w, sigs, pubs, required, sigN, keyN, sigN)
            == if w(sigs[sigN].body, pubs[keyN]) then LabelFrom(w, after, pubs, required, sigN + 1, keyN + 1, sigN + 1)
               else LabelFrom(w, after, pubs, required, sigN, keyN + 1, sigN)
  {
  }

  lemma {:induction false} StuckLabels<P, X>(w: (X, P) -> bool, sigs: seq<Sig<P, X>>, pubs: seq<P>, required: nat,
                                             sigN: nat, keyN: nat, tried: bool)
    requires sigN <= |sigs| && keyN <= |pubs| && OneKeyEach(w, Bodies(sigs), pubs)
    requires FitsExcept(w, sigs, sigN, tried) && Counted(w, sigs, pubs, sigN, keyN) && (tried ==> sigN < required)
    ensures WellLabelled(w, LabelFrom(w, sigs, pubs, required, sigN, keyN, sigN))
            <==> !Stuck(w, Needed(Bodies(sigs), sigN, required), pubs[keyN..], tried)
    decreases |pubs| - keyN
  {
    hide *;
    if keyN < |pubs| && sigN < required && sigN < |sigs| {
      var p := pubs[keyN];
      var s := sigs[sigN].(pub := Some(p));
      var after := sigs[sigN := s];
      assert Bodies(after) == Bodies(sigs);
      FitsAfter(w, sigs, sigN, tried, p);
      CountedAfter(w, sigs, pubs, sigN, keyN, s);
      LabelNext(w, sigs, pubs, required, sigN, keyN);
      StuckNext(w, Bodies(sigs), pubs, required, sigN, keyN, tried);
      if w(s.body, p) {
        StuckLabels(w, after, pubs, required, sigN + 1, keyN + 1, false);
      } else {
        StuckLabels(w, after, pubs, required, sigN, keyN + 1, true);
      }
    } else {
      StuckEnds(w, sigs, pubs, required, sigN, keyN, tried);
    }
  }

  lemma StuckNext<P, X>(w: (X, P) -> bool, bodies: seq<X>, pubs: seq<P>, required: nat, sigN: nat, keyN: nat, tried: bool)
    requires keyN < |pubs| && sigN < required && sigN < |bodies|
    ensures Stuck(w, Needed(bodies, sigN, required), pubs[keyN..], tried)
            == if w(bodies[sigN], pubs[keyN]) then Stuck(w, Needed(bodies, sigN + 1, required), pubs[keyN + 1..], false)
               else Stuck(w, Needed(bodies, sigN, required), pubs[keyN + 1..], true)
  {
    assert Needed(bodies, sigN, required)[1..] == Needed(bodies, sigN + 1, required);
    assert pubs[keyN..][1..] == pubs[keyN + 1..];
  }

  lemma StuckEnds<P, X>(w: (X, P) -> bool, sigs: seq<Sig<P, X>>, pubs: seq<P>, required: nat,
                        sigN: nat, keyN: nat, tried: bool)
    requires sigN <= |sigs| && keyN <= |pubs| && !(keyN < |pubs| && sigN < required && sigN < |sigs|)
    requires FitsExcept(w, sigs, sigN, tried) && (tried ==> sigN < required)
    ensures WellLabelled(w, LabelFrom(w, sigs, pubs, required, sigN, keyN, sigN))
            <==> !Stuck(w, Needed(Bodies(sigs), sigN, required), pubs[keyN..], tried)
  {
  }

  lemma {:induction false} GreedyOfPrefix<S, K>(w: (S, K) -> bool, sigs: seq<S>, keys: seq<K>, k: nat)
    requires k <= |sigs|
    ensures Greedy(w, sigs[..k], keys) == Min(k, Greedy(w, sigs, keys))
    decreases |keys|
  {
    if k > 0 && keys != [] {
      assert sigs[..k][1..] == sigs[1..][..k - 1];
      GreedyOfPrefix(w, sigs, keys[1..], k);
      GreedyOfPrefix(w, sigs[1..], keys[1..], k - 1);
    }
  }

  lemma {:induction false} GreedyOfFewer<S, K>(w: (S, K) -> bool, sigs: seq<S>, keys: seq<K>)
    requires keys != []
    ensures Greedy(w, sigs, keys[..|keys| - 1]) <= Greedy(w, sigs, keys)
    decreases |keys|
  {
    if |keys| > 1 && sigs != [] {
      assert keys[..|keys| - 1][1..] == keys[1..][..|keys[1..]| - 1];
      GreedyOfFewer(w, sigs, keys[1..]);
      GreedyOfFewer(w, sigs[1..], keys[1..]);
    }
  }

  /** One of the first `required` signatures has no key, although those in front of it leave the last key over. */
  ghost predicate LeavesLastKey<X, P>(w: (X, P) -> bool, bodies: seq<X>, pubs: seq<P>, required: nat) {
    pubs != [] && exists k :: LeavesLastKeyAt(w, bodies, pubs, required, k)
  }

  ghost predicate LeavesLastKeyAt<X, P>(w: (X, P) -> bool, bodies: seq<X>, pubs: seq<P>, required: nat, k: int)
    requires pubs != []
  {
    && 0 <= k < |bodies| && k < required
    && Satisfies(w, bodies[..k], pubs[..|pubs| - 1])
    && !Satisfies(w, bodies[..k + 1], pubs)
  }

  lemma LeavesLastKeyIsGreedy<X, P>(w: (X, P) -> bool, bodies: seq<X>, pubs: seq<P>, required: nat, k: nat)
    requires pubs != [] && k < |bodies| && k < required
    ensures var needed := Needed(bodies, 0, required);
            LeavesLastKeyAt(w, bodies, pubs, required, k)
            <==> k == Greedy(w, needed, pubs[..|pubs| - 1]) == Greedy(w, needed, pubs)
  {
    var needed := Needed(bodies, 0, required);
    assert needed[..k] == bodies[..k] && needed[..k + 1] == bodies[..k + 1];
    GreedyIffSatisfies(w, bodies[..k], pubs[..|pubs| - 1]);
    GreedyIffSatisfies(w, bodies[..k + 1], pubs);
    GreedyOfPrefix(w, needed, pubs[..|pubs| - 1], k);
    GreedyOfPrefix(w, needed, pubs, k + 1);
    GreedyOfFewer(w, needed, pubs);
  }

  lemma LeavesLastKeyIff<X, P>(w: (X, P) -> bool, bodies: seq<X>, pubs: seq<P>, required: nat)
    requires pubs != []
    ensures var needed := Needed(bodies, 0, required);
            LeavesLastKey(w, bodies, pubs, required)
            <==> Greedy(w, needed, pubs[..|pubs| - 1]) == Greedy(w, needed, pubs) < |needed|
  {
    hide Greedy, Satisfies;
    var needed := Needed(bodies, 0, required);
    if LeavesLastKey(w, bodies, pubs, required) {
      var k :| LeavesLastKeyAt(w, bodies, pubs, required, k);
      LeavesLastKeyIsGreedy(w, bodies, pubs, required, k);
    }
    var g := Greedy(w, needed, pubs);
    if Greedy(w, needed, pubs[..|pubs| - 1]) == g < |needed| {
      LeavesLastKeyIsGreedy(w, bodies, pubs, required, g);
    }
  }

  /** `verify` leaves a signature with a key it does not verify under exactly when one of those required has no
      place behind the ones in front of it, and these leave the last key over. */
  lemma MislabelsIff<P, X>(w: (X, P) -> bool, sigs: seq<Sig<P, X>>, pubs: seq<P>, required: nat)
    requires OneKeyEach(w, Bodies(sigs), pubs) && WellLabelled(w, sigs)
    ensures !WellLabelled(w, Labels(w, sigs, pubs, required)) <==> LeavesLastKey(w, Bodies(sigs), pubs, required)
  {
    hide Greedy, OneKeyEach, LeavesLastKeyAt, Stuck, LabelFrom;
    StuckLabels(w, sigs, pubs, required, 0, 0, false);
    assert pubs[0..] == pubs;
    StuckIsGreedy(w, Needed(Bodies(sigs), 0, required), pubs, false);
    if pubs != [] {
      LeavesLastKeyIff(w, Bodies(sigs), pubs, required);
    }
  }

  /** A successful `verify` labels nothing wrongly. */
  lemma ValidIsWellLabelled<P, X>(w: (X, P) -> bool, sigs: seq<Sig<P, X>>, pubs: seq<P>, required: nat)
    requires OneKeyEach(w, Bodies(sigs), pubs) && WellLabelled(w, sigs) && InputVerifies(w, Bodies(sigs), pubs, required)
    ensures WellLabelled(w, Labels(w, sigs, pubs, required))
  {
    hide OneKeyEach, WellLabelled, Greedy, LabelFrom, Satisfies;
    MislabelsIff(w, sigs, pubs, required);
    InputVerifiesIff(w, Bodies(sigs), pubs, required);
    GreedyIffSatisfies(w, Bodies(sigs)[..required], pubs);
    assert Needed(Bodies(sigs), 0, required) == Bodies(sigs)[..required];
    if pubs != [] {
      LeavesLastKeyIff(w, Bodies(sigs), pubs, required);
    }
  }

  /** A signature that verifies under none of the keys, as one of another message does, ends with the last key.
      A call with that key then signs nothing, where it would have signed before. */
  lemma WrongKeyBlocksSigner<M, P, X>(make: (M, P) -> X, m: M, w: (X, P) -> bool, ps: seq<P>, x: X, required: nat)
    requires ps != [] && Distinct(ps) && required > 0 && forall i :: 0 <= i < |ps| ==> !w(x, ps[i])
    ensures var last := ps[|ps| - 1];
            && Labels(w, [Sig(None, x)], ps, required) == [Sig(Some(last), x)]
            && SignInput(make, Some(m), false, Public(ps), [Sig(Some(last), x)], [Key(last, true)], true) == NothingSigned
            && SignInput(make, Some(m), false, Public(ps), [Sig(None, x)], [Key(last, true)], true).Signed?
  {
    var last, unknown := ps[|ps| - 1], [Sig(None, x)];
    LastKeyStays(w, unknown[0], ps, required, 0);
    IndexIs(ps, |ps| - 1);
    KeylessCall(make, m, ps, unknown, last);
    PublicKeys(ps);
    NoPrivateKeys([Key(last, true)], Public(ps));
    assert [Sig(Some(last), x)][0].pub == Some(last);
  }

  lemma {:induction false} LastKeyStays<P, X>(w: (X, P) -> bool, s: Sig<P, X>, ps: seq<P>, required: nat, keyN: nat)
    requires required > 0 && keyN <= |ps| && forall i :: 0 <= i < |ps| ==> !w(s.body, ps[i])
    ensures LabelFrom(w, [s], ps, required, 0, keyN, 0)
            == [if keyN < |ps| then Sig(Some(ps[|ps| - 1]), s.body) else s]
    decreases |ps| - keyN
  {
    if keyN < |ps| {
      var tried := Sig(Some(ps[keyN]), s.body);
      assert [s][0 := tried] == [tried];
      LastKeyStays(w, tried, ps, required, keyN + 1);
    }
  }

  // ---------------------------------------------------------------- every label

  /** From state `sigN`, `keyN` the loop has come to key `n`: signature sigN + i was matched by key `f[i]`, the first one
      behind those in front of it that matches, and no key matched the signature after them. */
  ghost predicate IsPass<X, P>(w: (X, P) -> bool, bodies: seq<X>, pubs: seq<P>, sigN: nat, keyN: nat, n: nat, f: seq<nat>) {
    && keyN <= n <= |pubs| && sigN + |f| <= |bodies|
    && (forall i :: 0 <= i < |f| ==> keyN <= f[i] < n && w(bodies[sigN + i], pubs[f[i]]))
    && (forall i, j :: 0 <= i < j < |f| ==> f[i] < f[j])
    && Misses(w, bodies, pubs, sigN, keyN, n, f)
  }

  ghost predicate Misses<X, P>(w: (X, P) -> bool, bodies: seq<X>, pubs: seq<P>, sigN: nat, keyN: nat, n: nat, f: seq<nat>)
    requires n <= |pubs| && forall i :: 0 <= i < |f| ==> f[i] < n
  {
    forall i :: 0 <= i <= |f| && sigN + i < |bodies| ==>
      NoMatch(w, bodies[sigN + i], pubs, Start(f, keyN, i), if i < |f| then f[i] else n)
  }

  /** The first key that signature `i` of a pass is tried under. */
  function Start(f: seq<nat>, keyN: nat, i: nat): nat
    requires i <= |f|
  {
    if i == 0 then keyN else f[i - 1] + 1
  }

  predicate NoMatch<X, P>(w: (X, P) -> bool, x: X, pubs: seq<P>, lo: nat, hi: nat)
    requires hi <= |pubs|
  {
    forall k :: lo <= k < hi ==> !w(x, pubs[k])
  }

  /** A matched signature has the key that matched it, the one after them the last key it was tried under, if it was. */
  ghost predicate IsLabelled<P, X>(after: seq<Sig<P, X>>, before: seq<Sig<P, X>>, pubs: seq<P>, sigN: nat, keyN: nat, n: nat,
                                   f: seq<nat>)
    requires n <= |pubs| && forall i :: 0 <= i < |f| ==> f[i] < n
  {
    && |after| == |before|
    && forall j :: 0 <= j < |after| ==>
         after[j] == if sigN <= j < sigN + |f| then before[j].(pub := Some(pubs[f[j - sigN]]))
                     else if j == sigN + |f| && Start(f, keyN, |f|) < n then before[j].(pub := Some(pubs[n - 1]))
                     else before[j]
  }

  /** The keys up to `n` are the fewest that decide, from a state on. */
  ghost predicate IsStop<X, P>(w: (X, P) -> bool, bodies: seq<X>, pubs: seq<P>, required: nat, sigN: nat, keyN: nat,
                               verified: nat, n: nat, last: nat)
    requires sigN <= |bodies| && keyN <= n <= |pubs|
  {
    && (n < |pubs| && last < |bodies| ==> VerifyFrom(w, bodies, pubs[..n], required, sigN, keyN, verified))
    && forall k :: keyN <= k < n ==> !VerifyFrom(w, bodies, pubs[..k], required, sigN, keyN, verified)
  }

  lemma FewerKeys<X, P>(w: (X, P) -> bool, bodies: seq<X>, pubs: seq<P>, required: nat, sigN: nat, keyN: nat,
                        verified: nat, k: nat)
    requires sigN < |bodies| && keyN < |pubs| && verified < required && keyN <= k <= |pubs|
    ensures k == keyN ==> !VerifyFrom(w, bodies, pubs[..k], required, sigN, keyN, verified)
    ensures k > keyN ==>
              var hit := w(bodies[sigN], pubs[keyN]);
              var again := !hit && sigN > 0 && w(bodies[sigN - 1], pubs[keyN]);
              VerifyFrom(w, bodies, pubs[..k], required, sigN, keyN, verified)
              == VerifyFrom(w, bodies, pubs[..k], required, if hit then sigN + 1 else sigN, keyN + 1,
                            if hit || again then verified + 1 else verified)
  {
  }

  lemma StopLater<X, P>(w: (X, P) -> bool, bodies: seq<X>, pubs: seq<P>, required: nat, sigN: nat, keyN: nat,
                        verified: nat, n: nat, last: nat)
    requires sigN < |bodies| && keyN < n <= |pubs| && verified < required
    requires var hit := w(bodies[sigN], pubs[keyN]);
             var again := !hit && sigN > 0 && w(bodies[sigN - 1], pubs[keyN]);
             IsStop(w, bodies, pubs, required, if hit then sigN + 1 else sigN, keyN + 1,
                    if hit || again then verified + 1 else verified, n, last)
    ensures IsStop(w, bodies, pubs, required, sigN, keyN, verified, n, last)
  {
    hide VerifyFrom;
    FewerKeys(w, bodies, pubs, required, sigN, keyN, verified, n);
    forall k | keyN <= k < n
      ensures !VerifyFrom(w, bodies, pubs[..k], required, sigN, keyN, verified)
    {
      FewerKeys(w, bodies, pubs, required, sigN, keyN, verified, k);
    }
  }

  lemma PassHit<X, P>(w: (X, P) -> bool, bodies: seq<X>, pubs: seq<P>, sigN: nat, keyN: nat, n: nat, g: seq<nat>)
    requires sigN < |bodies| && keyN < |pubs| && w(bodies[sigN], pubs[keyN])
    requires IsPass(w, bodies, pubs, sigN + 1, keyN + 1, n, g)
    ensures IsPass(w, bodies, pubs, sigN, keyN, n, [keyN] + g)
  {
    hide NoMatch, Start, Misses;
    MissesHit(w, bodies, pubs, sigN, keyN, n, g);
  }

  lemma MissesHit<X, P>(w: (X, P) -> bool, bodies: seq<X>, pubs: seq<P>, sigN: nat, keyN: nat, n: nat, g: seq<nat>)
    requires keyN < n <= |pubs| && forall i :: 0 <= i < |g| ==> g[i] < n
    requires Misses(w, bodies, pubs, sigN + 1, keyN + 1, n, g)
    ensures Misses(w, bodies, pubs, sigN, keyN, n, [keyN] + g)
  {
    hide NoMatch, Start;
    var f := [keyN] + g;
    forall i | 0 <= i <= |f| && sigN + i < |bodies|
      ensures NoMatch(w, bodies[sigN + i], pubs, Start(f, keyN, i), if i < |f| then f[i] else n)
    {
      StartLater(w, bodies, pubs, sigN, keyN, n, g, i);
    }
  }

  lemma StartLater<X, P>(w: (X, P) -> bool, bodies: seq<X>, pubs: seq<P>, sigN: nat, keyN: nat, n: nat, g: seq<nat>, i: nat)
    requires keyN < n <= |pubs| && i <= |g| + 1 && sigN + i < |bodies| && forall j :: 0 <= j < |g| ==> g[j] < n
    requires Misses(w, bodies, pubs, sigN + 1, keyN + 1, n, g)
    ensures var f := [keyN] + g;
            NoMatch(w, bodies[sigN + i], pubs, Start(f, keyN, i), if i < |f| then f[i] else n)
  {
    if i > 0 {
      assert bodies[sigN + 1 + (i - 1)] == bodies[sigN + i];
      assert NoMatch(w, bodies[sigN + 1 + (i - 1)], pubs, Start(g, keyN + 1, i - 1), if i - 1 < |g| then g[i - 1] else n);
    }
  }

  lemma PassMiss<X, P>(w: (X, P) -> bool, bodies: seq<X>, pubs: seq<P>, sigN: nat, keyN: nat, n: nat, f: seq<nat>)
    requires sigN < |bodies| && keyN < |pubs| && !w(bodies[sigN], pubs[keyN])
    requires IsPass(w, bodies, pubs, sigN, keyN + 1, n, f)
    ensures IsPass(w, bodies, pubs, sigN, keyN, n, f)
  {
    forall i | 0 <= i <= |f| && sigN + i < |bodies|
      ensures NoMatch(w, bodies[sigN + i], pubs, Start(f, keyN, i), if i < |f| then f[i] else n)
    {
      assert NoMatch(w, bodies[sigN + i], pubs, Start(f, keyN + 1, i), if i < |f| then f[i] else n);
    }
  }

  lemma {:induction false} LabelFromIs<P, X>(
    w: (X, P) -> bool, sigs: seq<Sig<P, X>>, pubs: seq<P>, required: nat, sigN: nat, keyN: nat, verified: nat)
    returns (n: nat, f: seq<nat>)
    requires sigN <= |sigs| && keyN <= |pubs|
    ensures IsPass(w, Bodies(sigs), pubs, sigN, keyN, n, f)
    ensures IsLabelled(LabelFrom(w, sigs, pubs, required, sigN, keyN, verified), sigs, pubs, sigN, keyN, n, f)
    ensures IsStop(w, Bodies(sigs), pubs, required, sigN, keyN, verified, n, sigN + |f|)
    decreases |pubs| - keyN
  {
    hide VerifyFrom, LabelFrom, IsPass, IsStop, IsLabelled;
    if verified >= required || keyN == |pubs| || sigN == |sigs| {
      n, f := keyN, [];
      ScanEnds(w, sigs, pubs, required, sigN, keyN, verified);
      NothingTried(w, sigs, pubs, required, sigN, keyN, verified);
    } else {
      ScanNext(w, sigs, pubs, required, sigN, keyN, verified);
      var tried := sigs[sigN := sigs[sigN].(pub := Some(pubs[keyN]))];
      var bodies := Bodies(sigs);
      var hit := w(bodies[sigN], pubs[keyN]);
      var again := !hit && sigN > 0 && w(bodies[sigN - 1], pubs[keyN]);
      var g;
      n, g := LabelFromIs(w, tried, pubs, required, if hit then sigN + 1 else sigN, keyN + 1,
                          if hit || again then verified + 1 else verified);
      f := if hit then [keyN] + g else g;
      PassBounds(w, bodies, pubs, if hit then sigN + 1 else sigN, keyN + 1, n, g);
      StopLater(w, bodies, pubs, required, sigN, keyN, verified, n, sigN + |f|);
      var after := LabelFrom(w, sigs, pubs, required, sigN, keyN, verified);
      if hit {
        PassHit(w, bodies, pubs, sigN, keyN, n, g);
        PassBounds(w, bodies, pubs, sigN, keyN, n, f);
        LabelledHit(after, sigs, pubs, sigN, keyN, n, g);
      } else {
        PassMiss(w, bodies, pubs, sigN, keyN, n, f);
        LabelledMiss(after, sigs, pubs, sigN, keyN, n, f);
      }
    }
  }

  lemma PassBounds<X, P>(w: (X, P) -> bool, bodies: seq<X>, pubs: seq<P>, sigN: nat, keyN: nat, n: nat, f: seq<nat>)
    requires IsPass(w, bodies, pubs, sigN, keyN, n, f)
    ensures keyN <= n <= |pubs| && sigN + |f| <= |bodies| && forall i :: 0 <= i < |f| ==> keyN <= f[i] < n
  {
  }

  lemma NothingTried<P, X>(
    w: (X, P) -> bool, sigs: seq<Sig<P, X>>, pubs: seq<P>, required: nat, sigN: nat, keyN: nat, verified: nat)
    requires sigN <= |sigs| && keyN <= |pubs| && (verified >= required || keyN == |pubs| || sigN == |sigs|)
    ensures IsPass(w, Bodies(sigs), pubs, sigN, keyN, keyN, [])
    ensures IsLabelled(sigs, sigs, pubs, sigN, keyN, keyN, [])
    ensures IsStop(w, Bodies(sigs), pubs, required, sigN, keyN, verified, keyN, sigN)
  {
  }

  lemma LabelledHit<P, X>(after: seq<Sig<P, X>>, sigs: seq<Sig<P, X>>, pubs: seq<P>, sigN: nat, keyN: nat, n: nat,
                          g: seq<nat>)
    requires sigN < |sigs| && keyN < n <= |pubs| && forall i :: 0 <= i < |g| ==> keyN < g[i] < n
    requires IsLabelled(after, sigs[sigN := sigs[sigN].(pub := Some(pubs[keyN]))], pubs, sigN + 1, keyN + 1, n, g)
    ensures IsLabelled(after, sigs, pubs, sigN, keyN, n, [keyN] + g)
  {
    var f := [keyN] + g;
    assert Start(f, keyN, |f|) == Start(g, keyN + 1, |g|);
  }

  lemma LabelledMiss<P, X>(after: seq<Sig<P, X>>, sigs: seq<Sig<P, X>>, pubs: seq<P>, sigN: nat, keyN: nat, n: nat,
                           f: seq<nat>)
    requires sigN < |sigs| && keyN < n <= |pubs| && forall i :: 0 <= i < |f| ==> keyN < f[i] < n
    requires IsLabelled(after, sigs[sigN := sigs[sigN].(pub := Some(pubs[keyN]))], pubs, sigN, keyN + 1, n, f)
    ensures IsLabelled(after, sigs, pubs, sigN, keyN, n, f)
  {
  }

  /** What `verify` writes, for any signatures and keys. It tries the fewest keys in front that suffice, or all; a
      signature matched on the way has the key that matched it, the first behind those of the signatures in front of it,
      the next one the last key tried, and the others what they had. */
  lemma LabelsAre<P, X>(w: (X, P) -> bool, sigs: seq<Sig<P, X>>, pubs: seq<P>, required: nat) returns (n: nat, f: seq<nat>)
    requires sigs != []
    ensures IsPass(w, Bodies(sigs), pubs, 0, 0, n, f)
    ensures IsLabelled(Labels(w, sigs, pubs, required), sigs, pubs, 0, 0, n, f)
    ensures n < |pubs| && |f| < |sigs| ==> InputVerifies(w, Bodies(sigs), pubs[..n], required)
    ensures forall k :: 0 <= k < n ==> !InputVerifies(w, Bodies(sigs), pubs[..k], required)
  {
    n, f := LabelFromIs(w, sigs, pubs, required, 0, 0, 0);
  }
}
