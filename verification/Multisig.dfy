/** Which signatures satisfy an m-of-n key list.
  *
  * Two pieces of code answer this. `Stack.op_checkmultisig` pops keys and signatures off the stack,
  * so it scans both from the last to the first. `Input.verify` scans from the first to the last,
  * and after a mismatch also tries the previous signature. Both are greedy. The specification is
  * neither: it asks for an order-preserving assignment of signatures to keys.
  */
module Multisig {
  import opened Sequences

  /** `f` assigns to each signature a key it verifies under, in the same order. */
  ghost predicate Embeds<S, K>(v: (S, K) -> bool, sigs: seq<S>, keys: seq<K>, f: seq<nat>) {
    && |f| == |sigs|
    && (forall i :: 0 <= i < |f| ==> f[i] < |keys| && v(sigs[i], keys[f[i]]))
    && (forall i, j :: 0 <= i < j < |f| ==> f[i] < f[j])
  }

  ghost predicate Satisfies<S, K>(v: (S, K) -> bool, sigs: seq<S>, keys: seq<K>) {
    exists f: seq<nat> :: Embeds(v, sigs, keys, f)
  }

  // ---------------------------------------------------------------- greedy is complete

  /** How many signatures one pass over the keys matches, taking every match it meets. */
  function Greedy<S, K>(v: (S, K) -> bool, sigs: seq<S>, keys: seq<K>): (n: nat)
    ensures n <= |sigs|
  {
    if sigs == [] || keys == [] then 0
    else if v(sigs[0], keys[0]) then 1 + Greedy(v, sigs[1..], keys[1..])
    else Greedy(v, sigs, keys[1..])
  }

  lemma {:induction false} GreedySound<S, K>(v: (S, K) -> bool, sigs: seq<S>, keys: seq<K>) returns (f: seq<nat>)
    ensures Embeds(v, sigs[..Greedy(v, sigs, keys)], keys, f)
  {
    if sigs == [] || keys == [] {
      f := [];
    } else if v(sigs[0], keys[0]) {
      var g := GreedySound(v, sigs[1..], keys[1..]);
      f := [0] + seq(|g|, i requires 0 <= i < |g| => g[i] + 1);
    } else {
      var g := GreedySound(v, sigs, keys[1..]);
      f := seq(|g|, i requires 0 <= i < |g| => g[i] + 1);
    }
  }

  /** No assignment gets further than the greedy pass: exchanging its first key for the earliest
      possible one keeps it an assignment. */
  lemma {:induction false} GreedyComplete<S, K>(v: (S, K) -> bool, sigs: seq<S>, keys: seq<K>, f: seq<nat>)
    requires Embeds(v, sigs, keys, f)
    ensures Greedy(v, sigs, keys) == |sigs|
    decreases |keys|
  {
    if sigs != [] {
      assert f[0] < |keys|;
      var first := if v(sigs[0], keys[0]) then 1 else 0;
      assert f[0] == 0 ==> first == 1;
      var g := seq(|f| - first, i requires 0 <= i < |f| - first => f[i + first] - 1);
      assert Embeds(v, sigs[first..], keys[1..], g);
      GreedyComplete(v, sigs[first..], keys[1..], g);
    }
  }

  /** The greedy pass matches every signature exactly when an assignment exists. */
  lemma GreedyIffSatisfies<S, K>(v: (S, K) -> bool, sigs: seq<S>, keys: seq<K>)
    ensures Greedy(v, sigs, keys) == |sigs| <==> Satisfies(v, sigs, keys)
  {
    if Greedy(v, sigs, keys) == |sigs| {
      var f := GreedySound(v, sigs, keys);
      assert sigs[..|sigs|] == sigs;
    }
    if Satisfies(v, sigs, keys) {
      var f :| Embeds(v, sigs, keys, f);
      GreedyComplete(v, sigs, keys, f);
    }
  }

  // ---------------------------------------------------------------- scanning from the other end

  lemma ReverseEmbedding<S, K>(v: (S, K) -> bool, sigs: seq<S>, keys: seq<K>, f: seq<nat>) returns (g: seq<nat>)
    requires Embeds(v, sigs, keys, f)
    ensures Embeds(v, Reverse(sigs), Reverse(keys), g)
  {
    g := seq(|f|, i requires 0 <= i < |f| => |keys| - 1 - f[|f| - 1 - i]);
  }

  lemma ReverseSatisfies<S, K>(v: (S, K) -> bool, sigs: seq<S>, keys: seq<K>)
    ensures Satisfies(v, Reverse(sigs), Reverse(keys)) <==> Satisfies(v, sigs, keys)
  {
    if Satisfies(v, sigs, keys) {
      var f :| Embeds(v, sigs, keys, f);
      var g := ReverseEmbedding(v, sigs, keys, f);
    }
    if Satisfies(v, Reverse(sigs), Reverse(keys)) {
      var f :| Embeds(v, Reverse(sigs), Reverse(keys), f);
      var g := ReverseEmbedding(v, Reverse(sigs), Reverse(keys), f);
      assert Reverse(Reverse(sigs)) == sigs && Reverse(Reverse(keys)) == keys;
    }
  }

  // ---------------------------------------------------------------- the loop of op_checkmultisig

  /** The answer of the key loop, with its errors: it raises when it reaches for a signature that
      does not parse, or that is not there because there are none. */
  function CheckKeys<S, K>(parses: S -> bool, v: (S, K) -> bool, sigs: seq<S>, keys: seq<K>): (r: (bool, bool))
  {
    if keys == [] then (sigs == [], false)
    else if sigs == [] || !parses(sigs[0]) then (false, true)
    else if v(sigs[0], keys[0]) then
      if |sigs| == 1 then (true, false) else CheckKeys(parses, v, sigs[1..], keys[1..])
    else CheckKeys(parses, v, sigs, keys[1..])
  }

  lemma {:induction false} CheckKeysIsGreedy<S, K>(parses: S -> bool, v: (S, K) -> bool, sigs: seq<S>, keys: seq<K>)
    requires sigs != [] && forall x :: x in sigs ==> parses(x)
    ensures CheckKeys(parses, v, sigs, keys) == (Greedy(v, sigs, keys) == |sigs|, false)
    decreases |keys|
  {
    if keys != [] {
      if !v(sigs[0], keys[0]) {
        CheckKeysIsGreedy(parses, v, sigs, keys[1..]);
      } else if |sigs| > 1 {
        CheckKeysIsGreedy(parses, v, sigs[1..], keys[1..]);
      }
    }
  }

  /** How many signatures stand in front of the first one that does not parse. */
  function Parsing<S>(parses: S -> bool, sigs: seq<S>): (b: nat)
    ensures b <= |sigs| && (forall i :: 0 <= i < b ==> parses(sigs[i])) && (b < |sigs| ==> !parses(sigs[b]))
  {
    if sigs == [] || !parses(sigs[0]) then 0 else 1 + Parsing(parses, sigs[1..])
  }

  lemma {:induction false} CheckKeysAnswers<S, K>(parses: S -> bool, v: (S, K) -> bool, sigs: seq<S>, keys: seq<K>)
    ensures var (valid, raised) := CheckKeys(parses, v, sigs, keys);
            var b := Parsing(parses, sigs);
            && (raised <==> keys != [] && (sigs == [] || b < |sigs|)
                            && Greedy(v, sigs[..b], keys[..|keys| - 1]) == b)
            && (!raised ==> (valid <==> Greedy(v, sigs, keys) == |sigs|))
            && (raised ==> !valid)
    decreases |keys|
  {
    var b := Parsing(parses, sigs);
    if keys != [] && b > 0 {
      assert sigs[..b][1..] == sigs[1..][..b - 1];
      if |keys| > 1 {
        assert keys[..|keys| - 1][1..] == keys[1..][..|keys[1..]| - 1];
      }
      if v(sigs[0], keys[0]) {
        CheckKeysAnswers(parses, v, sigs[1..], keys[1..]);
      } else {
        CheckKeysAnswers(parses, v, sigs, keys[1..]);
      }
    }
  }

  /** The key loop raises exactly when a key is left for a signature that is not there because there are none, or
      that does not parse. Otherwise it answers whether an assignment exists. */
  lemma CheckKeysMeaning<S, K>(parses: S -> bool, v: (S, K) -> bool, sigs: seq<S>, keys: seq<K>)
    ensures var (valid, raised) := CheckKeys(parses, v, sigs, keys);
            && (raised <==> keys != []
                            && (sigs == []
                                || exists j :: 0 <= j < |sigs| && !parses(sigs[j])
                                               && (forall i :: 0 <= i < j ==> parses(sigs[i]))
                                               && Satisfies(v, sigs[..j], keys[..|keys| - 1])))
            && (!raised ==> (valid <==> Satisfies(v, sigs, keys)))
  {
    var b := Parsing(parses, sigs);
    CheckKeysAnswers(parses, v, sigs, keys);
    GreedyIffSatisfies(v, sigs, keys);
    if keys != [] {
      GreedyIffSatisfies(v, sigs[..b], keys[..|keys| - 1]);
    }
    hide CheckKeys, Greedy, Satisfies;
    assert forall j :: 0 <= j < |sigs| && !parses(sigs[j]) && (forall i :: 0 <= i < j ==> parses(sigs[i])) ==> j == b;
  }

  // ---------------------------------------------------------------- the loop of Input.verify

  /** The loop of `Input.verify` from a given state on. */
  predicate VerifyFrom<S, K>(v: (S, K) -> bool, sigs: seq<S>, keys: seq<K>, required: nat,
                             sigN: nat, keyN: nat, verified: nat)
    requires sigN <= |sigs| && keyN <= |keys|
    decreases |keys| - keyN
  {
    if verified >= required then true
    else if keyN >= |keys| || sigN >= |sigs| then false
    else if v(sigs[sigN], keys[keyN]) then VerifyFrom(v, sigs, keys, required, sigN + 1, keyN + 1, verified + 1)
    else if sigN > 0 && v(sigs[sigN - 1], keys[keyN]) then VerifyFrom(v, sigs, keys, required, sigN, keyN + 1, verified + 1)
    else VerifyFrom(v, sigs, keys, required, sigN, keyN + 1, verified)
  }

  predicate InputVerifies<S(==), K>(v: (S, K) -> bool, sigs: seq<S>, keys: seq<K>, required: nat) {
    sigs != [] && VerifyFrom(v, sigs, keys, required, 0, 0, 0)
  }

  /** No signature verifies at two key positions. */
  ghost predicate OneKeyEach<S, K>(v: (S, K) -> bool, sigs: seq<S>, keys: seq<K>) {
    forall x, i, j :: x in sigs && 0 <= i < j < |keys| ==> !(v(x, keys[i]) && v(x, keys[j]))
  }

  lemma {:induction false} VerifyFromIsGreedy<S, K>(v: (S, K) -> bool, sigs: seq<S>, keys: seq<K>, required: nat,
                                                   sigN: nat, keyN: nat)
    requires OneKeyEach(v, sigs, keys) && sigN <= |sigs| && keyN <= |keys| && sigN <= required
    requires sigN > 0 ==> exists i :: 0 <= i < keyN && v(sigs[sigN - 1], keys[i])
    ensures VerifyFrom(v, sigs, keys, required, sigN, keyN, sigN)
        <==> required <= |sigs| && Greedy(v, sigs[sigN..required], keys[keyN..]) == required - sigN
    decreases |keys| - keyN
  {
    if sigN < required && keyN < |keys| && sigN < |sigs| {
      assert keys[keyN..][1..] == keys[keyN + 1..];
      if required <= |sigs| {
        assert sigs[sigN..required][1..] == sigs[sigN + 1..required];
      }
      if v(sigs[sigN], keys[keyN]) {
        VerifyFromIsGreedy(v, sigs, keys, required, sigN + 1, keyN + 1);
      } else {
        if sigN > 0 {
          var i :| 0 <= i < keyN && v(sigs[sigN - 1], keys[i]);
          assert sigs[sigN - 1] in sigs;
        }
        VerifyFromIsGreedy(v, sigs, keys, required, sigN, keyN + 1);
      }
    }
  }

  /** `Input.verify` accepts exactly when its first `required` signatures can be assigned to keys in
      order, provided no signature verifies at two key positions. */
  lemma InputVerifiesIff<S, K>(v: (S, K) -> bool, sigs: seq<S>, keys: seq<K>, required: nat)
    requires OneKeyEach(v, sigs, keys)
    ensures InputVerifies(v, sigs, keys, required)
        <==> sigs != [] && required <= |sigs| && Satisfies(v, sigs[..required], keys)
  {
    VerifyFromIsGreedy(v, sigs, keys, required, 0, 0);
    if required <= |sigs| {
      assert sigs[0..required] == sigs[..required] && keys[0..] == keys;
      GreedyIffSatisfies(v, sigs[..required], keys);
    }
  }

  /** From the first signature matched on, a second position for it counts it again. */
  lemma {:induction false} CountsAgain<S, K>(v: (S, K) -> bool, s: S, t: S, keys: seq<K>, keyN: nat, j: nat)
    requires keyN <= j < |keys| && v(s, keys[j]) && forall k :: 0 <= k < |keys| ==> !v(t, keys[k])
    ensures VerifyFrom(v, [s, t], keys, 2, 1, keyN, 1)
    decreases |keys| - keyN
  {
    if v(s, keys[keyN]) {
      assert VerifyFrom(v, [s, t], keys, 2, 1, keyN + 1, 2);
    } else {
      CountsAgain(v, s, t, keys, keyN + 1, j);
    }
  }

  lemma {:induction false} CountsTwice<S, K>(v: (S, K) -> bool, s: S, t: S, keys: seq<K>, keyN: nat, i: nat, j: nat)
    requires keyN <= i < j < |keys| && v(s, keys[i]) && v(s, keys[j])
    requires forall k :: 0 <= k < |keys| ==> !v(t, keys[k])
    ensures VerifyFrom(v, [s, t], keys, 2, 0, keyN, 0)
    decreases |keys| - keyN
  {
    if v(s, keys[keyN]) {
      CountsAgain(v, s, t, keys, keyN + 1, j);
    } else {
      CountsTwice(v, s, t, keys, keyN + 1, i, j);
    }
  }

  /** `Input.verify` means what it should for these signatures. */
  ghost predicate MeansAssignment<S, K>(v: (S, K) -> bool, sigs: seq<S>, keys: seq<K>, required: nat) {
    InputVerifies(v, sigs, keys, required)
    <==> sigs != [] && required <= |sigs| && Satisfies(v, sigs[..required], keys)
  }

  /** Trying the previous signature again is harmless for all lists of signatures exactly when no
      signature verifies at two positions of the keys, as one does when a key is listed twice. `t` is any
      signature that verifies under none of the keys. */
  lemma MeansAssignmentIff<S(!new), K>(v: (S, K) -> bool, keys: seq<K>, t: S)
    requires forall k :: 0 <= k < |keys| ==> !v(t, keys[k])
    ensures (forall sigs: seq<S>, required: nat :: MeansAssignment(v, sigs, keys, required))
            <==> (forall s: S :: OneKeyEach(v, [s], keys))
  {
    hide MeansAssignment;
    if forall s: S :: OneKeyEach(v, [s], keys) {
      forall sigs: seq<S>, required: nat
        ensures MeansAssignment(v, sigs, keys, required)
      {
        OneKeyForAll(v, sigs, keys);
        InputVerifiesIff(v, sigs, keys, required);
        MeansAssignmentIs(v, sigs, keys, required);
      }
    } else {
      var s: S :| !OneKeyEach(v, [s], keys);
      var i, j :| 0 <= i < j < |keys| && v(s, keys[i]) && v(s, keys[j]);
      DoubleCounted(v, s, t, keys, i, j);
    }
  }

  lemma MeansAssignmentIs<S, K>(v: (S, K) -> bool, sigs: seq<S>, keys: seq<K>, required: nat)
    ensures MeansAssignment(v, sigs, keys, required)
            <==> (InputVerifies(v, sigs, keys, required)
                  <==> sigs != [] && required <= |sigs| && Satisfies(v, sigs[..required], keys))
  {
  }

  lemma OneKeyForAll<S(!new), K>(v: (S, K) -> bool, sigs: seq<S>, keys: seq<K>)
    requires forall s: S :: OneKeyEach(v, [s], keys)
    ensures OneKeyEach(v, sigs, keys)
  {
    forall x, i, j | x in sigs && 0 <= i < j < |keys|
      ensures !(v(x, keys[i]) && v(x, keys[j]))
    {
      assert OneKeyEach(v, [x], keys);
      assert x in [x];
    }
  }

  /** A signature with two positions counts for two, although no assignment has a place for `t`. */
  lemma DoubleCounted<S, K>(v: (S, K) -> bool, s: S, t: S, keys: seq<K>, i: nat, j: nat)
    requires i < j < |keys| && v(s, keys[i]) && v(s, keys[j])
    requires forall k :: 0 <= k < |keys| ==> !v(t, keys[k])
    ensures InputVerifies(v, [s, t], keys, 2) && !Satisfies(v, [s, t], keys)
    ensures !MeansAssignment(v, [s, t], keys, 2)
  {
    CountsTwice(v, s, t, keys, 0, i, j);
    forall f: seq<nat> ensures !Embeds(v, [s, t], keys, f) {
      assert |f| == 2 && f[1] < |keys| ==> !v([s, t][1], keys[f[1]]);
    }
    assert [s, t][..2] == [s, t];
  }

  /** The two verifiers agree: the forward scan of the transaction input and the reverse scan of the
      script opcode accept the same signatures, the first `required` ones. */
  lemma VerifiersAgree<S, K>(parses: S -> bool, v: (S, K) -> bool, sigs: seq<S>, keys: seq<K>, required: nat)
    requires OneKeyEach(v, sigs, keys) && 1 <= required <= |sigs|
    requires forall x :: x in sigs ==> parses(x)
    ensures CheckKeys(parses, v, Reverse(sigs[..required]), Reverse(keys))
         == (InputVerifies(v, sigs, keys, required), false)
  {
    var used := sigs[..required];
    CheckKeysIsGreedy(parses, v, Reverse(used), Reverse(keys));
    GreedyIffSatisfies(v, Reverse(used), Reverse(keys));
    ReverseSatisfies(v, used, keys);
    InputVerifiesIff(v, sigs, keys, required);
  }
}
