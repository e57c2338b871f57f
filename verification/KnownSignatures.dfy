/** The signatures that an input holds before a call of `sign`, when some of them have no key.
  *
  * Signatures that are read from a script carry no key. The first loop of the merge places signatures by their
  * keys and ends at the first one without a key; the second loop then inserts all of them again, from the first on,
  * into the slots that are left.
  */
module KnownSignatures {
  import opened Cosign
  import opened Multisig
  import opened Wrappers

  // ---------------------------------------------------------------- counting slots

  function FreeSlots<P, X>(slots: Slots<P, X>): nat {
    if slots == [] then 0 else (if slots[0].None? then 1 else 0) + FreeSlots(slots[1..])
  }

  /** A list holds the new signatures and all the known ones, each as often as they do. */
  ghost predicate Keeps<S>(sigs: seq<S>, added: seq<S>, known: seq<S>) {
    multiset(sigs) == multiset(added) + multiset(known)
  }

  lemma KeepsBoth<S>(sigs: seq<S>, between: seq<S>, added: seq<S>, first: seq<S>, later: seq<S>)
    requires Keeps(between, added, first) && Keeps(sigs, between, later)
    ensures Keeps(sigs, added, first + later)
  {
  }

  lemma KeepsNone<S>(sigs: seq<S>)
    ensures Keeps(sigs, sigs, [])
  {
  }

  /** Filling a free slot leaves one less and keeps every signature. */
  lemma {:induction false} FillOne<P, X>(slots: Slots<P, X>, i: nat, s: Sig<P, X>)
    requires i < |slots| && slots[i].None?
    ensures FreeSlots(slots[i := Some(s)]) == FreeSlots(slots) - 1
    ensures Keeps(Compact(slots[i := Some(s)]), Compact(slots), [s])
  {
    var after := slots[i := Some(s)];
    if i == 0 {
      assert after[1..] == slots[1..];
    } else {
      assert after[1..] == slots[1..][i - 1 := Some(s)];
      FillOne(slots[1..], i - 1, s);
    }
  }

  lemma {:induction false} NoneFree<P, X>(slots: Slots<P, X>)
    ensures FirstFree(slots) == |slots| <==> FreeSlots(slots) == 0
  {
    if slots != [] {
      NoneFree(slots[1..]);
    }
  }

  function Min(a: nat, b: nat): nat {
    if a < b then a else b
  }

  /** The second loop inserts as many as there are free slots, from the first on. */
  lemma {:induction false} FillFreeKeeps<P, X>(known: seq<Sig<P, X>>, slots: Slots<P, X>)
    ensures Keeps(Compact(FillFree(known, slots)), Compact(slots), known[..Min(|known|, FreeSlots(slots))])
    decreases |known|
  {
    hide Keeps, Compact;
    var n := Min(|known|, FreeSlots(slots));
    NoneFree(slots);
    var i := FirstFree(slots);
    if known == [] {
      KeepsNone(Compact(slots));
    } else if i < |slots| {
      FillOne(slots, i, known[0]);
      var after := slots[i := Some(known[0])];
      FillFreeKeeps(known[1..], after);
      KeepsBoth(Compact(FillFree(known, slots)), Compact(after), Compact(slots), [known[0]], known[1..][..n - 1]);
      assert known[..n] == [known[0]] + known[1..][..n - 1];
    } else {
      FillFreeKeeps(known[1..], slots);
      assert known[..n] == known[1..][..0] == [];
    }
  }

  // ---------------------------------------------------------------- none lost, none twice

  /** How many of them stand in front of the first one without a key. */
  function Keyed<P, X>(known: seq<Sig<P, X>>): (n: nat)
    ensures n <= |known| && forall i :: 0 <= i < n ==> known[i].pub.Some?
    ensures n < |known| ==> known[n].pub.None?
  {
    if known == [] || known[0].pub.None? then 0 else 1 + Keyed(known[1..])
  }

  /** Signatures with different keys, the slots of which are free. */
  ghost predicate HaveSlots<P, X>(pubs: seq<P>, known: seq<Sig<P, X>>, slots: Slots<P, X>)
    requires |slots| == |pubs|
  {
    && (forall i :: 0 <= i < |known| ==> HasSlot(pubs, known[i], slots))
    && forall i, j :: 0 <= i < j < |known| ==> known[i].pub != known[j].pub
  }

  predicate HasSlot<P(==), X>(pubs: seq<P>, s: Sig<P, X>, slots: Slots<P, X>)
    requires |slots| == |pubs|
  {
    s.pub.Some? && s.pub.value in pubs && slots[IndexOf(pubs, s.pub.value)].None?
  }

  /** The known signatures that the first loop places. */
  function Placed<P(==), X>(pubs: seq<P>, known: seq<Sig<P, X>>, slots: Slots<P, X>): (r: seq<Sig<P, X>>)
    requires |slots| == |pubs|
    ensures |r| <= |known|
  {
    if known == [] || known[0].pub == None || known[0].pub.value !in pubs then []
    else
      var pos := IndexOf(pubs, known[0].pub.value);
      if slots[pos] == None then [known[0]] + Placed(pubs, known[1..], slots[pos := Some(known[0])])
      else Placed(pubs, known[1..], slots)
  }

  /** The keys in front of the first signature without one are keys of the input. */
  predicate KeysAreKnown<P(==), X>(pubs: seq<P>, known: seq<Sig<P, X>>) {
    forall i :: 0 <= i < Keyed(known) ==> known[i].pub.value in pubs
  }

  lemma PlaceNext<P, X>(pubs: seq<P>, known: seq<Sig<P, X>>, slots: Slots<P, X>, left: int)
    requires |slots| == |pubs| && KeysAreKnown(pubs, known) && Keyed(known) > 0
    ensures KeysAreKnown(pubs, known[1..])
    ensures known[0].pub.value in pubs
    ensures var pos := IndexOf(pubs, known[0].pub.value);
            var after := slots[pos := Some(known[0])];
            if slots[pos] == None then
              && PlaceKnown(pubs, known, slots, left) == PlaceKnown(pubs, known[1..], after, left - 1)
              && Placed(pubs, known, slots) == [known[0]] + Placed(pubs, known[1..], after)
            else
              && PlaceKnown(pubs, known, slots, left) == PlaceKnown(pubs, known[1..], slots, left)
              && Placed(pubs, known, slots) == Placed(pubs, known[1..], slots)
  {
    assert Keyed(known) == 1 + Keyed(known[1..]);
    assert forall i :: 0 <= i < Keyed(known[1..]) ==> known[1..][i] == known[i + 1];
  }

  lemma PlaceNone<P, X>(pubs: seq<P>, known: seq<Sig<P, X>>, slots: Slots<P, X>, left: int)
    requires |slots| == |pubs| && Keyed(known) == 0
    ensures PlaceKnown(pubs, known, slots, left) == Some((slots, left)) && Placed(pubs, known, slots) == []
  {
  }

  lemma {:induction false} PlaceRaisesIff<P, X>(pubs: seq<P>, known: seq<Sig<P, X>>, slots: Slots<P, X>, left: int)
    requires |slots| == |pubs|
    ensures PlaceKnown(pubs, known, slots, left) == None <==> !KeysAreKnown(pubs, known)
    decreases |known|
  {
    if Keyed(known) > 0 {
      assert forall i :: 0 <= i < Keyed(known[1..]) ==> known[1..][i] == known[i + 1];
      assert KeysAreKnown(pubs, known) <==> known[0].pub.value in pubs && KeysAreKnown(pubs, known[1..]) by {
        assert forall i :: 0 < i < Keyed(known) ==> known[i] == known[1..][i - 1];
      }
      if known[0].pub.value in pubs {
        var pos := IndexOf(pubs, known[0].pub.value);
        PlaceRaisesIff(pubs, known[1..], slots[pos := Some(known[0])], left - 1);
        PlaceRaisesIff(pubs, known[1..], slots, left);
      }
    }
  }

  lemma {:induction false} PlaceKeyed<P, X>(pubs: seq<P>, known: seq<Sig<P, X>>, slots: Slots<P, X>, left: int)
    requires |slots| == |pubs| && KeysAreKnown(pubs, known)
    ensures var r, placed := PlaceKnown(pubs, known, slots, left), Placed(pubs, known, slots);
            && r.Some? && r.value.1 == left - |placed|
            && FreeSlots(r.value.0) == FreeSlots(slots) - |placed|
            && Keeps(Compact(r.value.0), Compact(slots), placed)
    decreases |known|
  {
    hide *;
    if Keyed(known) == 0 {
      PlaceNone(pubs, known, slots, left);
      KeepsNone(Compact(slots));
    } else {
      PlaceNext(pubs, known, slots, left);
      var pos := IndexOf(pubs, known[0].pub.value);
      if slots[pos] == None {
        FillOne(slots, pos, known[0]);
        var after := slots[pos := Some(known[0])];
        PlaceKeyed(pubs, known[1..], after, left - 1);
        var result := PlaceKnown(pubs, known[1..], after, left - 1).value.0;
        KeepsBoth(Compact(result), Compact(after), Compact(slots), [known[0]], Placed(pubs, known[1..], after));
      } else {
        PlaceKeyed(pubs, known[1..], slots, left);
      }
    }
  }

  /** All are placed exactly when they have different keys, all of them with free slots. */
  lemma {:induction false} AllPlacedIff<P, X>(pubs: seq<P>, known: seq<Sig<P, X>>, slots: Slots<P, X>)
    requires |slots| == |pubs|
    ensures |Placed(pubs, known, slots)| == |known| <==> HaveSlots(pubs, known, slots)
    ensures |Placed(pubs, known, slots)| == |known| ==> Placed(pubs, known, slots) == known
    decreases |known|
  {
    if known != [] {
      if HaveSlots(pubs, known, slots) {
        assert HasSlot(pubs, known[0], slots);
      }
      if HasSlot(pubs, known[0], slots) {
        AllPlacedIff(pubs, known[1..], slots[IndexOf(pubs, known[0].pub.value) := Some(known[0])]);
        SlotsOfRest(pubs, known, slots);
      }
    }
  }

  lemma SlotsOfRest<P, X>(pubs: seq<P>, known: seq<Sig<P, X>>, slots: Slots<P, X>)
    requires |slots| == |pubs| && known != [] && HasSlot(pubs, known[0], slots)
    ensures HaveSlots(pubs, known, slots)
            <==> HaveSlots(pubs, known[1..], slots[IndexOf(pubs, known[0].pub.value) := Some(known[0])])
  {
    var after := slots[IndexOf(pubs, known[0].pub.value) := Some(known[0])];
    forall i | 0 < i < |known|
      ensures HasSlot(pubs, known[1..][i - 1], after)
              <==> HasSlot(pubs, known[i], slots) && known[i].pub != known[0].pub
    {
      assert known[1..][i - 1] == known[i];
    }
    if HaveSlots(pubs, known[1..], after) {
      forall i | 0 < i < |known|
        ensures HasSlot(pubs, known[i], slots) && known[i].pub != known[0].pub
      {
        assert HasSlot(pubs, known[1..][i - 1], after);
      }
      forall i, j | 0 < i < j < |known|
        ensures known[i].pub != known[j].pub
      {
        assert known[1..][i - 1].pub != known[1..][j - 1].pub;
      }
    }
  }

  /** What the merge returns: the new signatures, those placed by key and, unless these are all, as many as fit
      of the whole list once more. */
  lemma MergeIs<P, X>(pubs: seq<P>, known: seq<Sig<P, X>>, slots: Slots<P, X>)
    requires |slots| == |pubs| && KeysAreKnown(pubs, known)
    ensures |Placed(pubs, known, slots)| <= FreeSlots(slots)
    ensures var r, placed := Merge(pubs, known, slots), Placed(pubs, known, slots);
            && r.Signed?
            && Keeps(r.sigs, Compact(slots), placed + known[..Again(|known|, |placed|, FreeSlots(slots))])
  {
    hide KeysAreKnown, Compact, Keeps, PlaceKnown, Placed;
    PlaceKeyed(pubs, known, slots, |known|);
    var placed, after := Placed(pubs, known, slots), PlaceKnown(pubs, known, slots, |known|).value.0;
    FillFreeKeeps(known, after);
    var merged := Compact(if |placed| == |known| then after else FillFree(known, after));
    assert Merge(pubs, known, slots) == Signed(merged);
    var again := Again(|known|, |placed|, FreeSlots(slots));
    KeepsNone(Compact(after));
    assert known[..0] == [];
    KeepsBoth(merged, Compact(after), Compact(slots), placed, known[..again]);
  }

  /** How many the second loop inserts. */
  function Again(known: nat, placed: nat, free: nat): (n: nat)
    requires placed <= free
    ensures n <= known
  {
    if placed == known then 0 else Min(known, free - placed)
  }

  lemma Cancel<S>(c: multiset<S>, a: multiset<S>, b: multiset<S>)
    ensures c + a == c + b <==> a == b
  {
    if c + a == c + b {
      assert forall x :: (c + a)[x] == c[x] + a[x] && (c + b)[x] == c[x] + b[x];
    }
  }

  lemma FirstTwice<S>(known: seq<S>, placed: seq<S>, again: nat)
    requires 0 < again <= |known| && known[0] in placed && known[0] !in known[1..]
    ensures multiset(placed + known[..again]) != multiset(known)
  {
    var first := known[0];
    assert known == [first] + known[1..];
    assert multiset(known)[first] == 1;
    assert known[..again][0] == first;
    assert first in multiset(known[..again]) && first in multiset(placed);
    assert multiset(placed + known[..again])[first] == multiset(placed)[first] + multiset(known[..again])[first];
  }

  lemma KeptWhen<S>(sigs: seq<S>, added: seq<S>, known: seq<S>, placed: seq<S>, free: nat)
    requires |placed| <= |known| && |placed| <= free && (known == [] || known[0] !in known[1..])
    requires (placed != [] ==> known[0] in placed) && (|placed| == |known| ==> placed == known)
    requires Keeps(sigs, added, placed + known[..Again(|known|, |placed|, free)])
    ensures Keeps(sigs, added, known) <==> |known| <= free && (placed == [] || |placed| == |known|)
  {
    var again := Again(|known|, |placed|, free);
    assert known[..|known|] == known && known[..0] == [];
    assert [] + known == known && known + [] == known;
    Cancel(multiset(added), multiset(placed + known[..again]), multiset(known));
    if 0 < |placed| < |known| && again > 0 {
      FirstTwice(known, placed, again);
    } else if |placed| < |known| {
      assert |multiset(placed + known[..again])| == |placed| + again && |multiset(known)| == |known|;
    }
  }

  /** The loop over the keys leaves the slots of those who have signed alone. */
  lemma {:induction false} CollectLeavesFree<M, P, X>(
    make: (M, P) -> X, m: M, pubs: seq<P>, known: seq<Sig<P, X>>, failOnUnknown: bool, keys: seq<Key<P>>,
    slots: Slots<P, X>, count: nat, p: P)
    requires |slots| == |pubs| && p in pubs && HasSigned(known, p) && slots[IndexOf(pubs, p)].None?
    ensures var r := Collect(make, m, pubs, known, failOnUnknown, keys, slots, count);
            r.Collected? ==> r.slots[IndexOf(pubs, p)].None?
    decreases |keys|
  {
    hide IndexOf, HasSigned;
    if keys != [] {
      var key := keys[0];
      if key.pub !in pubs {
        CollectLeavesFree(make, m, pubs, known, failOnUnknown, keys[1..], slots, count, p);
      } else if !HasSigned(known, key.pub) {
        var after := slots[IndexOf(pubs, key.pub) := Some(NewSig(make, m, key.pub))];
        CollectLeavesFree(make, m, pubs, known, failOnUnknown, keys[1..], after, count + 1, p);
      }
    }
  }

  /** The slots that a call fills with new signatures; None when it raises or signs nothing. */
  function NewSlots<M, P(==), X>(make: (M, P) -> X, m: M, keys: seq<Key<P>>, known: seq<Sig<P, X>>, given: seq<Key<P>>,
                             failOnUnknown: bool): (r: Option<Slots<P, X>>)
    ensures r.Some? ==> |r.value| == |InputKeys(given, keys)|
  {
    var pubs := PubKeys(InputKeys(given, keys));
    match Collect(make, m, pubs, known, failOnUnknown, SigningKeys(given, keys), Free(|pubs|), 0)
    case Failed => None
    case Collected(slots, count) => if count == 0 then None else Some(slots)
  }

  lemma FirstHasSlot<M, P, X>(make: (M, P) -> X, m: M, keys: seq<Key<P>>, known: seq<Sig<P, X>>, given: seq<Key<P>>,
                              failOnUnknown: bool)
    requires NewSlots(make, m, keys, known, given, failOnUnknown).Some?
    requires Keyed(known) > 0 && KeysAreKnown(PubKeys(InputKeys(given, keys)), known)
    ensures HasSlot(PubKeys(InputKeys(given, keys)), known[0], NewSlots(make, m, keys, known, given, failOnUnknown).value)
  {
    hide Collect, IndexOf, SigningKeys, InputKeys;
    var pubs := PubKeys(InputKeys(given, keys));
    var p := known[0].pub.value;
    assert known[0].pub == Some(p);
    CollectLeavesFree(make, m, pubs, known, failOnUnknown, SigningKeys(given, keys), Free(|pubs|), 0, p);
  }

  /** A call that signs raises exactly when a known signature in front of the first one without a key has a key
      that is not one of the input's. Otherwise it keeps all the signatures the input has, each once, exactly when
      there are slots for all and the first of them has no key, or else all of them have, and different ones. Known
      signatures of both kinds, the first of them with a key, are never merged without loss: the first one comes
      twice, or another one finds no slot. */
  lemma KnownAreKeptIff<M, P, X>(make: (M, P) -> X, m: M, keys: seq<Key<P>>, known: seq<Sig<P, X>>, given: seq<Key<P>>,
                                 failOnUnknown: bool)
    requires NewSlots(make, m, keys, known, given, failOnUnknown).Some?
    requires known == [] || known[0] !in known[1..]
    ensures var pubs := PubKeys(InputKeys(given, keys));
            var slots := NewSlots(make, m, keys, known, given, failOnUnknown).value;
            var r := SignInput(make, Some(m), false, keys, known, given, failOnUnknown);
            && (r.Signed? <==> KeysAreKnown(pubs, known))
            && (r.Signed? ==>
                  (Keeps(r.sigs, Compact(slots), known)
                   <==> |known| <= FreeSlots(slots) && (Keyed(known) == 0 || HaveSlots(pubs, known, slots))))
  {
    hide Compact, FreeSlots, HaveSlots, PlaceKnown, FillFree, Keeps, KeysAreKnown, Collect;
    var pubs := PubKeys(InputKeys(given, keys));
    var slots := NewSlots(make, m, keys, known, given, failOnUnknown).value;
    PlaceRaisesIff(pubs, known, slots, |known|);
    if !KeysAreKnown(pubs, known) {
      return;
    }
    MergeIs(pubs, known, slots);
    AllPlacedIff(pubs, known, slots);
    if Keyed(known) > 0 {
      FirstHasSlot(make, m, keys, known, given, failOnUnknown);
      assert Placed(pubs, known, slots)[0] == known[0];
    } else {
      PlaceNone(pubs, known, slots, 0);
    }
    KeptWhen(Merge(pubs, known, slots).sigs, Compact(slots), known, Placed(pubs, known, slots), FreeSlots(slots));
  }

  function Public<P>(ps: seq<P>): (keys: seq<Key<P>>)
    ensures |keys| == |ps| && forall i :: 0 <= i < |ps| ==> keys[i] == Key(ps[i], false)
  {
    seq(|ps|, i requires 0 <= i < |ps| => Key(ps[i], false))
  }

  lemma PublicKeys<P>(ps: seq<P>)
    ensures PubKeys(Public(ps)) == ps && ArePublic(Public(ps))
  {
  }

  // ---------------------------------------------------------------- one call on a keyless list

  function WithoutKeys<P, X>(sigs: seq<Sig<P, X>>): (r: seq<Sig<P, X>>)
    ensures |r| == |sigs| && forall i :: 0 <= i < |sigs| ==> r[i] == Sig(None, sigs[i].body)
    ensures Bodies(r) == Bodies(sigs)
  {
    seq(|sigs|, i requires 0 <= i < |sigs| => Sig(None, sigs[i].body))
  }

  /** The free slots filled from the front. */
  function Fill<P, X>(known: seq<Sig<P, X>>, slots: Slots<P, X>): Slots<P, X> {
    if slots == [] then []
    else if slots[0].Some? then [slots[0]] + Fill(known, slots[1..])
    else if known == [] then slots
    else [Some(known[0])] + Fill(known[1..], slots[1..])
  }

  lemma {:induction false} FillNext<P, X>(known: seq<Sig<P, X>>, slots: Slots<P, X>)
    requires known != []
    ensures var i := FirstFree(slots);
            Fill(known[1..], if i < |slots| then slots[i := Some(known[0])] else slots) == Fill(known, slots)
  {
    if slots != [] && slots[0].Some? {
      FillNext(known, slots[1..]);
      var i := FirstFree(slots[1..]);
      if i < |slots[1..]| {
        assert slots[i + 1 := Some(known[0])][1..] == slots[1..][i := Some(known[0])];
      }
    }
  }

  lemma {:induction false} FillNothing<P, X>(slots: Slots<P, X>)
    ensures Fill([], slots) == slots
  {
    if slots != [] {
      FillNothing(slots[1..]);
    }
  }

  /** Filling one after the other is filling from the front. */
  lemma {:induction false} FillFreeIsFill<P, X>(known: seq<Sig<P, X>>, slots: Slots<P, X>)
    ensures FillFree(known, slots) == Fill(known, slots)
    decreases |known|
  {
    if known == [] {
      FillNothing(slots);
    } else {
      var i := FirstFree(slots);
      FillNext(known, slots);
      FillFreeIsFill(known[1..], if i < |slots| then slots[i := Some(known[0])] else slots);
    }
  }

  lemma {:induction false} FillAllFree<P, X>(known: seq<Sig<P, X>>, n: nat)
    ensures Compact(Fill(known, Free(n))) == known[..Min(n, |known|)]
    decreases n
  {
    if n > 0 {
      assert Free<P, X>(n)[1..] == Free<P, X>(n - 1);
      if known == [] {
        FillNothing<P, X>(Free(n));
        FillAllFree(known, n - 1);
        FillNothing<P, X>(Free(n - 1));
      } else {
        FillAllFree(known[1..], n - 1);
        assert known[..Min(n, |known|)] == [known[0]] + known[1..][..Min(n - 1, |known| - 1)];
      }
    }
  }

  /** Known ones around one that has its slot already: in front of it as many as there are slots, the rest behind
      it as far as there are slots. */
  function Around<S>(known: seq<S>, n: nat, at: nat, s: S): (r: seq<S>)
    requires at < n
    ensures s in r && |r| == Min(n, |known| + 1)
  {
    var a, b := Min(at, |known|), Min(|known|, n - 1);
    known[..a] + [s] + known[a..b]
  }

  lemma AroundNext<S>(known: seq<S>, n: nat, at: nat, s: S)
    requires at < n
    ensures at == 0 ==> Around(known, n, at, s) == [s] + known[..Min(n - 1, |known|)]
    ensures at > 0 ==> Around(known, n, at, s)
                       == if known == [] then [s] else [known[0]] + Around(known[1..], n - 1, at - 1, s)
  {
    if at > 0 && known != [] {
      var a, b := Min(at, |known|), Min(|known|, n - 1);
      assert known[..a] == [known[0]] + known[1..][..a - 1] && known[a..b] == known[1..][a - 1..b - 1];
    }
  }

  lemma {:induction false} FillAround<P, X>(known: seq<Sig<P, X>>, n: nat, at: nat, s: Sig<P, X>)
    requires at < n
    ensures Compact(Fill(known, Free(n)[at := Some(s)])) == Around(known, n, at, s)
    decreases n
  {
    hide Around;
    AroundNext(known, n, at, s);
    var slots := Free(n)[at := Some(s)];
    if at == 0 {
      assert slots[1..] == Free(n - 1);
      FillAllFree(known, n - 1);
    } else {
      assert slots[1..] == Free(n - 1)[at - 1 := Some(s)];
      if known == [] {
        FillAround(known, n - 1, at - 1, s);
        AroundNext(known, n - 1, at - 1, s);
        FillNothing(slots);
        FillNothing(slots[1..]);
      } else {
        FillAround(known[1..], n - 1, at - 1, s);
      }
    }
  }

  /** A call with one private key on a list without keys: the new signature stands behind as many of the known
      ones as there are slots in front of its own. */
  lemma KeylessCall<M, P, X>(make: (M, P) -> X, m: M, ps: seq<P>, known: seq<Sig<P, X>>, p: P)
    requires Distinct(ps) && p in ps && Keyed(known) == 0 && !HasSigned(known, p)
    ensures SignInput(make, Some(m), false, Public(ps), known, [Key(p, true)], true)
            == Signed(Around(known, |ps|, IndexOf(ps, p), NewSig(make, m, p)))
  {
    hide Around;
    var given, keys, s := [Key(p, true)], Public(ps), NewSig(make, m, p);
    PublicKeys(ps);
    NoPrivateKeys(given, keys);
    var slots := Free(|ps|)[IndexOf(ps, p) := Some(s)];
    assert given[1..] == [];
    assert Collect(make, m, ps, known, true, given, Free(|ps|), 0) == Collected(slots, 1);
    assert known != [] ==> known[0].pub == None;
    FillFreeIsFill(known, slots);
    FillAround(known, |ps|, IndexOf(ps, p), s);
    FillNothing(slots);
  }

  // ---------------------------------------------------------------- the order of a keyless list

  lemma {:induction false} InOrderSplit<M, P, X>(make: (M, P) -> X, m: M, ps: seq<P>, signers: set<P>, i: nat)
    requires i <= |ps|
    ensures InOrder(make, m, ps, signers) == InOrder(make, m, ps[..i], signers) + InOrder(make, m, ps[i..], signers)
  {
    if i > 0 {
      assert ps[1..][..i - 1] == ps[..i][1..] && ps[1..][i - 1..] == ps[i..];
      InOrderSplit(make, m, ps[1..], signers, i - 1);
    }
  }

  lemma {:induction false} InOrderBounds<M, P, X>(make: (M, P) -> X, m: M, ps: seq<P>, signers: set<P>)
    ensures var k := |InOrder(make, m, ps, signers)|;
            && k <= |ps|
            && (k == |ps| <==> forall i :: 0 <= i < |ps| ==> ps[i] in signers)
            && (k == 0 <==> forall i :: 0 <= i < |ps| ==> ps[i] !in signers)
  {
    if ps != [] {
      InOrderBounds(make, m, ps[1..], signers);
      assert forall i :: 0 < i < |ps| ==> ps[i] == ps[1..][i - 1];
    }
  }

  /** What a list of signers holds in front of a position and behind it. */
  lemma InOrderAround<M, P, X>(make: (M, P) -> X, m: M, ps: seq<P>, signers: set<P>, at: nat)
    requires Distinct(ps) && at < |ps| && ps[at] !in signers
    ensures var front, back := InOrder(make, m, ps[..at], signers), InOrder(make, m, ps[at + 1..], signers);
            && InOrder(make, m, ps, signers) == front + back
            && InOrder(make, m, ps, signers + {ps[at]}) == front + [NewSig(make, m, ps[at])] + back
  {
    hide *;
    var p := ps[at];
    InOrderAt(make, m, ps, signers, at);
    InOrderAt(make, m, ps, signers + {p}, at);
    WithoutOthers(make, m, ps[..at], signers, p);
    WithoutOthers(make, m, ps[at + 1..], signers, p);
    NotElsewhere(ps, at);
  }

  lemma NotElsewhere<P>(ps: seq<P>, at: nat)
    requires Distinct(ps) && at < |ps|
    ensures ps[at] !in ps[..at] && ps[at] !in ps[at + 1..]
  {
  }

  lemma WithoutOthers<M, P, X>(make: (M, P) -> X, m: M, ps: seq<P>, signers: set<P>, p: P)
    ensures p !in ps ==> InOrder(make, m, ps, signers + {p}) == InOrder(make, m, ps, signers)
  {
    if p !in ps {
      SameInOrder(make, m, ps, signers + {p}, p);
      SameInOrder(make, m, ps, signers, p);
      assert signers + {p} - {p} == signers - {p};
    }
  }

  lemma InOrderAt<M, P, X>(make: (M, P) -> X, m: M, ps: seq<P>, signers: set<P>, at: nat)
    requires at < |ps|
    ensures InOrder(make, m, ps, signers)
            == InOrder(make, m, ps[..at], signers)
               + (if ps[at] in signers then [NewSig(make, m, ps[at])] else [])
               + InOrder(make, m, ps[at + 1..], signers)
  {
    InOrderSplit(make, m, ps, signers, at);
    assert ps[at..][1..] == ps[at + 1..] && ps[at..][0] == ps[at];
  }

  lemma AroundKeepsIff<S>(front: seq<S>, back: seq<S>, n: nat, at: nat, s: S)
    requires |front| <= at < n && |front| + |back| < n && s !in front + back
    ensures Around(front + back, n, at, s) == front + [s] + back <==> |front| == at || back == []
  {
    var v := front + back;
    var a := Min(at, |v|);
    if a > |front| {
      assert Around(v, n, at, s)[|front|] == v[|front|];
      assert v[|front|] in v;
    } else {
      assert v[..a] == front && v[a..|v|] == back;
    }
  }

  lemma BodiesAround<P, X>(known: seq<Sig<P, X>>, n: nat, at: nat, s: Sig<P, X>)
    requires at < n
    ensures Bodies(Around(known, n, at, s)) == Around(Bodies(known), n, at, s.body)
  {
  }

  /** All keys in front of that of `p` have signed, or none behind it has. */
  ghost predicate StandsRight<P>(ps: seq<P>, signers: set<P>, p: P)
    requires p in ps
  {
    || (forall i :: 0 <= i < IndexOf(ps, p) ==> ps[i] in signers)
    || (forall i :: IndexOf(ps, p) < i < |ps| ==> ps[i] !in signers)
  }

  lemma StandsRightIff<M, P, X>(make: (M, P) -> X, m: M, ps: seq<P>, signers: set<P>, p: P)
    requires p in ps
    ensures var at := IndexOf(ps, p);
            StandsRight(ps, signers, p)
            <==> |InOrder(make, m, ps[..at], signers)| == at || InOrder(make, m, ps[at + 1..], signers) == []
  {
    var at := IndexOf(ps, p);
    InOrderBounds(make, m, ps[..at], signers);
    InOrderBounds(make, m, ps[at + 1..], signers);
    assert forall i :: at < i < |ps| ==> ps[i] == ps[at + 1..][i - at - 1];
  }

  /** The signatures of a set of signers as a script gives them: in key order and without their keys. */
  function FromScript<M, P, X>(make: (M, P) -> X, m: M, ps: seq<P>, signers: set<P>): seq<Sig<P, X>> {
    WithoutKeys(InOrder(make, m, ps, signers))
  }

  /** What the call of one more signer makes of them. */
  function SignedNext<M, P, X>(make: (M, P) -> X, m: M, ps: seq<P>, signers: set<P>, p: P): Outcome<P, X> {
    SignInput(make, Some(m), false, Public(ps), FromScript(make, m, ps, signers), [Key(p, true)], true)
  }

  lemma SignedNextIs<M, P, X>(make: (M, P) -> X, m: M, ps: seq<P>, signers: set<P>, p: P)
    requires Distinct(ps) && p in ps
    ensures var r := SignedNext(make, m, ps, signers, p);
            && r.Signed?
            && Bodies(r.sigs) == Around(Bodies(InOrder(make, m, ps, signers)), |ps|, IndexOf(ps, p), make(m, p))
  {
    hide InOrder, SignInput, Around, Distinct, IndexOf;
    var known := FromScript(make, m, ps, signers);
    KeylessCall(make, m, ps, known, p);
    BodiesAround(known, |ps|, IndexOf(ps, p), NewSig(make, m, p));
  }

  lemma NotSignedBody<M, P, X>(
    make: (M, P) -> X, m: M, w: (X, P) -> bool, pubs: seq<P>, ps: seq<P>, signers: set<P>, p: P)
    requires OwnKeyOnly(make, m, w, pubs) && p in pubs && p !in signers && forall q :: q in ps ==> q in pubs
    ensures make(m, p) !in Bodies(InOrder(make, m, ps, signers))
  {
    var sigs := InOrder(make, m, ps, signers);
    forall i | 0 <= i < |sigs|
      ensures sigs[i].body != make(m, p)
    {
      InOrderMembers(make, m, ps, signers, sigs[i]);
      var q :| q in ps && q in signers && sigs[i] == NewSig(make, m, q);
      assert IsOwn(make, m, w, q, p) && IsOwn(make, m, w, p, p);
    }
  }

  /** One more signer leaves a keyless list in key order exactly when all keys in front of its own have signed or
      none behind it has. */
  lemma KeylessOrderIff<M, P, X>(make: (M, P) -> X, m: M, w: (X, P) -> bool, ps: seq<P>, signers: set<P>, p: P)
    requires Distinct(ps) && OwnKeyOnly(make, m, w, ps) && p in ps && p !in signers
    ensures var r := SignedNext(make, m, ps, signers, p);
            && r.Signed?
            && (Bodies(r.sigs) == Bodies(InOrder(make, m, ps, signers + {p})) <==> StandsRight(ps, signers, p))
  {
    hide InOrder, SignedNext, Around, Distinct, IndexOf, OwnKeyOnly, StandsRight;
    var at, x := IndexOf(ps, p), make(m, p);
    SignedNextIs(make, m, ps, signers, p);
    InOrderAround(make, m, ps, signers, at);
    StandsRightIff(make, m, ps, signers, p);
    var front, back := InOrder(make, m, ps[..at], signers), InOrder(make, m, ps[at + 1..], signers);
    InOrderBounds(make, m, ps[..at], signers);
    InOrderBounds(make, m, ps[at + 1..], signers);
    NotSignedBody(make, m, w, ps, ps, signers, p);
    assert Bodies(front + back) == Bodies(front) + Bodies(back);
    assert Bodies(front + [NewSig(make, m, p)] + back) == Bodies(front) + [x] + Bodies(back);
    AroundKeepsIff(Bodies(front), Bodies(back), |ps|, at, x);
  }

  /** Signatures that can be assigned stand in the order of their keys. */
  lemma AssignedInOrder<M, P, X>(make: (M, P) -> X, m: M, w: (X, P) -> bool, ps: seq<P>, sigs: seq<X>, i: nat, j: nat,
                                 p: P, q: P)
    requires Distinct(ps) && OwnKeyOnly(make, m, w, ps) && p in ps && q in ps && Satisfies(w, sigs, ps)
    requires i < j < |sigs| && sigs[i] == make(m, p) && sigs[j] == make(m, q)
    ensures IndexOf(ps, p) < IndexOf(ps, q)
  {
    var f :| Embeds(w, sigs, ps, f);
    assert IsOwn(make, m, w, p, ps[f[i]]) && IsOwn(make, m, w, q, ps[f[j]]);
    IndexIs(ps, f[i]);
    IndexIs(ps, f[j]);
  }

  lemma FrontEmbeds<M, P, X>(
    make: (M, P) -> X, m: M, w: (X, P) -> bool, ps: seq<P>, signers: set<P>, sigs: seq<X>, k: nat)
    requires OwnKeyOnly(make, m, w, ps) && k <= |sigs| && k <= |InOrder(make, m, ps, signers)|
    requires sigs[..k] == Bodies(InOrder(make, m, ps, signers))[..k]
    ensures Satisfies(w, sigs[..k], ps)
  {
    var f := InOrderEmbeds(make, m, w, ps, signers);
    assert Embeds(w, sigs[..k], ps, f[..k]);
  }

  lemma AroundOwnBodies<M, P, X>(make: (M, P) -> X, m: M, ps: seq<P>, signers: set<P>, p: P, x: X)
    requires p in ps
    requires x in Around(Bodies(InOrder(make, m, ps, signers)), |ps|, IndexOf(ps, p), make(m, p))
    ensures exists q :: q in ps && x == make(m, q)
  {
    var sigs := InOrder(make, m, ps, signers);
    if x != make(m, p) {
      assert x in Bodies(sigs);
      var i :| 0 <= i < |sigs| && sigs[i].body == x;
      InOrderMembers(make, m, ps, signers, sigs[i]);
    }
  }

  lemma AroundOneKey<M, P, X>(make: (M, P) -> X, m: M, w: (X, P) -> bool, ps: seq<P>, signers: set<P>, p: P)
    requires Distinct(ps) && OwnKeyOnly(make, m, w, ps) && p in ps
    ensures OneKeyEach(w, Around(Bodies(InOrder(make, m, ps, signers)), |ps|, IndexOf(ps, p), make(m, p)), ps)
  {
    hide *;
    var sigs := Around(Bodies(InOrder(make, m, ps, signers)), |ps|, IndexOf(ps, p), make(m, p));
    forall x | x in sigs
      ensures exists q :: q in ps && x == make(m, q)
    {
      AroundOwnBodies(make, m, ps, signers, p, x);
    }
    OwnBodiesOneKey(make, m, w, ps, sigs);
  }

  /** Where the new signature stands too late, the one in its place is of a key behind its own. */
  lemma LateSigner<M, P, X>(make: (M, P) -> X, m: M, ps: seq<P>, signers: set<P>, p: P) returns (i: nat, q: P)
    requires Distinct(ps) && p in ps && p !in signers && !StandsRight(ps, signers, p)
    ensures var sigs := Bodies(InOrder(make, m, ps, signers));
            var at := IndexOf(ps, p);
            && i < at && i < |sigs| && q in ps && at < IndexOf(ps, q) && sigs[i] == make(m, q)
  {
    hide InOrder, Distinct, StandsRight, IndexOf;
    var at := IndexOf(ps, p);
    InOrderAround(make, m, ps, signers, at);
    InOrderBounds(make, m, ps[..at], signers);
    StandsRightIff(make, m, ps, signers, p);
    var back := InOrder(make, m, ps[at + 1..], signers);
    i := |InOrder(make, m, ps[..at], signers)|;
    assert InOrder(make, m, ps, signers)[i] == back[0];
    InOrderMembers(make, m, ps[at + 1..], signers, back[0]);
    q :| q in ps[at + 1..] && q in signers && back[0] == NewSig(make, m, q);
    var j :| 0 <= j < |ps[at + 1..]| && ps[at + 1..][j] == q;
    IndexIs(ps, at + 1 + j);
  }

  lemma RoomForOne<M, P, X>(make: (M, P) -> X, m: M, ps: seq<P>, signers: set<P>, p: P)
    requires p in ps && p !in signers
    ensures |InOrder(make, m, ps, signers)| < |ps|
  {
    InOrderBounds(make, m, ps, signers);
  }

  lemma AroundFront<S>(v: seq<S>, n: nat, at: nat, s: S)
    requires at < n && |v| < n
    ensures var r := Around(v, n, at, s);
            && |r| == |v| + 1 && r[if at < |v| then at else |v|] == s
            && forall i :: 0 <= i < at && i < |v| ==> r[i] == v[i]
  {
  }

  lemma RightVerifies<M, P, X>(
    make: (M, P) -> X, m: M, w: (X, P) -> bool, ps: seq<P>, signers: set<P>, p: P, sigs: seq<X>, required: nat)
    requires Distinct(ps) && OwnKeyOnly(make, m, w, ps) && forall q :: q in signers ==> q in ps
    requires p in ps && p !in signers && sigs == Bodies(InOrder(make, m, ps, signers + {p}))
    ensures InputVerifies(w, sigs, ps, required) <==> required <= |signers| + 1
  {
    hide InputVerifies, InOrder;
    VerifiesIffEnough(make, m, w, ps, signers + {p}, required);
  }

  lemma LateDoesNot<M, P, X>(make: (M, P) -> X, m: M, w: (X, P) -> bool, ps: seq<P>, sigs: seq<X>, required: nat,
                             i: nat, j: nat, p: P, q: P)
    requires Distinct(ps) && OwnKeyOnly(make, m, w, ps) && p in ps && q in ps && IndexOf(ps, q) < IndexOf(ps, p)
    requires i < j < required <= |sigs| && sigs[i] == make(m, p) && sigs[j] == make(m, q)
    ensures !Satisfies(w, sigs[..required], ps)
  {
    hide *;
    if Satisfies(w, sigs[..required], ps) {
      AssignedInOrder(make, m, w, ps, sigs[..required], i, j, p, q);
    }
  }

  /** Whether the input verifies after the call of one more signer. Signatures in front of the new one can always
      be counted on; all of them only if the new one stands right. */
  lemma KeylessVerifiesIff<M, P, X>(
    make: (M, P) -> X, m: M, w: (X, P) -> bool, ps: seq<P>, signers: set<P>, p: P, required: nat)
    requires Distinct(ps) && OwnKeyOnly(make, m, w, ps) && forall q :: q in signers ==> q in ps
    requires p in ps && p !in signers
    ensures var r := SignedNext(make, m, ps, signers, p);
            && r.Signed?
            && (InputVerifies(w, Bodies(r.sigs), ps, required)
                <==> if StandsRight(ps, signers, p) then required <= |signers| + 1
                     else required <= |signers| && required <= IndexOf(ps, p))
  {
    hide *;
    var at, known := IndexOf(ps, p), InOrder(make, m, ps, signers);
    SignedNextIs(make, m, ps, signers, p);
    var sigs := Bodies(SignedNext(make, m, ps, signers, p).sigs);
    InOrderLength(make, m, ps, signers);
    AroundOneKey(make, m, w, ps, signers, p);
    InputVerifiesIff(w, sigs, ps, required);
    RoomForOne(make, m, ps, signers, p);
    AroundFront(Bodies(known), |ps|, at, make(m, p));
    if StandsRight(ps, signers, p) {
      KeylessOrderIff(make, m, w, ps, signers, p);
      RightVerifies(make, m, w, ps, signers, p, sigs, required);
    } else if required <= |signers| && required <= at {
      FrontEmbeds(make, m, w, ps, signers, sigs, required);
    } else if required <= |signers| + 1 {
      var i, q := LateSigner(make, m, ps, signers, p);
      LateDoesNot(make, m, w, ps, sigs, required, i, if at < |signers| then at else |signers|, q, p);
    }
  }

  lemma {:induction false} AllInOrder<M, P, X>(make: (M, P) -> X, m: M, ps: seq<P>, signers: set<P>, i: nat)
    requires i < |ps| && forall j :: 0 <= j < |ps| ==> ps[j] in signers
    ensures i < |InOrder(make, m, ps, signers)| && InOrder(make, m, ps, signers)[i] == NewSig(make, m, ps[i])
  {
    if i > 0 {
      AllInOrder(make, m, ps[1..], signers, i - 1);
    }
  }

  /** A signer whose signature is already there, without its key, signs once more. The list stays as it is only
      when all have signed and the key is the last one. */
  lemma SignsAgain<M, P, X>(make: (M, P) -> X, m: M, w: (X, P) -> bool, ps: seq<P>, signers: set<P>, p: P)
    requires Distinct(ps) && OwnKeyOnly(make, m, w, ps) && p in ps && p in signers
    ensures var r := SignedNext(make, m, ps, signers, p);
            && r.Signed?
            && (Bodies(r.sigs) == Bodies(InOrder(make, m, ps, signers))
                <==> IndexOf(ps, p) == |ps| - 1 && forall i :: 0 <= i < |ps| ==> ps[i] in signers)
  {
    hide InOrder, SignedNext, Distinct, IndexOf, OwnKeyOnly;
    var at, n := IndexOf(ps, p), |ps|;
    SignedNextIs(make, m, ps, signers, p);
    InOrderBounds(make, m, ps, signers);
    var known := Bodies(InOrder(make, m, ps, signers));
    if |known| == n {
      AllInOrder(make, m, ps, signers, at);
      if at < n - 1 {
        AllInOrder(make, m, ps, signers, at + 1);
        OwnBodiesDiffer(make, m, w, ps, at, at + 1);
        assert Around(known, n, at, make(m, p))[at + 1] == known[at];
      }
    }
  }

  lemma OwnBodiesDiffer<M, P, X>(make: (M, P) -> X, m: M, w: (X, P) -> bool, ps: seq<P>, i: nat, j: nat)
    requires Distinct(ps) && OwnKeyOnly(make, m, w, ps) && i < j < |ps|
    ensures make(m, ps[i]) != make(m, ps[j])
  {
    assert IsOwn(make, m, w, ps[i], ps[j]) && IsOwn(make, m, w, ps[j], ps[j]);
  }

  /** Three keys. The signature of the last one is known without its key; the other two sign. The second call
      places the first one's signature twice and has no slot left for that of the last. */
  lemma SecondSignerLosesOne<M, P, X>(make: (M, P) -> X, m: M, ps: seq<P>)
    requires |ps| == 3 && Distinct(ps)
    ensures var first, second := NewSig(make, m, ps[0]), NewSig(make, m, ps[1]);
            Run(make, m, Public(ps), [Sig(None, make(m, ps[2]))], OneByOne([ps[0], ps[1]]))
            == Some([first, second, first])
  {
    var first, second := NewSig(make, m, ps[0]), NewSig(make, m, ps[1]);
    var known := [Sig(None, make(m, ps[2]))];
    IndexIs(ps, 0);
    KeylessCall(make, m, ps, known, ps[0]);
    assert Around(known, 3, 0, first) == [first, known[0]];
    MixedCall(make, m, ps, known[0]);
    hide SignInput;
    var calls := OneByOne([ps[0], ps[1]]);
    assert calls[0] == One(ps[0]) && calls[1..][0] == One(ps[1]) && calls[1..][1..] == [];
    assert Run(make, m, Public(ps), [first, known[0]], calls[1..]) == Some([first, second, first]);
  }

  lemma MixedCall<M, P, X>(make: (M, P) -> X, m: M, ps: seq<P>, s: Sig<P, X>)
    requires |ps| == 3 && Distinct(ps) && s.pub == None
    ensures var first, second := NewSig(make, m, ps[0]), NewSig(make, m, ps[1]);
            SignInput(make, Some(m), false, Public(ps), [first, s], [Key(ps[1], true)], true)
            == Signed([first, second, first])
  {
    var first, second := NewSig(make, m, ps[0]), NewSig(make, m, ps[1]);
    var given := [Key(ps[1], true)];
    PublicKeys(ps);
    NoPrivateKeys(given, Public(ps));
    IndexIs(ps, 0);
    IndexIs(ps, 1);
    assert given[1..] == [];
    var slots := [None, Some(second), None];
    assert Free(3)[1 := Some(second)] == slots;
    assert Collect(make, m, ps, [first, s], true, given, Free(3), 0) == Collected(slots, 1);
    var placed := [Some(first), Some(second), None];
    assert [first, s][1..] == [s] && slots[0 := Some(first)] == placed;
    assert PlaceKnown(ps, [first, s], slots, 2) == Some((placed, 1));
    var full := [Some(first), Some(second), Some(first)];
    assert placed[2 := Some(first)] == full && full[1..] == [Some(second), Some(first)];
    assert FirstFree(placed[1..]) == 1 && FirstFree(full[1..]) == 2;
    assert FillFree([first, s], placed) == FillFree([s], full) == full;
    assert full[1..][1..] == [Some(first)] && Compact(full[1..][1..]) == [first];
    assert Compact(full[1..]) == [second, first];
  }
}
