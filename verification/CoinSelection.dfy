/** `Wallet.select_inputs`: which unspent outputs to spend for an amount.
  *
  * The database queries are parameters: each is the list of unspent outputs its filter keeps, in
  * the order the database returned. The search over all combinations of smaller outputs is
  * exponential; it is proved to find a selection of the least possible size, as many outputs as the
  * greedy rule takes, and to take the front of the list exactly when that suffices.
  */
module CoinSelection {
  import opened Wrappers

  datatype Utxo = Utxo(id: nat, value: nat, confirmations: nat)

  datatype Selection = NoUtxos | Selected(utxos: seq<Utxo>)

  function Sum(vs: seq<nat>): nat {
    if vs == [] then 0 else vs[0] + Sum(vs[1..])
  }

  function Values(us: seq<Utxo>): (vs: seq<nat>)
    ensures |vs| == |us| && forall i :: 0 <= i < |us| ==> vs[i] == us[i].value
  {
    seq(|us|, i requires 0 <= i < |us| => us[i].value)
  }

  function Total(us: seq<Utxo>): nat {
    Sum(Values(us))
  }

  /** `filter(...)`: the outputs a query keeps, in table order. */
  function Filter(us: seq<Utxo>, keep: Utxo -> bool): seq<Utxo> {
    if us == [] then [] else (if keep(us[0]) then [us[0]] else []) + Filter(us[1..], keep)
  }

  /** `rows` is the answer to a query over `us`, in some order. */
  ghost predicate Answers(rows: seq<Utxo>, us: seq<Utxo>, keep: Utxo -> bool) {
    multiset(rows) == multiset(Filter(us, keep))
  }

  /** A selection of outputs, each used at most once. */
  ghost predicate IsSelection(sub: seq<Utxo>, us: seq<Utxo>) {
    multiset(sub) <= multiset(us)
  }

  // ---------------------------------------------------------------- combinations

  /** `itertools.combinations(vs, r)`, in its order. */
  function Combinations(vs: seq<nat>, r: nat): seq<seq<nat>> {
    if r == 0 then [[]]
    else if vs == [] then []
    else ConsAll(vs[0], Combinations(vs[1..], r - 1)) + Combinations(vs[1..], r)
  }

  function ConsAll(v: nat, cs: seq<seq<nat>>): (r: seq<seq<nat>>)
    ensures |r| == |cs| && forall i :: 0 <= i < |cs| ==> r[i] == [v] + cs[i]
  {
    seq(|cs|, i requires 0 <= i < |cs| => [v] + cs[i])
  }

  /** A combination takes the first value or it does not. */
  lemma InCombinations(vs: seq<nat>, r: nat, c: seq<nat>)
    requires r > 0 && vs != []
    ensures c in Combinations(vs, r) <==>
            c in Combinations(vs[1..], r) || (c != [] && c[0] == vs[0] && c[1..] in Combinations(vs[1..], r - 1))
  {
    var with, without := Combinations(vs[1..], r - 1), Combinations(vs[1..], r);
    assert Combinations(vs, r) == ConsAll(vs[0], with) + without;
    hide Combinations;
    if c in ConsAll(vs[0], with) {
      var i :| 0 <= i < |with| && ConsAll(vs[0], with)[i] == c;
      assert c[1..] == with[i];
    }
    if c != [] && c[0] == vs[0] && c[1..] in with {
      var i :| 0 <= i < |with| && with[i] == c[1..];
      assert ConsAll(vs[0], with)[i] == c;
    }
  }

  lemma MultisetCons<T>(x: T, a: seq<T>, b: seq<T>)
    ensures multiset([x] + a) <= multiset([x] + b) <==> multiset(a) <= multiset(b)
    ensures multiset(a) <= multiset(b) ==> multiset(a) <= multiset([x] + b)
    ensures x !in a && multiset(a) <= multiset([x] + b) ==> multiset(a) <= multiset(b)
  {
    assert multiset([x] + a) == multiset{x} + multiset(a);
    assert multiset([x] + b) == multiset{x} + multiset(b);
    if multiset([x] + a) <= multiset([x] + b) {
      forall y ensures multiset(a)[y] <= multiset(b)[y] {
        assert multiset([x] + a)[y] <= multiset([x] + b)[y];
      }
    }
    if x !in a && multiset(a) <= multiset([x] + b) {
      forall y ensures multiset(a)[y] <= multiset(b)[y] {
        assert multiset(a)[y] <= multiset([x] + b)[y];
      }
    }
  }

  lemma PartOfRest<T>(c: seq<T>, vs: seq<T>)
    requires vs != [] && multiset(c) <= multiset(vs[1..])
    ensures multiset(c) <= multiset(vs)
  {
    assert vs == [vs[0]] + vs[1..];
    MultisetCons(vs[0], c, vs[1..]);
  }

  lemma PartWithFirst<T>(c: seq<T>, vs: seq<T>)
    requires vs != [] && c != [] && c[0] == vs[0] && multiset(c[1..]) <= multiset(vs[1..])
    ensures multiset(c) <= multiset(vs)
  {
    assert vs == [vs[0]] + vs[1..] && c == [c[0]] + c[1..];
    MultisetCons(c[0], c[1..], vs[1..]);
  }

  lemma FirstCases(vs: seq<nat>, r: nat, c: seq<nat>)
    requires c in Combinations(vs, r)
    ensures r == 0 ==> c == []
    ensures r > 0 ==> vs != []
  {
  }

  /** Every combination has the length asked for and uses each position at most once. */
  lemma {:induction false} CombinationSound(vs: seq<nat>, r: nat, c: seq<nat>)
    requires c in Combinations(vs, r)
    ensures |c| == r && multiset(c) <= multiset(vs)
    decreases |vs|
  {
    hide *;
    FirstCases(vs, r, c);
    if r > 0 {
      InCombinations(vs, r, c);
      if c in Combinations(vs[1..], r) {
        CombinationSound(vs[1..], r, c);
        PartOfRest(c, vs);
      } else {
        CombinationSound(vs[1..], r - 1, c[1..]);
        PartWithFirst(c, vs);
      }
    }
  }

  lemma {:induction false} SumRemove(vs: seq<nat>, i: nat)
    requires i < |vs|
    ensures Sum(vs) == vs[i] + Sum(vs[..i] + vs[i + 1..])
  {
    if i == 0 {
      assert vs[..0] + vs[1..] == vs[1..];
    } else {
      SumRemove(vs[1..], i - 1);
      assert (vs[..i] + vs[i + 1..])[1..] == vs[1..][..i - 1] + vs[1..][i..];
    }
  }

  lemma TotalRemove(sub: seq<Utxo>, i: nat) returns (sub': seq<Utxo>)
    requires i < |sub|
    ensures sub' == sub[..i] + sub[i + 1..]
    ensures multiset(sub) == multiset([sub[i]] + sub')
    ensures Total(sub) == sub[i].value + Total(sub')
  {
    sub' := sub[..i] + sub[i + 1..];
    assert sub == sub[..i] + [sub[i]] + sub[i + 1..];
    SumRemove(Values(sub), i);
    assert Values(sub)[..i] + Values(sub)[i + 1..] == Values(sub');
  }

  /** Every selection is met by some combination, up to the order of its members. */
  lemma {:induction false} CombinationComplete(us: seq<Utxo>, sub: seq<Utxo>) returns (c: seq<nat>)
    requires IsSelection(sub, us)
    ensures c in Combinations(Values(us), |sub|) && Sum(c) == Total(sub)
    decreases |us|
  {
    if sub == [] {
      c := [];
    } else {
      assert sub[0] in multiset(sub);
      var u, rest := us[0], us[1..];
      assert us == [u] + rest;
      if u in sub {
        var sub' := RemoveFirst(us, sub);
        c := CombinationComplete(rest, sub');
        hide *;
        ExtendCombination(us, |sub'|, c);
        c := [u.value] + c;
      } else {
        MultisetCons(u, sub, rest);
        c := CombinationComplete(rest, sub);
        hide *;
        assert Values(us)[1..] == Values(rest);
        InCombinations(Values(us), |sub|, c);
      }
    }
  }

  lemma RemoveFirst(us: seq<Utxo>, sub: seq<Utxo>) returns (sub': seq<Utxo>)
    requires IsSelection(sub, us) && us != [] && us[0] in sub
    ensures IsSelection(sub', us[1..]) && |sub'| == |sub| - 1 && Total(sub) == us[0].value + Total(sub')
  {
    hide Total;
    var i :| 0 <= i < |sub| && sub[i] == us[0];
    sub' := TotalRemove(sub, i);
    assert us == [us[0]] + us[1..];
    MultisetCons(us[0], sub', us[1..]);
  }

  lemma ExtendCombination(us: seq<Utxo>, k: nat, c: seq<nat>)
    requires us != [] && c in Combinations(Values(us[1..]), k)
    ensures [us[0].value] + c in Combinations(Values(us), k + 1)
    ensures Sum([us[0].value] + c) == us[0].value + Sum(c)
  {
    var c' := [us[0].value] + c;
    assert c'[1..] == c;
    assert Values(us)[1..] == Values(us[1..]);
    hide Combinations;
    InCombinations(Values(us), k + 1, c');
  }

  // ---------------------------------------------------------------- the search

  function FirstReaching(cs: seq<seq<nat>>, amount: int): (r: Option<seq<nat>>)
    ensures r.Some? ==> r.value in cs && Sum(r.value) >= amount
    ensures r.None? ==> forall c :: c in cs ==> Sum(c) < amount
  {
    if cs == [] then None
    else if Sum(cs[0]) >= amount then Some(cs[0])
    else FirstReaching(cs[1..], amount)
  }

  /** The first hit when combinations of `r`, `r + 1`, ..., `hi` outputs are tried in turn. */
  function FirstHit(vs: seq<nat>, amount: int, r: int, hi: int): Option<seq<nat>>
    requires r >= 0
    decreases hi - r
  {
    if r > hi then None
    else
      match FirstReaching(Combinations(vs, r), amount)
      case Some(c) => Some(c)
      case None => FirstHit(vs, amount, r + 1, hi)
  }

  /** The hit reaches the amount, and no smaller combination does; without a hit none at all does. */
  lemma {:induction false} FirstHitLeast(vs: seq<nat>, amount: int, r: int, hi: int)
    requires r >= 0
    ensures match FirstHit(vs, amount, r, hi)
            case Some(c) =>
              && r <= |c| <= hi && c in Combinations(vs, |c|) && Sum(c) >= amount
              && forall k, d :: r <= k < |c| && d in Combinations(vs, k) ==> Sum(d) < amount
            case None =>
              forall k, d :: r <= k <= hi && d in Combinations(vs, k) ==> Sum(d) < amount
    decreases hi - r
  {
    hide Combinations, Sum;
    if r <= hi {
      match FirstReaching(Combinations(vs, r), amount)
      case Some(c) => CombinationSound(vs, r, c);
      case None => FirstHitLeast(vs, amount, r + 1, hi);
    }
  }

  // ---------------------------------------------------------------- the search against the greedy rule

  ghost predicate Descending(vs: seq<nat>) {
    forall i, j :: 0 <= i < j < |vs| ==> vs[i] >= vs[j]
  }

  lemma CombinationsStep(vs: seq<nat>, r: nat)
    ensures r == 0 ==> Combinations(vs, r) == [[]]
    ensures r > 0 && vs == [] ==> Combinations(vs, r) == []
    ensures r > 0 && vs != [] ==>
              Combinations(vs, r) == ConsAll(vs[0], Combinations(vs[1..], r - 1)) + Combinations(vs[1..], r)
  {
  }

  lemma {:induction false} FirstCombination(vs: seq<nat>, r: nat)
    ensures r <= |vs| ==> Combinations(vs, r) != [] && Combinations(vs, r)[0] == vs[..r]
    ensures r > |vs| ==> Combinations(vs, r) == []
    decreases |vs|
  {
    CombinationsStep(vs, r);
    hide ConsAll, Combinations;
    if r > 0 && vs != [] {
      FirstCombination(vs[1..], r - 1);
      FirstCombination(vs[1..], r);
      FirstOfBoth(vs[0], Combinations(vs[1..], r - 1), Combinations(vs[1..], r));
      assert r <= |vs| ==> [vs[0]] + vs[1..][..r - 1] == vs[..r];
    }
  }

  lemma FirstOfBoth(v: nat, cs: seq<seq<nat>>, ds: seq<seq<nat>>)
    ensures cs != [] ==> ConsAll(v, cs) + ds != [] && (ConsAll(v, cs) + ds)[0] == [v] + cs[0]
    ensures cs == [] && ds == [] ==> ConsAll(v, cs) + ds == []
  {
  }

  lemma {:induction false} SumPointwise(vs: seq<nat>, ws: seq<nat>)
    requires |vs| == |ws| && forall i :: 0 <= i < |vs| ==> vs[i] <= ws[i]
    ensures Sum(vs) <= Sum(ws)
  {
    if vs != [] {
      SumPointwise(vs[1..], ws[1..]);
    }
  }

  lemma {:induction false} PrefixIsHeaviest(vs: seq<nat>, r: nat, c: seq<nat>)
    requires Descending(vs) && c in Combinations(vs, r)
    ensures r <= |vs| && Sum(c) <= Sum(vs[..r])
    decreases |vs|
  {
    FirstCombination(vs, r);
    if r > 0 {
      var rest := vs[1..];
      InCombinations(vs, r, c);
      hide Combinations;
      if c in Combinations(rest, r) {
        hide Sum;
        PrefixIsHeaviest(rest, r, c);
        SumPointwise(rest[..r], vs[..r]);
      } else {
        PrefixIsHeaviest(rest, r - 1, c[1..]);
        assert vs[..r][1..] == rest[..r - 1];
      }
    }
  }

  /** In any order of the outputs, the hit is a prefix exactly when the prefix of its size suffices. */
  lemma HitIsPrefixIff(vs: seq<nat>, amount: int, r: nat, hi: int)
    requires FirstHit(vs, amount, r, hi).Some?
    ensures var c := FirstHit(vs, amount, r, hi).value;
            |c| <= |vs| && (c == vs[..|c|] <==> Sum(vs[..|c|]) >= amount)
  {
    var c := FirstHit(vs, amount, r, hi).value;
    FirstHitLeast(vs, amount, r, hi);
    FirstCombination(vs, |c|);
    HitIsFirstReaching(vs, amount, r, hi);
  }

  lemma {:induction false} HitIsFirstReaching(vs: seq<nat>, amount: int, r: nat, hi: int)
    requires FirstHit(vs, amount, r, hi).Some?
    ensures var c := FirstHit(vs, amount, r, hi).value;
            FirstReaching(Combinations(vs, |c|), amount) == Some(c)
    decreases hi - r
  {
    match FirstReaching(Combinations(vs, r), amount)
    case Some(c) => CombinationSound(vs, r, c);
    case None => HitIsFirstReaching(vs, amount, r + 1, hi);
  }

  /** With the outputs in descending order of value the exhaustive search is the greedy rule: it hits
      the shortest prefix that reaches the amount. */
  lemma {:induction false} HitIsShortestPrefix(vs: seq<nat>, amount: int, r: nat, hi: int, k: nat)
    requires Descending(vs) && r <= k <= hi && k <= |vs|
    requires Sum(vs[..k]) >= amount && forall i :: r <= i < k ==> Sum(vs[..i]) < amount
    ensures FirstHit(vs, amount, r, hi) == Some(vs[..k])
    decreases hi - r
  {
    hide Combinations, Sum;
    FirstCombination(vs, r);
    if r < k {
      forall c | c in Combinations(vs, r) ensures Sum(c) < amount {
        PrefixIsHeaviest(vs, r, c);
      }
      HitIsShortestPrefix(vs, amount, r + 1, hi, k);
    }
  }

  lemma ValuesRemove(d: seq<nat>, i: nat)
    requires i < |d|
    ensures multiset(d) == multiset([d[i]] + (d[..i] + d[i + 1..]))
  {
    assert d == d[..i] + [d[i]] + d[i + 1..];
  }

  /** Lists of the same values have the same sum. */
  lemma {:induction false} SumOfSame(c: seq<nat>, d: seq<nat>)
    requires multiset(c) == multiset(d)
    ensures Sum(c) == Sum(d)
    decreases |c|
  {
    if c == [] {
      assert |multiset(d)| == 0;
    } else {
      assert c[0] in multiset(d);
      var i: nat :| i < |d| && d[i] == c[0];
      var d' := d[..i] + d[i + 1..];
      ValuesRemove(d, i);
      assert c == [c[0]] + c[1..];
      MultisetCons(c[0], c[1..], d');
      MultisetCons(c[0], d', c[1..]);
      SumOfSame(c[1..], d');
      SumRemove(d, i);
    }
  }

  /** Whatever values can be taken from a list, some combination takes them. */
  lemma {:induction false} ValuesComplete(vs: seq<nat>, d: seq<nat>) returns (c: seq<nat>)
    requires multiset(d) <= multiset(vs)
    ensures c in Combinations(vs, |d|) && multiset(c) == multiset(d)
    decreases |vs|
  {
    if d == [] {
      c := [];
    } else {
      assert d[0] in multiset(vs);
      assert vs == [vs[0]] + vs[1..];
      if vs[0] in d {
        var i: nat :| i < |d| && d[i] == vs[0];
        var d' := d[..i] + d[i + 1..];
        ValuesRemove(d, i);
        MultisetCons(vs[0], d', vs[1..]);
        var c' := ValuesComplete(vs[1..], d');
        c := [vs[0]] + c';
        assert c[1..] == c';
        InCombinations(vs, |d|, c);
        assert multiset(c) == multiset{vs[0]} + multiset(c');
      } else {
        MultisetCons(vs[0], d, vs[1..]);
        c := ValuesComplete(vs[1..], d);
        InCombinations(vs, |d|, c);
      }
    }
  }

  /** `ws` are the values in descending order, and `k` of them, but not fewer from `r` on, reach the
      amount: the count of the greedy rule. */
  ghost predicate IsGreedyCount(vs: seq<nat>, ws: seq<nat>, amount: int, r: nat, k: nat) {
    && Descending(ws) && multiset(ws) == multiset(vs)
    && r <= k <= |ws| && Sum(ws[..k]) >= amount
    && forall i :: r <= i < k ==> Sum(ws[..i]) < amount
  }

  /** No combination, in any order of the values, is heavier than the greedy choice of its size. */
  lemma GreedyIsHeaviest(vs: seq<nat>, ws: seq<nat>, r: nat, c: seq<nat>)
    requires Descending(ws) && multiset(ws) == multiset(vs) && c in Combinations(vs, r)
    ensures r <= |ws| && Sum(c) <= Sum(ws[..r])
  {
    CombinationSound(vs, r, c);
    var d := ValuesComplete(ws, c);
    SumOfSame(c, d);
    hide Combinations, Sum;
    PrefixIsHeaviest(ws, r, d);
  }

  lemma TakeIsPart(ws: seq<nat>, k: nat)
    requires k <= |ws|
    ensures multiset(ws[..k]) <= multiset(ws)
  {
    assert ws == ws[..k] + ws[k..];
  }

  /** In whatever order the outputs come, the exhaustive search hits with as many of them as the greedy
      rule takes, if so many are tried; and the hit is the front of the list exactly when that many in
      front reach the amount. */
  lemma SearchIsGreedyIff(vs: seq<nat>, ws: seq<nat>, amount: int, r: nat, hi: int, k: nat)
    requires IsGreedyCount(vs, ws, amount, r, k)
    ensures var hit := FirstHit(vs, amount, r, hi);
            && (hit.Some? <==> k <= hi)
            && (hit.Some? ==> |hit.value| == k <= |vs| && (hit.value == vs[..k] <==> Sum(vs[..k]) >= amount))
  {
    TakeIsPart(ws, k);
    var c := ValuesComplete(vs, ws[..k]);
    SumOfSame(c, ws[..k]);
    hide Combinations, Sum, FirstHit, Descending;
    FirstHitLeast(vs, amount, r, hi);
    var hit := FirstHit(vs, amount, r, hi);
    if hit.Some? {
      GreedyIsHeaviest(vs, ws, |hit.value|, hit.value);
      HitIsPrefixIff(vs, amount, r, hi);
    }
  }

  /** The order of the query: confirmations first, values only among equals. */
  ghost predicate InQueryOrder(us: seq<Utxo>) {
    forall i, j :: 0 <= i < j < |us| ==>
      us[i].confirmations > us[j].confirmations
      || (us[i].confirmations == us[j].confirmations && us[i].value >= us[j].value)
  }

  const OLDER_SMALL: seq<Utxo> := [Utxo(0, 1, 30), Utxo(1, 6, 20), Utxo(2, 5, 10)]

  /** In that order the hit need not be the front: an older small coin comes first. */
  lemma OlderCoinsFirst()
    ensures var hit := FirstHit(Values(OLDER_SMALL), 10, 2, 3);
            InQueryOrder(OLDER_SMALL) && hit.Some? && |hit.value| == 2 && hit.value != Values(OLDER_SMALL)[..2]
  {
    hide *;
    OlderSmallAre();
    SixFiveOne();
    SearchIsGreedyIff([1, 6, 5], [6, 5, 1], 10, 2, 3, 2);
  }

  lemma OlderSmallAre()
    ensures Values(OLDER_SMALL) == [1, 6, 5] && InQueryOrder(OLDER_SMALL)
  {
  }

  lemma SixFiveOne()
    ensures IsGreedyCount([1, 6, 5], [6, 5, 1], 10, 2, 2) && Sum([1, 6, 5][..2]) < 10
  {
    assert [6, 5, 1][..2] == [6, 5] && [1, 6, 5][..2] == [1, 6];
    SumOfTwo(6, 5);
    SumOfTwo(1, 6);
  }

  lemma SumOfTwo(x: nat, y: nat)
    ensures Sum([x, y]) == x + y
  {
    assert [x, y][1..] == [y] && [y][1..] == [];
    assert Sum([y]) == y;
  }

  // ---------------------------------------------------------------- select_inputs

  function AtLeast(amount: int): Utxo -> bool {
    (u: Utxo) => u.value >= amount
  }

  function Within(amount: int, variance: int): Utxo -> bool {
    (u: Utxo) => amount <= u.value <= amount + variance
  }

  function Below(amount: int): Utxo -> bool {
    (u: Utxo) => u.value < amount
  }

  /** Whether `max_utxos` lets `k` outputs be combined; None and 0 both mean no limit. */
  predicate Allowed(maxUtxos: Option<int>, k: nat) {
    maxUtxos == None || maxUtxos.value == 0 || k <= maxUtxos.value
  }

  lemma {:induction false} FilterMembers(us: seq<Utxo>, keep: Utxo -> bool, u: Utxo)
    ensures u in Filter(us, keep) <==> u in us && keep(u)
  {
    if us != [] {
      FilterMembers(us[1..], keep, u);
    }
  }

  lemma {:induction false} FilterAll(us: seq<Utxo>, keep: Utxo -> bool)
    requires forall u :: u in us ==> keep(u)
    ensures Filter(us, keep) == us
  {
    if us != [] {
      FilterAll(us[1..], keep);
    }
  }

  lemma AnswerMembers(rows: seq<Utxo>, us: seq<Utxo>, keep: Utxo -> bool, u: Utxo)
    requires Answers(rows, us, keep)
    ensures u in rows <==> u in us && keep(u)
  {
    FilterMembers(us, keep, u);
    assert u in multiset(rows) <==> u in multiset(Filter(us, keep));
  }

  lemma SingleSelection(u: Utxo, us: seq<Utxo>)
    requires u in us
    ensures IsSelection([u], us) && Total([u]) == u.value
  {
    assert u in multiset(us);
    assert multiset([u]) == multiset{u};
    assert Values([u]) == [u.value] && [u.value][1..] == [];
    assert Sum([]) == 0;
  }

  lemma SelectedMembers(sub: seq<Utxo>, us: seq<Utxo>)
    requires IsSelection(sub, us)
    ensures forall u :: u in sub ==> u in us
  {
    forall u | u in sub ensures u in us {
      assert u in multiset(sub);
      assert u in multiset(us);
    }
  }

  lemma NotOneAlone(utxos: seq<Utxo>, amount: int, sub: seq<Utxo>)
    requires forall u :: u in utxos ==> u.value < amount
    requires IsSelection(sub, utxos) && sub != [] && Total(sub) >= amount
    ensures |sub| >= 2
  {
    SelectedMembers(sub, utxos);
    assert |sub| == 1 ==> sub == [sub[0]];
    SingleSelection(sub[0], utxos);
  }

  /** When no single output suffices, what the search finds decides about every selection. */
  lemma SearchDecides(utxos: seq<Utxo>, lessers: seq<Utxo>, amount: int, hi: int, sub: seq<Utxo>)
    requires multiset(lessers) == multiset(utxos) && forall u :: u in utxos ==> u.value < amount
    requires IsSelection(sub, utxos) && sub != [] && Total(sub) >= amount
    ensures match FirstHit(Values(lessers), amount, 2, hi)
            case Some(c) => |c| <= |sub|
            case None => |sub| > hi
  {
    NotOneAlone(utxos, amount, sub);
    var c := CombinationComplete(lessers, sub);
    hide Total, FirstHit, Combinations;
    FirstHitLeast(Values(lessers), amount, 2, hi);
  }

  lemma PickOne(us: seq<Utxo>, i: nat)
    requires i < |us|
    ensures multiset(us) == multiset(us[..i] + us[i + 1..]) + multiset{us[i]}
    ensures multiset(Values(us)) == multiset(Values(us[..i] + us[i + 1..])) + multiset{us[i].value}
  {
    assert us == us[..i] + [us[i]] + us[i + 1..];
    var vs := Values(us);
    assert vs == vs[..i] + [vs[i]] + vs[i + 1..];
    assert Values(us[..i] + us[i + 1..]) == vs[..i] + vs[i + 1..];
  }

  /** `[u for u in lessers if u.value == value][0]`. */
  method FindValue(us: seq<Utxo>, value: nat) returns (i: nat)
    requires value in multiset(Values(us))
    ensures i < |us| && us[i].value == value
    ensures forall j :: 0 <= j < i ==> us[j].value != value
  {
    assert value in Values(us);
    i := 0;
    while us[i].value != value
      invariant i < |us|
      invariant forall j :: 0 <= j < i ==> us[j].value != value
      decreases |us| - i
    {
      i := i + 1;
    }
  }

  /** Part of the winning values has been mapped to outputs, the rest still can be. */
  ghost predicate Picking(combo: seq<nat>, lessers: seq<Utxo>, n: nat, selected: seq<Utxo>, remaining: seq<Utxo>)
    requires n <= |combo|
  {
    && Values(selected) == combo[..n]
    && multiset(selected) + multiset(remaining) == multiset(lessers)
    && multiset(combo[n..]) <= multiset(Values(remaining))
  }

  lemma PickNext(combo: seq<nat>, lessers: seq<Utxo>, n: nat, selected: seq<Utxo>, remaining: seq<Utxo>, i: nat)
    requires n < |combo| && Picking(combo, lessers, n, selected, remaining)
    requires i < |remaining| && remaining[i].value == combo[n]
    ensures Picking(combo, lessers, n + 1, selected + [remaining[i]], remaining[..i] + remaining[i + 1..])
  {
    var after := remaining[..i] + remaining[i + 1..];
    assert combo[n..] == [combo[n]] + combo[n + 1..];
    PickOne(remaining, i);
    RemainingValues(combo[n + 1..], combo[n], Values(remaining), Values(after));
    assert multiset(selected + [remaining[i]]) == multiset(selected) + multiset{remaining[i]};
  }

  /** Nothing is left out in front: the outputs picked so far and the remaining ones are the list. */
  ghost predicate InFront(combo: seq<nat>, lessers: seq<Utxo>, selected: seq<Utxo>, remaining: seq<Utxo>) {
    combo <= Values(lessers) ==> lessers == selected + remaining
  }

  lemma PickFirst(combo: seq<nat>, lessers: seq<Utxo>, selected: seq<Utxo>, remaining: seq<Utxo>, i: nat)
    requires InFront(combo, lessers, selected, remaining)
    requires |selected| < |combo| && i < |remaining|
    requires forall j :: 0 <= j < i ==> remaining[j].value != combo[|selected|]
    ensures InFront(combo, lessers, selected + [remaining[i]], remaining[..i] + remaining[i + 1..])
  {
    if combo <= Values(lessers) {
      var n := |selected|;
      assert lessers[n] == remaining[0];
      assert Values(lessers)[n] == combo[n];
      assert i == 0;
    }
  }

  lemma CanPick(combo: seq<nat>, lessers: seq<Utxo>, n: nat, selected: seq<Utxo>, remaining: seq<Utxo>)
    requires n < |combo| && Picking(combo, lessers, n, selected, remaining)
    ensures combo[n] in multiset(Values(remaining)) && |selected| == n
  {
    assert combo[n..] == [combo[n]] + combo[n + 1..];
    assert combo[n] in multiset([combo[n]] + combo[n + 1..]);
    assert |Values(selected)| == n;
  }

  /** The loop that maps the winning values back to outputs. */
  method PickByValue(combo: seq<nat>, lessers: seq<Utxo>) returns (selected: seq<Utxo>)
    requires multiset(combo) <= multiset(Values(lessers))
    ensures IsSelection(selected, lessers) && Values(selected) == combo
    ensures combo <= Values(lessers) ==> selected <= lessers
  {
    selected := [];
    var remaining := lessers;
    StartPicking(combo, lessers);
    hide *;
    for n := 0 to |combo|
      invariant Picking(combo, lessers, n, selected, remaining)
      invariant InFront(combo, lessers, selected, remaining)
    {
      CanPick(combo, lessers, n, selected, remaining);
      var i := FindValue(remaining, combo[n]);
      PickNext(combo, lessers, n, selected, remaining, i);
      PickFirst(combo, lessers, selected, remaining, i);
      selected := selected + [remaining[i]];
      remaining := remaining[..i] + remaining[i + 1..];
    }
    Picked(combo, lessers, selected, remaining);
  }

  lemma StartPicking(combo: seq<nat>, lessers: seq<Utxo>)
    requires multiset(combo) <= multiset(Values(lessers))
    ensures Picking(combo, lessers, 0, [], lessers) && InFront(combo, lessers, [], lessers)
  {
    assert combo[0..] == combo;
  }

  lemma Picked(combo: seq<nat>, lessers: seq<Utxo>, selected: seq<Utxo>, remaining: seq<Utxo>)
    requires Picking(combo, lessers, |combo|, selected, remaining)
    requires InFront(combo, lessers, selected, remaining)
    ensures IsSelection(selected, lessers) && Values(selected) == combo
    ensures combo <= Values(lessers) ==> selected <= lessers
  {
  }

  lemma RemainingValues(rest: seq<nat>, v: nat, before: seq<nat>, after: seq<nat>)
    requires multiset([v] + rest) <= multiset(before) && multiset(before) == multiset(after) + multiset{v}
    ensures multiset(rest) <= multiset(after)
  {
    assert multiset([v] + rest) == multiset(rest) + multiset{v};
    forall x ensures multiset(rest)[x] <= multiset(after)[x] {
      assert multiset([v] + rest)[x] <= multiset(before)[x];
    }
  }

  /** The exhaustive search over `range(2, (max_utxos or len(utxo_values)) + 1)`. */
  method SearchCombinations(values: seq<nat>, amount: int, hi: int) returns (result: seq<seq<nat>>)
    ensures FirstHit(values, amount, 2, hi) == if result == [] then None else Some(result[0])
  {
    hide Combinations, Sum;
    result := [];
    var r := 2;
    while r <= hi
      invariant r >= 2
      invariant FirstHit(values, amount, 2, hi) ==
                if result == [] then FirstHit(values, amount, r, hi) else Some(result[0])
      decreases hi - r
    {
      var combos := Combinations(values, r);
      ghost var found := result;
      for k := 0 to |combos|
        invariant found != [] ==> result != [] && result[0] == found[0]
        invariant found == [] ==> FirstReaching(combos, amount) ==
                                  if result == [] then FirstReaching(combos[k..], amount) else Some(result[0])
      {
        assert combos[k..][1..] == combos[k + 1..];
        if Sum(combos[k]) >= amount {
          result := result + [combos[k]];
        }
      }
      r := r + 1;
    }
  }

  /** No selection of unspent outputs reaches the amount with fewer of them. */
  ghost predicate IsFewest(k: nat, utxos: seq<Utxo>, amount: int) {
    forall sub :: IsSelection(sub, utxos) && sub != [] && Total(sub) >= amount ==> k <= |sub|
  }

  /** No selection of an allowed size reaches the amount. */
  ghost predicate NoneReaches(utxos: seq<Utxo>, amount: int, maxUtxos: Option<int>) {
    forall sub :: IsSelection(sub, utxos) && sub != [] && Allowed(maxUtxos, |sub|) ==> Total(sub) < amount
  }

  lemma SelectionSize(sub: seq<Utxo>, us: seq<Utxo>)
    requires IsSelection(sub, us)
    ensures |sub| <= |us|
  {
    assert |multiset(us) - multiset(sub)| == |multiset(us)| - |multiset(sub)|;
  }

  lemma SearchMeaning(utxos: seq<Utxo>, lessers: seq<Utxo>, amount: int, maxUtxos: Option<int>, hi: int)
    requires multiset(lessers) == multiset(utxos) && forall u :: u in utxos ==> u.value < amount
    requires hi == if maxUtxos == None || maxUtxos.value == 0 then |lessers| else maxUtxos.value
    ensures match FirstHit(Values(lessers), amount, 2, hi)
            case Some(c) =>
              && multiset(c) <= multiset(Values(lessers)) && Sum(c) >= amount
              && 2 <= |c| <= hi && IsFewest(|c|, utxos, amount)
            case None => NoneReaches(utxos, amount, maxUtxos)
  {
    hide Total, FirstHit, Combinations, Sum;
    forall sub | IsSelection(sub, utxos) && sub != [] && Total(sub) >= amount
      ensures match FirstHit(Values(lessers), amount, 2, hi)
              case Some(c) => |c| <= |sub|
              case None => |sub| > hi && !Allowed(maxUtxos, |sub|)
    {
      SearchDecides(utxos, lessers, amount, hi, sub);
      assert IsSelection(sub, lessers);
      SelectionSize(sub, lessers);
    }
    FirstHitLeast(Values(lessers), amount, 2, hi);
    match FirstHit(Values(lessers), amount, 2, hi)
    case Some(c) => CombinationSound(Values(lessers), |c|, c);
    case None =>
  }

  /** The part of `select_inputs` that composes two or more lesser outputs. */
  method CombineLessers(utxos: seq<Utxo>, lessers: seq<Utxo>, amount: int, maxUtxos: Option<int>)
    returns (selected: seq<Utxo>)
    requires multiset(lessers) == multiset(utxos) && forall u :: u in utxos ==> u.value < amount
    ensures selected != [] ==>
              && IsSelection(selected, utxos) && Total(selected) >= amount
              && Allowed(maxUtxos, |selected|) && IsFewest(|selected|, utxos, amount)
    ensures selected == [] ==> NoneReaches(utxos, amount, maxUtxos)
    ensures FollowsGreedy(lessers, amount, maxUtxos, selected)
  {
    hide FollowsGreedy, FirstHit, Combinations, Sum, IsFewest, NoneReaches;
    var hi := if maxUtxos == None || maxUtxos.value == 0 then |lessers| else maxUtxos.value;
    SearchMeaning(utxos, lessers, amount, maxUtxos, hi);
    if maxUtxos != None && maxUtxos.value != 0 && maxUtxos.value <= 1 {
      TooFewAllowed(lessers, amount, maxUtxos);
      return [];
    }
    var result := SearchCombinations(Values(lessers), amount, hi);
    if result == [] {
      NoneFollows(lessers, amount, maxUtxos, hi);
      return [];
    }
    selected := PickByValue(result[0], lessers);
    HitFollows(lessers, amount, maxUtxos, hi, selected);
  }

  /** Outputs are found exactly when as many as the greedy rule takes are allowed. They are as many, and
      the front of the list exactly when the front suffices. */
  ghost predicate FollowsGreedy(lessers: seq<Utxo>, amount: int, maxUtxos: Option<int>, selected: seq<Utxo>) {
    forall ws, k: nat :: IsGreedyCount(Values(lessers), ws, amount, 2, k) ==>
      && k <= |lessers|
      && (selected != [] <==> Allowed(maxUtxos, k))
      && (selected != [] ==> |selected| == k && (selected <= lessers <==> Total(lessers[..k]) >= amount))
  }

  lemma SizeOfGreedy(lessers: seq<Utxo>, ws: seq<nat>, amount: int, k: nat)
    requires IsGreedyCount(Values(lessers), ws, amount, 2, k)
    ensures 2 <= k <= |lessers|
  {
    assert |multiset(ws)| == |multiset(Values(lessers))|;
  }

  lemma TooFewAllowed(lessers: seq<Utxo>, amount: int, maxUtxos: Option<int>)
    requires maxUtxos != None && maxUtxos.value != 0 && maxUtxos.value <= 1
    ensures FollowsGreedy(lessers, amount, maxUtxos, [])
  {
    hide IsGreedyCount;
    forall ws, k: nat | IsGreedyCount(Values(lessers), ws, amount, 2, k)
      ensures 2 <= k <= |lessers|
    {
      SizeOfGreedy(lessers, ws, amount, k);
    }
  }

  lemma NoneFollows(lessers: seq<Utxo>, amount: int, maxUtxos: Option<int>, hi: int)
    requires hi == if maxUtxos == None || maxUtxos.value == 0 then |lessers| else maxUtxos.value
    requires FirstHit(Values(lessers), amount, 2, hi) == None
    ensures FollowsGreedy(lessers, amount, maxUtxos, [])
  {
    hide IsGreedyCount, FirstHit;
    forall ws, k: nat | IsGreedyCount(Values(lessers), ws, amount, 2, k)
      ensures k <= |lessers| && k > hi
    {
      SizeOfGreedy(lessers, ws, amount, k);
      SearchIsGreedyIff(Values(lessers), ws, amount, 2, hi, k);
    }
  }

  lemma HitFollows(lessers: seq<Utxo>, amount: int, maxUtxos: Option<int>, hi: int, selected: seq<Utxo>)
    requires hi == if maxUtxos == None || maxUtxos.value == 0 then |lessers| else maxUtxos.value
    requires FirstHit(Values(lessers), amount, 2, hi) == Some(Values(selected)) && selected != []
    requires Values(selected) <= Values(lessers) ==> selected <= lessers
    ensures FollowsGreedy(lessers, amount, maxUtxos, selected)
  {
    hide IsGreedyCount, FirstHit;
    forall ws, k: nat | IsGreedyCount(Values(lessers), ws, amount, 2, k)
      ensures k <= |lessers| && k <= hi && |selected| == k && (selected <= lessers <==> Total(lessers[..k]) >= amount)
    {
      SizeOfGreedy(lessers, ws, amount, k);
      FrontIff(lessers, ws, amount, hi, k, selected);
    }
  }

  /** The front of the values is picked as the front of the outputs. */
  lemma FrontIff(lessers: seq<Utxo>, ws: seq<nat>, amount: int, hi: int, k: nat, selected: seq<Utxo>)
    requires IsGreedyCount(Values(lessers), ws, amount, 2, k)
    requires FirstHit(Values(lessers), amount, 2, hi) == Some(Values(selected))
    requires Values(selected) <= Values(lessers) ==> selected <= lessers
    ensures |selected| == k <= hi && k <= |lessers|
    ensures selected <= lessers <==> Total(lessers[..k]) >= amount
  {
    hide FirstHit, IsGreedyCount, Sum;
    var vs := Values(lessers);
    SearchIsGreedyIff(vs, ws, amount, 2, hi, k);
    assert Values(lessers[..k]) == vs[..k];
    if selected <= lessers {
      assert Values(selected) == vs[..k];
    }
  }

  ghost predicate SomeWithin(us: seq<Utxo>, lo: int, hi: int) {
    exists u :: u in us && lo <= u.value <= hi
  }

  ghost predicate SomeAtLeast(us: seq<Utxo>, lo: int) {
    exists u :: u in us && lo <= u.value
  }

  lemma WithinAnswers(rows: seq<Utxo>, us: seq<Utxo>, amount: int, variance: int)
    requires Answers(rows, us, Within(amount, variance))
    ensures rows == [] <==> !SomeWithin(us, amount, amount + variance)
    ensures rows != [] ==> rows[0] in us && amount <= rows[0].value <= amount + variance
    ensures SomeWithin(us, amount, amount + variance) ==> SomeAtLeast(us, amount)
  {
    hide Answers;
    forall u ensures u in rows <==> u in us && amount <= u.value <= amount + variance {
      AnswerMembers(rows, us, Within(amount, variance), u);
    }
    assert rows != [] ==> rows[0] in rows;
  }

  lemma AtLeastAnswers(rows: seq<Utxo>, us: seq<Utxo>, amount: int)
    requires Answers(rows, us, AtLeast(amount))
    ensures rows == [] <==> !SomeAtLeast(us, amount)
    ensures rows != [] ==> rows[0] in us && rows[0].value >= amount
  {
    hide Answers;
    forall u ensures u in rows <==> u in us && u.value >= amount {
      AnswerMembers(rows, us, AtLeast(amount), u);
    }
    assert rows != [] ==> rows[0] in rows;
  }

  lemma AllBelow(lessers: seq<Utxo>, us: seq<Utxo>, amount: int)
    requires Answers(lessers, us, Below(amount)) && !SomeAtLeast(us, amount)
    ensures multiset(lessers) == multiset(us) && forall u :: u in us ==> u.value < amount
  {
    FilterAll(us, Below(amount));
  }

  ghost predicate IsFirstOf(r: Selection, rows: seq<Utxo>) {
    rows != [] && r == Selected([rows[0]])
  }

  method SelectInputs(utxos: seq<Utxo>, inRange: seq<Utxo>, higher: seq<Utxo>, lessers: seq<Utxo>,
                      amount: int, variance: int, maxUtxos: Option<int>) returns (r: Selection)
    requires Answers(inRange, utxos, Within(amount, variance))
    requires Answers(higher, utxos, AtLeast(amount))
    requires Answers(lessers, utxos, Below(amount))
    ensures r.NoUtxos? <==> utxos == []
    // one output within the variance comes first, then one of a higher value
    ensures SomeWithin(utxos, amount, amount + variance) ==>
              IsFirstOf(r, inRange) && amount <= inRange[0].value <= amount + variance
    ensures !SomeWithin(utxos, amount, amount + variance) && SomeAtLeast(utxos, amount) ==>
              IsFirstOf(r, higher) && higher[0].value >= amount
    // what is selected reaches the amount with the fewest outputs
    ensures r.Selected? && r.utxos != [] ==>
              && IsSelection(r.utxos, utxos) && Total(r.utxos) >= amount
              && (|r.utxos| > 1 ==> Allowed(maxUtxos, |r.utxos|))
              && IsFewest(|r.utxos|, utxos, amount)
    // an empty selection means that no allowed one reaches the amount
    ensures r.Selected? && r.utxos == [] ==> NoneReaches(utxos, amount, maxUtxos)
    // where no single output suffices, they are as many as the greedy rule takes
    ensures r.Selected? && !SomeAtLeast(utxos, amount) ==> FollowsGreedy(lessers, amount, maxUtxos, r.utxos)
  {
    hide Answers, Total, IsFewest, NoneReaches, FollowsGreedy, SomeWithin, SomeAtLeast, IsSelection;
    if utxos == [] {
      NoneWithin(utxos, amount, variance);
      return NoUtxos;
    }
    WithinAnswers(inRange, utxos, amount, variance);
    AtLeastAnswers(higher, utxos, amount);
    if inRange != [] {
      SelectsOne(inRange[0], utxos, amount);
      return Selected([inRange[0]]);
    }
    if higher != [] {
      SelectsOne(higher[0], utxos, amount);
      return Selected([higher[0]]);
    }
    AllBelow(lessers, utxos, amount);
    var selected := CombineLessers(utxos, lessers, amount, maxUtxos);
    return Selected(selected);
  }

  lemma NoneWithin(us: seq<Utxo>, amount: int, variance: int)
    requires us == []
    ensures !SomeWithin(us, amount, amount + variance) && !SomeAtLeast(us, amount)
  {
  }

  lemma SelectsOne(u: Utxo, us: seq<Utxo>, amount: int)
    requires u in us && u.value >= amount
    ensures IsSelection([u], us) && Total([u]) >= amount && IsFewest(1, us, amount)
  {
    SingleSelection(u, us);
  }
}
