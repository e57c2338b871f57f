/** Arithmetic modulo a prime, up to Fermat's little theorem. */
module Field {
  import opened Digits

  ghost predicate IsPrime(p: nat) {
    p >= 2 && forall d :: 1 < d < p ==> p % d != 0
  }

  /** `a` and `b` leave the same remainder. */
  ghost predicate Cong(a: int, b: int, p: nat)
    requires p > 0
  {
    (a - b) % p == 0
  }

  // ---------------------------------------------------------------- congruences

  lemma MultipleIsZero(k: int, p: nat)
    requires p > 0
    ensures (k * p) % p == 0
  {
    DivMod(k, 0, p);
  }

  lemma CongWitness(a: int, b: int, p: nat) returns (k: int)
    requires p > 0 && Cong(a, b, p)
    ensures a == b + k * p
  {
    k := (a - b) / p;
    assert a - b == p * k + (a - b) % p;
  }

  lemma CongFrom(a: int, b: int, k: int, p: nat)
    requires p > 0 && a == b + k * p
    ensures Cong(a, b, p)
  {
    MultipleIsZero(k, p);
  }

  lemma CongMod(a: int, p: nat)
    requires p > 0
    ensures Cong(a % p, a, p)
  {
    assert a == p * (a / p) + a % p;
    CongFrom(a % p, a, -(a / p), p);
  }

  lemma CongSym(a: int, b: int, p: nat)
    requires p > 0 && Cong(a, b, p)
    ensures Cong(b, a, p)
  {
    var k := CongWitness(a, b, p);
    CongFrom(b, a, -k, p);
  }

  lemma CongTrans(a: int, b: int, c: int, p: nat)
    requires p > 0 && Cong(a, b, p) && Cong(b, c, p)
    ensures Cong(a, c, p)
  {
    var k := CongWitness(a, b, p);
    var l := CongWitness(b, c, p);
    assert (k + l) * p == k * p + l * p;
    CongFrom(a, c, k + l, p);
  }

  lemma CongMul(a: int, b: int, c: int, d: int, p: nat)
    requires p > 0 && Cong(a, b, p) && Cong(c, d, p)
    ensures Cong(a * c, b * d, p)
  {
    var k := CongWitness(a, b, p);
    var l := CongWitness(c, d, p);
    var m := k * c + b * l;
    calc {
      a * c;
      (b + k * p) * c;
      b * c + (k * p) * c;
      b * (d + l * p) + (k * p) * c;
      b * d + b * (l * p) + (k * p) * c;
      { assert b * (l * p) == (b * l) * p && (k * p) * c == (k * c) * p; }
      b * d + (b * l) * p + (k * c) * p;
      { assert (b * l) * p + (k * c) * p == m * p; }
      b * d + m * p;
    }
    CongFrom(a * c, b * d, m, p);
  }

  /** Congruent numbers in range are equal. */
  lemma CongEqual(a: nat, b: nat, p: nat)
    requires a < p && b < p && Cong(a, b, p)
    ensures a == b
  {
    var k := CongWitness(a, b, p);
    assert p * k == a - b;
    SmallMultiple(p, k);
  }

  lemma CongModEqual(a: int, b: int, p: nat)
    requires p > 0 && Cong(a, b, p)
    ensures a % p == b % p
  {
    CongMod(a, p);
    CongTrans(a % p, a, b, p);
    CongMod(b, p);
    CongSym(b % p, b, p);
    CongTrans(a % p, b, b % p, p);
    CongEqual(a % p, b % p, p);
  }

  // ---------------------------------------------------------------- Euclid's lemma

  /** By the descent p mod a < a, which keeps p a divisor of the product. */
  lemma {:induction false} EuclidSmall(p: nat, a: nat, b: int)
    requires IsPrime(p) && 0 < a < p && (a * b) % p == 0
    ensures b % p == 0
    decreases a
  {
    if a > 1 {
      var r := p % a;
      assert p == a * (p / a) + r;
      var k := CongWitness(a * b, 0, p);
      var q := p / a;
      assert r * b == (b - q * k) * p by {
        assert r * b == (p - a * q) * b;
        assert (p - a * q) * b == p * b - q * (a * b);
        assert q * (k * p) == (q * k) * p;
        assert (b - q * k) * p == b * p - (q * k) * p;
      }
      MultipleIsZero(b - q * k, p);
      EuclidSmall(p, r, b);
    }
  }

  lemma Euclid(p: nat, a: int, b: int)
    requires IsPrime(p) && (a * b) % p == 0
    ensures a % p == 0 || b % p == 0
  {
    var r := a % p;
    if r != 0 {
      CongMod(a, p);
      assert Cong(b, b, p);
      CongMul(r, a, b, b, p);
      CongModEqual(r * b, a * b, p);
      EuclidSmall(p, r, b);
    }
  }

  // ---------------------------------------------------------------- Fermat's little theorem

  function Factorial(n: nat): nat {
    if n == 0 then 1 else n * Factorial(n - 1)
  }

  function Prod(s: seq<nat>): nat {
    if s == [] then 1 else s[0] * Prod(s[1..])
  }

  lemma {:induction false} ProdAppend(s: seq<nat>, x: nat)
    ensures Prod(s + [x]) == Prod(s) * x
  {
    if s == [] {
      assert [x][1..] == [];
    } else {
      assert (s + [x])[1..] == s[1..] + [x];
      ProdAppend(s[1..], x);
      assert s[0] * (Prod(s[1..]) * x) == (s[0] * Prod(s[1..])) * x;
    }
  }

  lemma SwapFactors(x: nat, y: nat, z: nat)
    ensures x * (y * z) == y * (x * z)
  {
  }

  lemma {:induction false} ProdRemove(s: seq<nat>, i: nat)
    requires i < |s|
    ensures Prod(s) == s[i] * Prod(s[..i] + s[i + 1..])
  {
    if i == 0 {
      assert s[..0] + s[1..] == s[1..];
    } else {
      var t := s[..i] + s[i + 1..];
      ProdRemove(s[1..], i - 1);
      assert t[0] == s[0] && t[1..] == s[1..][..i - 1] + s[1..][i..];
      SwapFactors(s[0], s[i], Prod(t[1..]));
    }
  }

  /** The members of `s` are distinct and in 1..n. */
  ghost predicate IsDrawn(s: seq<nat>, n: nat) {
    && (forall i :: 0 <= i < |s| ==> 1 <= s[i] <= n)
    && (forall i, j :: 0 <= i < j < |s| ==> s[i] != s[j])
  }

  lemma {:induction false} RemoveDrawn(s: seq<nat>, n: nat, i: nat)
    requires IsDrawn(s, n) && i < |s| && s[i] == n
    ensures IsDrawn(s[..i] + s[i + 1..], n - 1)
  {
    var t := s[..i] + s[i + 1..];
    forall j | 0 <= j < |t| ensures 1 <= t[j] <= n - 1 {
      assert t[j] == s[if j < i then j else j + 1];
    }
  }

  lemma {:induction false} DrawnAtMost(s: seq<nat>, n: nat)
    requires IsDrawn(s, n)
    ensures |s| <= n
    decreases n
  {
    if s != [] {
      assert 1 <= s[0] <= n;
      if n in s {
        var i :| 0 <= i < |s| && s[i] == n;
        RemoveDrawn(s, n, i);
        DrawnAtMost(s[..i] + s[i + 1..], n - 1);
      } else {
        assert IsDrawn(s, n - 1);
        DrawnAtMost(s, n - 1);
      }
    }
  }

  /** n distinct members of 1..n multiply to n!. */
  lemma {:induction false} ProdOfAll(s: seq<nat>, n: nat)
    requires IsDrawn(s, n) && |s| == n
    ensures Prod(s) == Factorial(n)
    decreases n
  {
    if n > 0 {
      if n !in s {
        assert IsDrawn(s, n - 1);
        DrawnAtMost(s, n - 1);
      }
      var i :| 0 <= i < |s| && s[i] == n;
      RemoveDrawn(s, n, i);
      ProdOfAll(s[..i] + s[i + 1..], n - 1);
      ProdRemove(s, i);
    }
  }

  /** The residues of a, 2a, ..., na. */
  function Multiples(a: nat, n: nat, p: nat): (s: seq<nat>)
    requires p > 0
    ensures |s| == n && forall i :: 0 <= i < n ==> s[i] == (a * (i + 1)) % p
  {
    seq(n, i requires 0 <= i < n => (a * (i + 1)) % p)
  }

  lemma MultipleInRange(a: nat, i: nat, p: nat)
    requires IsPrime(p) && 0 < a < p && 0 < i < p
    ensures 1 <= (a * i) % p <= p - 1
  {
    if (a * i) % p == 0 {
      EuclidSmall(p, a, i);
    }
  }

  lemma MultiplesDiffer(a: nat, i: nat, j: nat, p: nat)
    requires IsPrime(p) && 0 < a < p && 0 < i < j < p
    ensures (a * i) % p != (a * j) % p
  {
    if (a * i) % p == (a * j) % p {
      SameRemainder(a * j, a * i, p);
      Distribute(a, j, i);
      EuclidSmall(p, a, j - i);
    }
  }

  lemma Distribute(a: int, x: int, y: int)
    ensures a * x - a * y == a * (x - y)
  {
  }

  lemma SameRemainder(x: int, y: int, p: nat)
    requires p > 0 && x % p == y % p
    ensures (x - y) % p == 0
  {
    CongMod(x, p);
    CongSym(x % p, x, p);
    CongMod(y, p);
    CongTrans(x, x % p, y, p);
  }

  lemma MultiplesDrawn(a: nat, p: nat)
    requires IsPrime(p) && 0 < a < p
    ensures IsDrawn(Multiples(a, p - 1, p), p - 1)
  {
    hide IsPrime;
    var s := Multiples(a, p - 1, p);
    forall i | 0 <= i < |s| ensures 1 <= s[i] <= p - 1 {
      MultipleInRange(a, i + 1, p);
    }
    forall i, j | 0 <= i < j < |s| ensures s[i] != s[j] {
      MultiplesDiffer(a, i + 1, j + 1, p);
    }
  }

  lemma {:induction false} ProdOfMultiples(a: nat, n: nat, p: nat)
    requires p > 0
    ensures Cong(Prod(Multiples(a, n, p)), Pow(a, n) * Factorial(n), p)
  {
    if n > 0 {
      var s := Multiples(a, n - 1, p);
      assert Multiples(a, n, p) == s + [(a * n) % p];
      ProdAppend(s, (a * n) % p);
      ProdOfMultiples(a, n - 1, p);
      CongMod(a * n, p);
      CongMul(Prod(s), Pow(a, n - 1) * Factorial(n - 1), (a * n) % p, a * n, p);
      var x, f := Pow(a, n - 1), Factorial(n - 1);
      assert (x * f) * (a * n) == (a * x) * (n * f);
    }
  }

  lemma {:induction false} FactorialCoprime(n: nat, p: nat)
    requires IsPrime(p) && n < p
    ensures Factorial(n) % p != 0
  {
    if n > 0 {
      FactorialCoprime(n - 1, p);
      if (n * Factorial(n - 1)) % p == 0 {
        EuclidSmall(p, n, Factorial(n - 1));
      }
    }
  }

  lemma CancelFactor(x: int, f: nat, p: nat)
    requires IsPrime(p) && Cong(f, x * f, p) && f % p != 0
    ensures Cong(x, 1, p)
  {
    CongSym(f, x * f, p);
    assert (x - 1) * f == x * f - f;
    Euclid(p, x - 1, f);
  }

  /** Fermat's little theorem. */
  lemma Fermat(a: nat, p: nat)
    requires IsPrime(p) && 0 < a < p
    ensures Cong(Pow(a, p - 1), 1, p)
  {
    hide Cong, Pow, Factorial, Prod;
    MultiplesDrawn(a, p);
    ProdOfAll(Multiples(a, p - 1, p), p - 1);
    ProdOfMultiples(a, p - 1, p);
    FactorialCoprime(p - 1, p);
    CancelFactor(Pow(a, p - 1), Factorial(p - 1), p);
  }

  // ---------------------------------------------------------------- powers

  lemma {:induction false} PowCong(a: nat, b: nat, e: nat, p: nat)
    requires p > 0 && Cong(a, b, p)
    ensures Cong(Pow(a, e), Pow(b, e), p)
  {
    if e > 0 {
      PowCong(a, b, e - 1, p);
      CongMul(a, b, Pow(a, e - 1), Pow(b, e - 1), p);
    }
  }

  lemma {:induction false} PowSquare(a: nat, e: nat)
    ensures Pow(a * a, e) == Pow(a, 2 * e)
  {
    if e > 0 {
      PowSquare(a, e - 1);
      var x := Pow(a, 2 * (e - 1));
      assert Pow(a, 2 * e) == a * (a * x);
      assert (a * a) * x == a * (a * x);
    }
  }
}
