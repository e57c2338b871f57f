/** Positional number systems.
  *
  * Python's `int.to_bytes`, `int.from_bytes`, `divmod` loops and `hex` all move between a number
  * and its digits in some base. This module defines the digits once, in both byte orders, and
  * proves the conversions inverse to each other.
  */
module Digits {

  type byte = x: nat | x < 256

  type Bytes = seq<byte>

  /** `n` times the same byte. */
  function Repeat(c: byte, n: nat): (r: Bytes)
    ensures |r| == n
  {
    seq(n, i => c)
  }

  predicate AreDigits(s: seq<nat>, b: nat) {
    forall i :: 0 <= i < |s| ==> s[i] < b
  }

  function Pow(b: nat, e: nat): nat {
    if e == 0 then 1 else b * Pow(b, e - 1)
  }

  lemma {:induction false} PowPositive(b: nat, e: nat)
    requires b > 0
    ensures Pow(b, e) > 0
  {
    if e > 0 {
      PowPositive(b, e - 1);
    }
  }

  lemma {:induction false} PowAdd(b: nat, d: nat, e: nat)
    ensures Pow(b, d + e) == Pow(b, d) * Pow(b, e)
  {
    if d > 0 {
      PowAdd(b, d - 1, e);
      assert b * (Pow(b, d - 1) * Pow(b, e)) == (b * Pow(b, d - 1)) * Pow(b, e);
    }
  }

  lemma {:induction false} PowMonotone(b: nat, d: nat, e: nat)
    requires b > 0 && d <= e
    ensures Pow(b, d) <= Pow(b, e)
  {
    if d < e {
      PowMonotone(b, d, e - 1);
      MulMonotone(1, b, Pow(b, e - 1));
    }
  }

  lemma DivMod(q: int, r: int, b: int)
    requires 0 <= r < b
    ensures (q * b + r) / b == q
    ensures (q * b + r) % b == r
  {
    var x := q * b + r;
    assert x == b * (x / b) + x % b;
    var d := x / b - q;
    assert b * d == r - x % b by {
      assert b * (x / b - q) == b * (x / b) - b * q;
    }
    SmallMultiple(b, d);
  }

  lemma SmallMultiple(b: int, d: int)
    requires b > 0
    ensures -b < b * d < b ==> d == 0
  {
    if d >= 1 {
      MulMonotone(1, d, b);
    } else if d <= -1 {
      MulMonotone(d, -1, b);
    }
  }

  lemma MulMonotone(x: int, y: int, z: nat)
    requires x <= y
    ensures x * z <= y * z && z * x <= z * y
  {
  }

  lemma BoundStep(v: nat, p: nat, d: nat, b: nat)
    requires v < p && d < b
    ensures v * b + d < b * p && b * v == v * b
  {
    MulMonotone(v + 1, p, b);
    assert (v + 1) * b == v * b + b;
  }

  lemma DivBelow(n: nat, b: nat, p: nat)
    requires b > 0 && n < b * p
    ensures n / b < p
  {
    var q := n / b;
    assert n == b * q + n % b;
    if q >= p {
      MulMonotone(p, q, b);
      assert false;
    }
  }

  lemma DivShrinks(n: nat, b: nat)
    requires b >= 2
    ensures n / b <= n && (n > 0 ==> n / b < n)
    ensures n == (n / b) * b + n % b
  {
    var q := n / b;
    assert n == b * q + n % b;
    MulMonotone(2, b, q);
  }

  // ---------------------------------------------------------------- big-endian

  /** The number whose base-`b` digits, most significant first, are `s`. */
  function ValBE(s: seq<nat>, b: nat): nat {
    if s == [] then 0 else ValBE(s[..|s| - 1], b) * b + s[|s| - 1]
  }

  /** The digits of `n` without leading zeros: what a `divmod` loop that prepends digits builds. */
  function MinBE(n: nat, b: nat): (s: seq<nat>)
    requires b >= 2
    ensures AreDigits(s, b)
    ensures s != [] ==> s[0] != 0
    ensures s == [] <==> n == 0
  {
    if n == 0 then []
    else
      DivShrinks(n, b);
      MinBE(n / b, b) + [n % b]
  }

  function Zeros(k: nat): (s: seq<nat>)
    ensures |s| == k && forall i :: 0 <= i < k ==> s[i] == 0
  {
    seq(k, i => 0)
  }

  lemma {:induction false} ValOfMin(n: nat, b: nat)
    requires b >= 2
    ensures ValBE(MinBE(n, b), b) == n
  {
    if n > 0 {
      DivShrinks(n, b);
      ValOfMin(n / b, b);
      var s := MinBE(n, b);
      assert s[..|s| - 1] == MinBE(n / b, b);
    }
  }

  lemma {:induction false} MinOfVal(s: seq<nat>, b: nat)
    requires b >= 2 && AreDigits(s, b) && (s != [] ==> s[0] != 0)
    ensures MinBE(ValBE(s, b), b) == s
  {
    if s != [] {
      var p := s[..|s| - 1];
      MinOfVal(p, b);
      DivMod(ValBE(p, b), s[|s| - 1], b);
      if p == [] {
        assert ValBE(s, b) == s[0];
      } else {
        assert MinBE(ValBE(p, b), b) != [];
        assert ValBE(p, b) * b >= 1;
      }
      assert s == p + [s[|s| - 1]];
    }
  }

  lemma {:induction false} ValLeadingZeros(k: nat, s: seq<nat>, b: nat)
    ensures ValBE(Zeros(k) + s, b) == ValBE(s, b)
    decreases k + |s|
  {
    var z := Zeros(k) + s;
    if s != [] {
      assert z[..|z| - 1] == Zeros(k) + s[..|s| - 1];
      ValLeadingZeros(k, s[..|s| - 1], b);
    } else if k > 0 {
      assert z[..|z| - 1] == Zeros(k - 1) + s;
      ValLeadingZeros(k - 1, s, b);
    }
  }

  lemma {:induction false} ValBEBound(s: seq<nat>, b: nat)
    requires b >= 1 && AreDigits(s, b)
    ensures ValBE(s, b) < Pow(b, |s|)
  {
    if s != [] {
      var p := s[..|s| - 1];
      ValBEBound(p, b);
      BoundStep(ValBE(p, b), Pow(b, |p|), s[|s| - 1], b);
    }
  }

  /** `n.to_bytes(len, 'big')`, in base `b`. */
  function FixBE(n: nat, len: nat, b: nat): (s: seq<nat>)
    requires b >= 2
    ensures |s| == len && AreDigits(s, b)
  {
    if len == 0 then [] else FixBE(n / b, len - 1, b) + [n % b]
  }

  lemma {:induction false} ValOfFixBE(n: nat, len: nat, b: nat)
    requires b >= 2 && n < Pow(b, len)
    ensures ValBE(FixBE(n, len, b), b) == n
  {
    if len > 0 {
      DivShrinks(n, b);
      DivBelow(n, b, Pow(b, len - 1));
      ValOfFixBE(n / b, len - 1, b);
      var s := FixBE(n, len, b);
      assert s[..|s| - 1] == FixBE(n / b, len - 1, b);
    }
  }

  /** Stripping the leading zeros of the fixed-width digits leaves the minimal digits. */
  lemma {:induction false} FixBEIsPaddedMin(n: nat, len: nat, b: nat)
    requires b >= 2 && n < Pow(b, len)
    ensures |MinBE(n, b)| <= len
    ensures FixBE(n, len, b) == Zeros(len - |MinBE(n, b)|) + MinBE(n, b)
  {
    if len > 0 {
      DivShrinks(n, b);
      DivBelow(n, b, Pow(b, len - 1));
      FixBEIsPaddedMin(n / b, len - 1, b);
      if n == 0 {
        assert MinBE(0, b) == [];
      }
    }
  }

  lemma {:induction false} FixOfValBE(s: seq<nat>, b: nat)
    requires b >= 2 && AreDigits(s, b)
    ensures FixBE(ValBE(s, b), |s|, b) == s
  {
    if s != [] {
      var p, d := s[..|s| - 1], s[|s| - 1];
      FixOfValBE(p, b);
      DivMod(ValBE(p, b), d, b);
      assert s == p + [d];
    }
  }

  /** Concatenation shifts the first number left by the second's length. */
  lemma {:induction false} ValBEConcat(s: seq<nat>, t: seq<nat>, b: nat)
    ensures ValBE(s + t, b) == ValBE(s, b) * Pow(b, |t|) + ValBE(t, b)
    decreases |t|
  {
    if t == [] {
      assert s + t == s;
    } else {
      var p, d := t[..|t| - 1], t[|t| - 1];
      assert (s + t)[..|s + t| - 1] == s + p;
      ValBEConcat(s, p, b);
      ShiftStep(ValBE(s, b), Pow(b, |p|), ValBE(p, b), b);
    }
  }

  lemma ShiftStep(x: nat, q: nat, y: nat, b: nat)
    ensures (x * q + y) * b == x * (b * q) + y * b
  {
    assert (x * q + y) * b == (x * q) * b + y * b;
    assert (x * q) * b == x * (b * q);
  }

  // ---------------------------------------------------------------- leading zeros

  function LeadingZeros(s: seq<nat>): (k: nat)
    ensures k <= |s|
  {
    if s == [] || s[0] != 0 then 0 else 1 + LeadingZeros(s[1..])
  }

  lemma {:induction false} LeadingZerosAre(s: seq<nat>, i: nat)
    requires i <= |s|
    ensures i <= LeadingZeros(s) <==> forall j :: 0 <= j < i ==> s[j] == 0
  {
    if i > 0 && s[0] == 0 {
      LeadingZerosAre(s[1..], i - 1);
      assert forall j :: 0 < j < |s| ==> s[1..][j - 1] == s[j];
    }
  }

  lemma SplitZeros(s: seq<nat>)
    ensures var k := LeadingZeros(s);
            s == Zeros(k) + s[k..] && (k < |s| ==> s[k] != 0)
  {
    var k := LeadingZeros(s);
    LeadingZerosAre(s, k);
    if k < |s| {
      LeadingZerosAre(s, k + 1);
    }
  }

  lemma LeadingZerosOf(k: nat, t: seq<nat>)
    requires t != [] ==> t[0] != 0
    ensures LeadingZeros(Zeros(k) + t) == k
  {
    var s := Zeros(k) + t;
    LeadingZerosAre(s, k);
    if t != [] {
      assert s[k] == t[0];
      LeadingZerosAre(s, k + 1);
    }
  }

  // ---------------------------------------------------------------- little-endian

  /** The number whose base-`b` digits, least significant first, are `s`:
      `int.from_bytes(s, 'little')`, which the code also writes `int.from_bytes(s[::-1], 'big')`. */
  function ValLE(s: seq<nat>, b: nat): nat {
    if s == [] then 0 else s[0] + b * ValLE(s[1..], b)
  }

  /** `n.to_bytes(len, 'little')`, in base `b`. */
  function FixLE(n: nat, len: nat, b: nat): (s: seq<nat>)
    requires b >= 2
    ensures |s| == len && AreDigits(s, b)
  {
    if len == 0 then [] else [n % b] + FixLE(n / b, len - 1, b)
  }

  lemma {:induction false} ValOfFixLE(n: nat, len: nat, b: nat)
    requires b >= 2 && n < Pow(b, len)
    ensures ValLE(FixLE(n, len, b), b) == n
  {
    if len > 0 {
      var q, d := n / b, n % b;
      DivShrinks(n, b);
      DivBelow(n, b, Pow(b, len - 1));
      ValOfFixLE(q, len - 1, b);
      assert FixLE(n, len, b) == [d] + FixLE(q, len - 1, b);
      hide *;
      ValLECons(d, FixLE(q, len - 1, b), b);
    }
  }

  lemma ValLECons(d: nat, s: seq<nat>, b: nat)
    ensures ValLE([d] + s, b) == ValLE(s, b) * b + d
  {
    assert ([d] + s)[1..] == s;
  }

  lemma {:induction false} FixOfValLE(s: seq<nat>, b: nat)
    requires b >= 2 && AreDigits(s, b)
    ensures FixLE(ValLE(s, b), |s|, b) == s
  {
    if s != [] {
      FixOfValLE(s[1..], b);
      DivMod(ValLE(s[1..], b), s[0], b);
      assert ValLE(s, b) == ValLE(s[1..], b) * b + s[0];
    }
  }

  lemma {:induction false} ValLEBound(s: seq<nat>, b: nat)
    requires b >= 1 && AreDigits(s, b)
    ensures ValLE(s, b) < Pow(b, |s|)
  {
    if s != [] {
      ValLEBound(s[1..], b);
      BoundStep(ValLE(s[1..], b), Pow(b, |s| - 1), s[0], b);
    }
  }

  lemma {:induction false} ValLESnoc(s: seq<nat>, d: nat, b: nat)
    ensures ValLE(s + [d], b) == ValLE(s, b) + Pow(b, |s|) * d
  {
    if s == [] {
      assert s + [d] == [d];
      assert [d][1..] == [];
    } else {
      assert (s + [d])[1..] == s[1..] + [d];
      ValLESnoc(s[1..], d, b);
      assert b * (Pow(b, |s| - 1) * d) == (b * Pow(b, |s| - 1)) * d;
    }
  }

  // ---------------------------------------------------------------- digit by digit

  lemma DivTwice(n: nat, b: nat, p: nat)
    requires b > 0 && p > 0
    ensures b * p > 0 && (n / b) / p == n / (b * p)
  {
    var q, r := n / b, n % b;
    var q', r' := q / p, q % p;
    assert n == b * q + r && q == p * q' + r';
    assert b * p > 0;
    BoundStep(r', p, r, b);
    assert n == q' * (b * p) + (b * r' + r) by {
      assert b * (p * q' + r') == q' * (b * p) + b * r' by {
        assert b * (p * q') == q' * (b * p);
      }
    }
    DivMod(q', b * r' + r, b * p);
  }

  /** Digit `i` from the low end is `n / b^i % b`, in both byte orders. */
  lemma {:induction false} FixLEDigit(n: nat, len: nat, b: nat, i: nat)
    requires b >= 2 && i < len
    ensures Pow(b, i) > 0 && FixLE(n, len, b)[i] == n / Pow(b, i) % b
  {
    PowPositive(b, i);
    if i > 0 {
      FixLEDigit(n / b, len - 1, b, i - 1);
      DivTwice(n, b, Pow(b, i - 1));
    }
  }

  lemma {:induction false} FixBEDigit(n: nat, len: nat, b: nat, i: nat)
    requires b >= 2 && i < len
    ensures Pow(b, i) > 0 && FixBE(n, len, b)[len - 1 - i] == n / Pow(b, i) % b
  {
    PowPositive(b, i);
    if i > 0 {
      FixBEDigit(n / b, len - 1, b, i - 1);
      DivTwice(n, b, Pow(b, i - 1));
    }
  }
}
