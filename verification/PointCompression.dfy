/** Compressed public keys: a point is kept as its x-coordinate and the parity of y, and y is
    rebuilt with a modular square root (section 2.3.4 of SEC 1). */
module PointCompression {
  import opened Digits
  import opened Field

  /** The field size and the exponent written out in `mod_sqrt`. */
  const SECP256K1_P: nat := 0xFFFFFFFFFFFFFFFFFFFFFFFFFFFFFFFFFFFFFFFFFFFFFFFFFFFFFFFEFFFFFC2F
  const SQRT_EXPONENT: nat := 28948022309329048855892746252171976963317496166410141009864396001977208667915

  lemma SqrtExponent()
    ensures SECP256K1_P % 4 == 3
    ensures SQRT_EXPONENT == (SECP256K1_P - 3) / 4
  {
  }

  /** `mod_sqrt`, for any field size: `pow(a, k + 1, p)` with k = (p - 3) / 4. */
  function ModSqrt(a: nat, p: nat): nat
    requires p >= 3
  {
    Pow(a, (p - 3) / 4 + 1) % p
  }

  ghost predicate OnCurve(x: nat, y: nat, p: nat)
    requires p > 0
  {
    Cong(y * y, x * x * x + 7, p)
  }

  /** The computation of y in `Key.public_uncompressed_hex`. */
  function Decompress(x: nat, odd: bool, p: nat): int
    requires p >= 3
  {
    var ys := Pow(x, 3) % p + 7 % p;
    var y := ModSqrt(ys, p);
    if (y % 2 == 1) != odd then p - y else y
  }

  /** For the remainder of this module's proofs: a field size for which the exponent is right. */
  ghost predicate IsField(p: nat) {
    IsPrime(p) && p % 4 == 3
  }

  lemma DifferenceOfSquares(t: int)
    ensures (t - 1) * (t + 1) == t * t - 1
  {
  }

  /** y to the power (p - 1) / 2 is a square root of 1. */
  lemma HalfPower(y: nat, p: nat)
    requires IsField(p) && 0 < y < p
    ensures Cong(Pow(y, (p - 1) / 2), 1, p) || Cong(Pow(y, (p - 1) / 2), -1, p)
  {
    var h := (p - 1) / 2;
    var t := Pow(y, h);
    Fermat(y, p);
    PowAdd(y, h, h);
    DifferenceOfSquares(t);
    hide Pow;
    Euclid(p, t - 1, t + 1);
  }

  /** The square root of a square is one of its two roots. */
  lemma SqrtOfSquare(a: nat, y: nat, p: nat)
    requires IsField(p) && 0 < y < p && Cong(a, y * y, p)
    ensures ModSqrt(a, p) == y || ModSqrt(a, p) == p - y
  {
    var e := (p - 3) / 4 + 1;
    var t := Pow(y, (p - 1) / 2);
    PowCong(a, y * y, e, p);
    PowSquare(y, e);
    assert 2 * e == 1 + (p - 1) / 2;
    assert Pow(y, 2 * e) == y * t;
    HalfPower(y, p);
    RootCases(Pow(a, e), y, t, p);
  }

  lemma RootCases(r: nat, y: int, t: int, p: nat)
    requires 0 < y < p && Cong(r, y * t, p)
    requires Cong(t, 1, p) || Cong(t, -1, p)
    ensures r % p == y || r % p == p - y
  {
    if Cong(t, 1, p) {
      RemainderOfProduct(r, y, t, 1, p);
      DivMod(0, y, p);
    } else {
      RemainderOfProduct(r, y, t, -1, p);
      NegativeMod(y, p);
    }
  }

  lemma RemainderOfProduct(r: int, y: int, t: int, u: int, p: nat)
    requires p > 0 && Cong(r, y * t, p) && Cong(t, u, p)
    ensures r % p == (y * u) % p
  {
    CongRefl(y, p);
    CongMul(y, y, t, u, p);
    CongTrans(r, y * t, y * u, p);
    CongModEqual(r, y * u, p);
  }

  lemma CongRefl(y: int, p: nat)
    requires p > 0
    ensures Cong(y, y, p)
  {
  }

  lemma NegativeMod(y: int, p: nat)
    requires 0 < y < p
    ensures (-y) % p == p - y
  {
    DivMod(-1, p - y, p);
    assert (-1) * p + (p - y) == -y;
  }

  lemma CurveRight(x: nat, p: nat)
    requires p > 0
    ensures Cong(Pow(x, 3) % p + 7 % p, x * x * x + 7, p)
  {
    assert Pow(x, 3) == x * (x * (x * 1)) by {
      assert Pow(x, 1) == x * 1 && Pow(x, 2) == x * Pow(x, 1);
    }
    assert x * (x * x) == x * x * x;
    CongMod(x * x * x, p);
    CongMod(7, p);
    var k := CongWitness((x * x * x) % p, x * x * x, p);
    var l := CongWitness(7 % p, 7, p);
    assert (k + l) * p == k * p + l * p;
    CongFrom((x * x * x) % p + 7 % p, x * x * x + 7, k + l, p);
  }

  lemma CurveSquare(x: nat, y: nat, p: nat)
    requires p > 0 && OnCurve(x, y, p)
    ensures Cong(Pow(x, 3) % p + 7 % p, y * y, p)
  {
    CurveRight(x, p);
    CongSym(y * y, x * x * x + 7, p);
    CongTrans(Pow(x, 3) % p + 7 % p, x * x * x + 7, y * y, p);
  }

  lemma RootOfParity(r: nat, y: nat, p: nat)
    requires p % 2 == 1 && 0 < y < p && (r == y || r == p - y)
    ensures (if (r % 2 == 1) != (y % 2 == 1) then p - r else r) == y
  {
  }

  /** Rebuilding y from x and the parity of y returns y, for every point of the curve. */
  lemma DecompressInvertsCompress(x: nat, y: nat, p: nat)
    requires IsField(p) && 0 < y < p && OnCurve(x, y, p)
    ensures Decompress(x, y % 2 == 1, p) == y
  {
    hide ModSqrt, Pow, OnCurve, IsPrime, Cong;
    CurveSquare(x, y, p);
    var ys := Pow(x, 3) % p + 7 % p;
    SqrtOfSquare(ys, y, p);
    RootOfParity(ModSqrt(ys, p), y, p);
  }

  lemma NegatedRoot(x: nat, y: nat, p: nat)
    requires p > 0 && y <= p && OnCurve(x, y, p)
    ensures OnCurve(x, p - y, p)
  {
    var k := p - 2 * y;
    assert (p - y) * (p - y) == y * y + k * p;
    CongFrom((p - y) * (p - y), y * y, k, p);
    CongTrans((p - y) * (p - y), y * y, x * x * x + 7, p);
  }

  /** The code never reports an x without a point; what it returns is on the curve exactly when some
      point has that x. */
  lemma DecompressedIsOnCurveIff(x: nat, odd: bool, p: nat)
    requires IsField(p)
    ensures 0 <= Decompress(x, odd, p) <= p
    ensures OnCurve(x, Decompress(x, odd, p), p) <==> exists y :: 0 <= y < p && OnCurve(x, y, p)
  {
    var y := Decompress(x, odd, p);
    if OnCurve(x, y, p) {
      if y == p {
        NegatedRoot(x, y, p);
        assert OnCurve(x, 0, p);
      }
    }
    if exists y :: 0 <= y < p && OnCurve(x, y, p) {
      var y0: nat :| y0 < p && OnCurve(x, y0, p);
      RootIsOnCurve(x, y0, p);
      NegatedRoot(x, ModSqrt(Pow(x, 3) % p + 7 % p, p), p);
    }
  }

  lemma RootIsOnCurve(x: nat, y: nat, p: nat)
    requires IsField(p) && y < p && OnCurve(x, y, p)
    ensures OnCurve(x, ModSqrt(Pow(x, 3) % p + 7 % p, p), p)
  {
    var ys := Pow(x, 3) % p + 7 % p;
    CurveSquare(x, y, p);
    if y > 0 {
      SqrtOfSquare(ys, y, p);
      NegatedRoot(x, y, p);
    } else {
      SqrtOfZero(ys, p);
    }
  }

  lemma SqrtOfZero(a: nat, p: nat)
    requires IsField(p) && Cong(a, 0, p)
    ensures ModSqrt(a, p) == 0
  {
    var e := (p - 3) / 4 + 1;
    PowCong(a, 0, e, p);
    assert Pow(0, e) == 0;
    CongModEqual(Pow(a, e), 0, p);
  }

  /** A public key imported in compressed form; y is computed when first asked for. */
  class PublicKey {
    const x: nat
    const odd: bool
    var y: int
    var known: bool

    ghost predicate Valid()
      reads this
    {
      known ==> y == Decompress(x, odd, SECP256K1_P)
    }

    constructor (x: nat, odd: bool)
      ensures this.x == x && this.odd == odd && Valid() && !known
    {
      this.x, this.odd, known, y := x, odd, false, 0;
    }

    method PublicUncompressed() returns (point: (nat, int))
      requires Valid()
      modifies this`y, this`known
      ensures Valid() && known
      ensures point == (x, Decompress(x, odd, SECP256K1_P))
    {
      if !known {
        y := Decompress(x, odd, SECP256K1_P);
        known := true;
      }
      return (x, y);
    }
  }
}
