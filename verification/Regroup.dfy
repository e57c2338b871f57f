/** `convertbits`: regrouping bits from one width to another.
  *
  * The code keeps a bounded accumulator, masked after every value. The specification has no
  * accumulator: it writes out all the bits, most significant first, and cuts the string into pieces
  * of the new width.
  */
module Regroup {
  import opened Digits
  import opened Sequences

  /** `Values` is a list; Python's `None` and the `EncodingError` are the other two ways out. */
  datatype Converted = Values(ret: seq<nat>) | Invalid | BadPadding

  function Pow2(e: nat): (r: nat)
    ensures r > 0
  {
    PowPositive(2, e);
    Pow(2, e)
  }

  lemma Pow2Add(d: nat, e: nat)
    ensures Pow2(d + e) == Pow2(d) * Pow2(e)
  {
    PowAdd(2, d, e);
  }

  lemma BitsConcat(s: seq<nat>, t: seq<nat>)
    ensures ValBE(s + t, 2) == ValBE(s, 2) * Pow2(|t|) + ValBE(t, 2)
  {
    ValBEConcat(s, t, 2);
  }

  predicate InWidth(v: int, w: nat) {
    0 <= v < Pow2(w)
  }

  predicate AllInWidth(data: seq<int>, w: nat) {
    forall i :: 0 <= i < |data| ==> InWidth(data[i], w)
  }

  /** The bit string of values `w` bits wide. */
  function Bits(data: seq<nat>, w: nat): (bits: seq<nat>)
    ensures AreDigits(bits, 2)
  {
    if data == [] then [] else FixBE(data[0], w, 2) + Bits(data[1..], w)
  }

  /** The full pieces of `w` bits. */
  function Pieces(bits: seq<nat>, w: nat): (vs: seq<nat>)
    requires w >= 1
  {
    if |bits| < w then [] else [ValBE(bits[..w], 2)] + Pieces(bits[w..], w)
  }

  /** The bits after the last full piece. */
  function Rest(bits: seq<nat>, w: nat): (r: seq<nat>)
    requires w >= 1
    ensures |r| < w
  {
    if |bits| < w then bits else Rest(bits[w..], w)
  }

  /** The pieces of the bits, the last one padded. */
  function Padded(bits: seq<nat>, t: nat): seq<nat>
    requires t >= 1
  {
    var rest := Rest(bits, t);
    Pieces(bits, t) + if rest == [] then [] else [ValBE(rest + Zeros(t - |rest|), 2)]
  }

  function Regrouped(data: seq<int>, frombits: nat, tobits: nat, pad: bool): Converted
    requires frombits >= 1 && tobits >= 1
  {
    if !AllInWidth(data, frombits) then Invalid
    else
      var bits := Bits(data, frombits);
      var rest := Rest(bits, tobits);
      if pad then Values(Padded(bits, tobits))
      else if |rest| >= frombits || ValBE(rest, 2) != 0 then BadPadding
      else Values(Pieces(bits, tobits))
  }

  // ---------------------------------------------------------------- the masked accumulator

  /** `x & ((1 << e) - 1)`. */
  function Low(x: nat, e: nat): nat {
    x % Pow2(e)
  }

  /** `x << e`. */
  function Shl(x: nat, e: nat): nat {
    x * Pow2(e)
  }

  /** `x >> e`. */
  function Shr(x: nat, e: nat): nat {
    x / Pow2(e)
  }

  lemma ModOfShift(x: nat, v: nat, b: nat, f: nat)
    requires b > 0 && v < f
    ensures (x * f + v) % (b * f) == (x % b) * f + v
  {
    var q, r := x / b, x % b;
    assert x == b * q + r;
    assert (b * q + r) * f == q * (b * f) + r * f by {
      assert (b * q) * f == q * (b * f);
    }
    MulMonotone(r + 1, b, f);
    assert (r + 1) * f == r * f + f;
    DivMod(q, r * f + v, b * f);
  }

  lemma LowOfShl(x: nat, v: nat, b: nat, f: nat)
    requires v < Pow2(f)
    ensures Low(Shl(x, f) + v, b + f) == Shl(Low(x, b), f) + v
  {
    Pow2Add(b, f);
    ModOfShift(x, v, Pow2(b), Pow2(f));
  }

  lemma SplitRemainder(x: nat, q: nat, t: nat)
    requires q > 0 && t > 0
    ensures (x / q) % t == (x % (q * t)) / q
    ensures x % q == (x % (q * t)) % q
  {
    var hi, lo := x / q, x % q;
    assert x == q * hi + lo;
    ModOfShift(hi, lo, t, q);
    assert t * q == q * t && hi * q == q * hi;
    DivMod(hi % t, lo, q);
  }

  lemma LowSplits(x: nat, q: nat, t: nat)
    ensures Low(Shr(x, q), t) == Shr(Low(x, q + t), q)
    ensures Low(x, q) == Low(Low(x, q + t), q)
  {
    Pow2Add(q, t);
    SplitRemainder(x, Pow2(q), Pow2(t));
  }

  lemma SplitBits(s: seq<nat>, t: seq<nat>)
    requires AreDigits(t, 2)
    ensures ValBE(s + t, 2) == Shl(ValBE(s, 2), |t|) + ValBE(t, 2)
    ensures Shr(ValBE(s + t, 2), |t|) == ValBE(s, 2)
    ensures Low(ValBE(s + t, 2), |t|) == ValBE(t, 2)
  {
    BitsConcat(s, t);
    ValBEBound(t, 2);
    DivMod(ValBE(s, 2), ValBE(t, 2), Pow2(|t|));
  }

  /** Taking in a value: the mask keeps all the bits that are still to be written. */
  lemma TakeIn(acc: nat, pending: seq<nat>, v: nat, f: nat, t: nat)
    requires f >= 1 && |pending| < t && AreDigits(pending, 2) && v < Pow2(f)
    requires Low(acc, |pending|) == ValBE(pending, 2)
    ensures Low(Low(Shl(acc, f) + v, f + t - 1), |pending| + f) == ValBE(pending + FixBE(v, f, 2), 2)
  {
    hide *;
    var bits := |pending|;
    AppendValue(pending, v, f);
    LowOfShl(acc, v, bits, f);
    LowSplits(Shl(acc, f) + v, bits + f, t - 1 - bits);
  }

  lemma AppendValue(pending: seq<nat>, v: nat, f: nat)
    requires v < Pow2(f)
    ensures ValBE(pending + FixBE(v, f, 2), 2) == Shl(ValBE(pending, 2), f) + v
  {
    ValOfFixBE(v, f, 2);
    SplitBits(pending, FixBE(v, f, 2));
  }

  /** Writing out a piece. */
  lemma WriteOut(acc: nat, pending: seq<nat>, t: nat)
    requires t >= 1 && |pending| >= t && AreDigits(pending, 2)
    requires Low(acc, |pending|) == ValBE(pending, 2)
    ensures Low(Shr(acc, |pending| - t), t) == ValBE(pending[..t], 2)
    ensures Low(acc, |pending| - t) == ValBE(pending[t..], 2)
  {
    assert pending == pending[..t] + pending[t..];
    SplitBits(pending[..t], pending[t..]);
    hide *;
    LowSplits(acc, |pending| - t, t);
  }

  /** What is left over at the end, shifted to the top of a piece. */
  lemma LeftOver(acc: nat, pending: seq<nat>, t: nat)
    requires |pending| < t && AreDigits(pending, 2)
    requires Low(acc, |pending|) == ValBE(pending, 2)
    ensures Low(Shl(acc, t - |pending|), t) == ValBE(pending + Zeros(t - |pending|), 2)
    ensures ValBE(pending + Zeros(t - |pending|), 2) == 0 <==> ValBE(pending, 2) == 0
  {
    hide *;
    AppendZeros(pending, t - |pending|);
    ShlZero(ValBE(pending, 2), t - |pending|);
    LowOfShl(acc, 0, |pending|, t - |pending|);
  }

  lemma AppendZeros(pending: seq<nat>, k: nat)
    ensures ValBE(pending + Zeros(k), 2) == Shl(ValBE(pending, 2), k)
  {
    ZeroBits(k);
    SplitBits(pending, Zeros(k));
  }

  lemma ZeroBits(k: nat)
    ensures ValBE(Zeros(k), 2) == 0
  {
    ValLeadingZeros(k, [], 2);
    assert Zeros(k) + [] == Zeros(k);
  }

  lemma ShlZero(x: nat, e: nat)
    ensures Shl(x, e) == 0 <==> x == 0
  {
    if x > 0 {
      MulMonotone(1, x, Pow2(e));
    }
  }

  lemma {:induction false} BitsSnoc(data: seq<nat>, v: nat, w: nat)
    ensures Bits(data + [v], w) == Bits(data, w) + FixBE(v, w, 2)
  {
    if data == [] {
      assert (data + [v])[1..] == [];
    } else {
      assert (data + [v])[1..] == data[1..] + [v];
      BitsSnoc(data[1..], v, w);
    }
  }

  lemma {:induction false} PiecesSnoc(bits: seq<nat>, more: seq<nat>, w: nat)
    requires w >= 1
    ensures Pieces(bits + more, w) == Pieces(bits, w) + Pieces(Rest(bits, w) + more, w)
    ensures Rest(bits + more, w) == Rest(Rest(bits, w) + more, w)
    decreases |bits|
  {
    if |bits| >= w {
      assert (bits + more)[..w] == bits[..w] && (bits + more)[w..] == bits[w..] + more;
      PiecesSnoc(bits[w..], more, w);
    }
  }

  /** The inner loop of `convertbits`. */
  method WritePieces(acc: nat, start: nat, ghost pending: seq<nat>, tobits: nat) returns (out: seq<nat>, bits: nat)
    requires tobits >= 1 && AreDigits(pending, 2) && start == |pending|
    requires Low(acc, |pending|) == ValBE(pending, 2)
    ensures out == Pieces(pending, tobits) && bits == |Rest(pending, tobits)|
    ensures Low(acc, bits) == ValBE(Rest(pending, tobits), 2)
  {
    hide ValBE, Low, Shr;
    out, bits := [], start;
    ghost var left := pending;
    while bits >= tobits
      invariant bits == |left| && AreDigits(left, 2)
      invariant Low(acc, bits) == ValBE(left, 2)
      invariant Pieces(pending, tobits) == out + Pieces(left, tobits)
      invariant Rest(pending, tobits) == Rest(left, tobits)
      decreases bits
    {
      WriteOut(acc, left, tobits);
      bits := bits - tobits;
      out := out + [Low(Shr(acc, bits), tobits)];
      left := left[tobits..];
    }
  }

  /** Everything taken in so far, cut into pieces. */
  ghost predicate Regrouping(bits: seq<nat>, t: nat, acc: nat, left: nat, ret: seq<nat>)
    requires t >= 1
  {
    && left == |Rest(bits, t)| && ret == Pieces(bits, t)
    && Low(acc, left) == ValBE(Rest(bits, t), 2)
  }

  lemma {:induction false} RestDigits(bits: seq<nat>, w: nat)
    requires w >= 1 && AreDigits(bits, 2)
    ensures AreDigits(Rest(bits, w), 2)
    decreases |bits|
  {
    if |bits| >= w {
      RestDigits(bits[w..], w);
    }
  }

  /** The body of the outer loop of `convertbits`. */
  method TakeValue(ghost bits: seq<nat>, acc: nat, left: nat, ret: seq<nat>, v: nat, f: nat, t: nat)
    returns (acc': nat, left': nat, ret': seq<nat>)
    requires f >= 1 && t >= 1 && v < Pow2(f) && AreDigits(bits, 2)
    requires Regrouping(bits, t, acc, left, ret)
    ensures Regrouping(bits + FixBE(v, f, 2), t, acc', left', ret')
  {
    ghost var pending := Rest(bits, t) + FixBE(v, f, 2);
    RestDigits(bits, t);
    TakeIn(acc, Rest(bits, t), v, f, t);
    PiecesSnoc(bits, FixBE(v, f, 2), t);
    acc' := Low(Shl(acc, f) + v, f + t - 1);
    hide Low, Shl, ValBE, Pieces, Rest;
    var out;
    out, left' := WritePieces(acc', left + f, pending, t);
    ret' := ret + out;
  }

  /** `convertbits`. The accumulator never holds more than one value and a piece, yet the result is
      that of regrouping the whole bit string. */
  method ConvertBits(data: seq<int>, frombits: nat, tobits: nat, pad: bool) returns (r: Converted)
    requires frombits >= 1 && tobits >= 1
    ensures r == Regrouped(data, frombits, tobits, pad)
  {
    var acc: nat, bits: nat, ret: seq<nat> := 0, 0, [];
    for i := 0 to |data|
      invariant AllInWidth(data[..i], frombits)
      invariant Regrouping(Bits(data[..i], frombits), tobits, acc, bits, ret)
    {
      hide Regrouping;
      var value := data[i];
      if value < 0 || value >= Pow2(frombits) {
        return Invalid;
      }
      assert data[..i + 1] == data[..i] + [value];
      BitsSnoc(data[..i], value, frombits);
      acc, bits, ret := TakeValue(Bits(data[..i], frombits), acc, bits, ret, value, frombits, tobits);
    }
    assert data[..|data|] == data;
    RestDigits(Bits(data, frombits), tobits);
    LeftOver(acc, Rest(Bits(data, frombits), tobits), tobits);
    hide Bits, Low, Shl, ValBE, Pieces;
    if pad {
      if bits != 0 {
        ret := ret + [Low(Shl(acc, tobits - bits), tobits)];
      }
    } else if bits >= frombits || Low(Shl(acc, tobits - bits), tobits) != 0 {
      return BadPadding;
    }
    return Values(ret);
  }

  // ---------------------------------------------------------------- there and back

  lemma {:induction false} PiecesOfBits(data: seq<nat>, w: nat, more: seq<nat>)
    requires w >= 1 && AllInWidth(data, w) && |more| < w
    ensures Pieces(Bits(data, w) + more, w) == data && Rest(Bits(data, w) + more, w) == more
  {
    hide *;
    if data == [] {
      BitsOfNone(w);
      NoPieces(more, w);
      assert [] + more == more;
    } else {
      var vs := data[1..];
      var head := FixBE(data[0], w, 2);
      assert data == [data[0]] + vs;
      BitsCons(data[0], vs, w);
      Associate(head, Bits(vs, w), more);
      PiecesStep(head, Bits(vs, w) + more, w);
      ValOfPiece(data[0], w);
      PiecesOfBits(vs, w, more);
    }
  }

  lemma ValOfPiece(v: nat, w: nat)
    requires InWidth(v, w)
    ensures ValBE(FixBE(v, w, 2), 2) == v
  {
    ValOfFixBE(v, w, 2);
  }

  lemma PieceBits(head: seq<nat>)
    requires AreDigits(head, 2)
    ensures InWidth(ValBE(head, 2), |head|) && FixBE(ValBE(head, 2), |head|, 2) == head
  {
    FixOfValBE(head, 2);
    ValBEBound(head, 2);
  }

  lemma {:induction false} BitsOfPieces(bits: seq<nat>, w: nat)
    requires w >= 1 && AreDigits(bits, 2)
    ensures AllInWidth(Pieces(bits, w), w)
    ensures Bits(Pieces(bits, w), w) + Rest(bits, w) == bits
    decreases |bits|
  {
    hide *;
    if |bits| >= w {
      var head, tail := bits[..w], bits[w..];
      assert bits == head + tail;
      var vs := Pieces(tail, w);
      PiecesStep(head, tail, w);
      DigitsTail(head, tail);
      BitsOfPieces(tail, w);
      PieceBits(head);
      BitsCons(ValBE(head, 2), vs, w);
      Associate(head, Bits(vs, w), Rest(tail, w));
    } else {
      NoPieces(bits, w);
      BitsOfNone(w);
      assert [] + bits == bits;
    }
  }

  lemma PiecesStep(head: seq<nat>, tail: seq<nat>, w: nat)
    requires w >= 1 && |head| == w
    ensures Pieces(head + tail, w) == [ValBE(head, 2)] + Pieces(tail, w)
    ensures Rest(head + tail, w) == Rest(tail, w)
  {
    assert (head + tail)[..w] == head && (head + tail)[w..] == tail;
  }

  lemma NoPieces(bits: seq<nat>, w: nat)
    requires w >= 1 && |bits| < w
    ensures Pieces(bits, w) == [] && Rest(bits, w) == bits && AllInWidth(Pieces(bits, w), w)
  {
  }

  lemma DigitsTail(head: seq<nat>, tail: seq<nat>)
    requires AreDigits(head + tail, 2)
    ensures AreDigits(head, 2) && AreDigits(tail, 2)
  {
    assert forall i :: 0 <= i < |head| ==> head[i] == (head + tail)[i];
    assert forall i :: 0 <= i < |tail| ==> tail[i] == (head + tail)[|head| + i];
  }

  lemma BitsOfNone(w: nat)
    ensures Bits([], w) == []
  {
  }

  lemma BitsCons(v: nat, vs: seq<nat>, w: nat)
    ensures Bits([v] + vs, w) == FixBE(v, w, 2) + Bits(vs, w)
    ensures InWidth(v, w) && AllInWidth(vs, w) <==> AllInWidth([v] + vs, w)
  {
    assert AllInWidth([v] + vs, w) ==> InWidth(([v] + vs)[0], w);
    assert forall i :: 0 <= i < |vs| ==> vs[i] == ([v] + vs)[i + 1];
    assert ([v] + vs)[1..] == vs;
  }

  lemma {:induction false} ZeroValue(s: seq<nat>)
    requires ValBE(s, 2) == 0
    ensures s == Zeros(|s|)
  {
    if s != [] {
      var p := s[..|s| - 1];
      ZeroValue(p);
      assert s == p + [0];
    }
  }

  /** How many zeros complete `n` bits to whole pieces of `t` bits. */
  function Padding(n: nat, t: nat): (k: nat)
    requires t >= 1
    ensures k < t
  {
    if n % t == 0 then 0 else t - n % t
  }

  lemma {:induction false} BitsLength(data: seq<nat>, w: nat)
    ensures |Bits(data, w)| == |data| * w
  {
    if data != [] {
      BitsLength(data[1..], w);
      assert |data| * w == (|data| - 1) * w + w;
    }
  }

  lemma RestLength(bits: seq<nat>, t: nat)
    requires t >= 1 && AreDigits(bits, 2)
    ensures |bits| == |Pieces(bits, t)| * t + |Rest(bits, t)|
    ensures |Rest(bits, t)| == |bits| % t
  {
    hide ValBE, FixBE, Bits, Pieces, Rest, InWidth;
    BitsOfPieces(bits, t);
    BitsLength(Pieces(bits, t), t);
    DivMod(|Pieces(bits, t)|, |Rest(bits, t)|, t);
  }

  /** A padded last piece is the bits and zeros. */
  lemma PaddedBits(bits: seq<nat>, t: nat)
    requires t >= 1 && AreDigits(bits, 2)
    ensures AllInWidth(Padded(bits, t), t)
    ensures Bits(Padded(bits, t), t) == bits + Zeros(Padding(|bits|, t))
  {
    hide ValBE, FixBE, InWidth, Bits, Pieces, Rest;
    var rest, vs := Rest(bits, t), Pieces(bits, t);
    BitsOfPieces(bits, t);
    RestLength(bits, t);
    RestDigits(bits, t);
    if rest == [] {
      assert Padded(bits, t) == vs;
      assert bits + Zeros(0) == bits && Bits(vs, t) + [] == Bits(vs, t);
    } else {
      PadLast(vs, rest, t);
      Associate(Bits(vs, t), rest, Zeros(t - |rest|));
    }
  }

  lemma PadLast(vs: seq<nat>, rest: seq<nat>, t: nat)
    requires AllInWidth(vs, t) && AreDigits(rest, 2) && |rest| <= t
    ensures var last := rest + Zeros(t - |rest|);
            AllInWidth(vs + [ValBE(last, 2)], t) && Bits(vs + [ValBE(last, 2)], t) == Bits(vs, t) + last
  {
    hide ValBE, FixBE, InWidth, Bits;
    var last := rest + Zeros(t - |rest|);
    PieceBits(last);
    BitsSnoc(vs, ValBE(last, 2), t);
  }

  /** Regrouping with padding and back without returns the values exactly when the padding is
      shorter than a value; in particular whenever the pieces are not wider than the values. */
  lemma PadThenBack(data: seq<nat>, f: nat, t: nat)
    requires f >= 1 && t >= 1 && AllInWidth(data, f)
    ensures var there := Regrouped(data, f, t, true);
            && there.Values?
            && (Regrouped(there.ret, t, f, false) == Values(data) <==> Padding(|data| * f, t) < f)
  {
    var bits := Bits(data, f);
    var k := Padding(|bits|, t);
    hide ValBE, FixBE, Bits, Pieces, Rest, InWidth;
    BitsLength(data, f);
    PaddedBits(bits, t);
    if k < f {
      PiecesOfBits(data, f, Zeros(k));
      ZeroBits(k);
    } else {
      RestLength(bits + Zeros(k), f);
    }
  }

  /** From bytes to five-bit symbols and back, as addresses are written and read. */
  lemma BytesToSymbolsAndBack(data: seq<nat>)
    requires AllInWidth(data, 8)
    ensures var there := Regrouped(data, 8, 5, true);
            there.Values? && Regrouped(there.ret, 5, 8, false) == Values(data)
  {
    hide *;
    PadThenBack(data, 8, 5);
  }

  /** Whatever the unpadded direction accepts, regrouping the result with padding gives back. */
  lemma UnpadThenBack(ys: seq<nat>, t: nat, f: nat)
    requires t >= 1 && f >= 1 && AllInWidth(ys, t)
    requires Regrouped(ys, t, f, false).Values?
    ensures Regrouped(Regrouped(ys, t, f, false).ret, f, t, true) == Values(ys)
  {
    hide ValBE, FixBE, Bits, Pieces, Rest, InWidth;
    var bits := Bits(ys, t);
    var data, rest := Pieces(bits, f), Rest(bits, f);
    BitsOfPieces(bits, f);
    ZeroValue(rest);
    var inner := Bits(data, f);
    PaddedBits(inner, t);
    BitsLength(ys, t);
    SamePadding(|ys|, |rest|, |inner|, t);
    var zs := Padded(inner, t);
    PiecesOfBits(ys, t, []);
    PiecesOfBits(zs, t, []);
    assert Bits(zs, t) == Bits(ys, t);
  }

  lemma SamePadding(a: nat, k: nat, n: nat, t: nat)
    requires t >= 1 && k < t && a * t == n + k
    ensures Padding(n, t) == k
  {
    if k == 0 {
      DivMod(a, 0, t);
    } else {
      assert n == (a - 1) * t + (t - k);
      DivMod(a - 1, t - k, t);
    }
  }

  /** What is regrouped fits the new width. */
  lemma RegroupedInWidth(data: seq<int>, f: nat, t: nat, pad: bool)
    requires f >= 1 && t >= 1 && Regrouped(data, f, t, pad).Values?
    ensures AllInWidth(Regrouped(data, f, t, pad).ret, t)
  {
    var values: seq<nat> := data;
    hide ValBE, FixBE, Bits, Pieces, Rest, InWidth, Padded;
    BitsOfPieces(Bits(values, f), t);
    PaddedBits(Bits(values, f), t);
  }

  // ---------------------------------------------------------------- the number regrouped

  lemma {:induction false} BitsValue(data: seq<nat>, w: nat)
    requires AllInWidth(data, w)
    ensures ValBE(Bits(data, w), 2) == ValBE(data, Pow2(w))
  {
    if data != [] {
      var init, v := data[..|data| - 1], data[|data| - 1];
      assert data == init + [v];
      BitsValue(init, w);
      BitsSnoc(init, v, w);
      hide Bits;
      AppendValue(Bits(init, w), v, w);
    }
  }

  /** Regrouped with padding, the values are the same number: the digits of one base, shifted by the padding, are the
      digits of the other. Their number and their width say which digits. */
  lemma RegroupedNumber(data: seq<nat>, f: nat, t: nat)
    requires f >= 1 && t >= 1 && AllInWidth(data, f)
    ensures var there := Regrouped(data, f, t, true);
            && there.Values? && AllInWidth(there.ret, t)
            && |there.ret| * t == |data| * f + Padding(|data| * f, t)
            && ValBE(there.ret, Pow2(t)) == ValBE(data, Pow2(f)) * Pow2(Padding(|data| * f, t))
  {
    var bits := Bits(data, f);
    hide ValBE, FixBE, Bits, Pieces, Rest, InWidth, Padded;
    BitsLength(data, f);
    PaddedBits(bits, t);
    var r := Padded(bits, t);
    BitsLength(r, t);
    BitsValue(data, f);
    BitsValue(r, t);
    AppendZeros(bits, Padding(|bits|, t));
  }
}
