/** The numbers of the Script language: little-endian magnitude, sign in the top bit of the last
    byte (`encode_num` and `decode_num`). */
module ScriptNum {
  import opened Digits

  function Abs(n: int): nat {
    if n < 0 then -n else n
  }

  /** Python's `int.bit_length` of a natural number. */
  function BitLength(n: nat): nat {
    if n == 0 then 0 else 1 + BitLength(n / 2)
  }

  function ByteLength(n: nat): nat {
    (BitLength(n) + 7) / 8
  }

  function EncodeNum(n: int): Bytes {
    if n == 0 then []
    else
      var encoded := FixLE(Abs(n), ByteLength(Abs(n)), 256);
      assert encoded != [] by { ByteLengthBounds(Abs(n)); }
      var top := encoded[|encoded| - 1];
      if top >= 128 then encoded + [if n < 0 then 128 else 0]
      else if n < 0 then encoded[..|encoded| - 1] + [top + 128]
      else encoded
  }

  function DecodeNum(s: Bytes): int {
    if s == [] then 0
    else
      var last := s[|s| - 1];
      var num: int := ValLE(s[..|s| - 1] + [last % 128], 256);
      if last >= 128 then -num else num
  }

  /** The last byte carries more than the sign, unless its predecessor needed the top bit for itself.
      `EncodeIsShortest` says that this is the least length a number can have. */
  predicate IsMinimal(s: Bytes) {
    s == [] || s[|s| - 1] % 128 != 0 || (|s| > 1 && s[|s| - 2] >= 128)
  }

  // ---------------------------------------------------------------- byte length

  lemma {:induction false} BitLengthBounds(n: nat)
    requires n > 0
    ensures BitLength(n) >= 1
    ensures Pow(2, BitLength(n) - 1) <= n < Pow(2, BitLength(n))
  {
    if n > 1 {
      BitLengthBounds(n / 2);
      assert Pow(2, BitLength(n) - 1) == 2 * Pow(2, BitLength(n / 2) - 1);
    } else {
      assert BitLength(1) == 1 + BitLength(0);
    }
  }

  lemma {:induction false} Pow256(k: nat)
    ensures Pow(256, k) == Pow(2, 8 * k)
  {
    if k > 0 {
      Pow256(k - 1);
      PowAdd(2, 8, 8 * (k - 1));
      assert Pow(2, 8) == 256 by {
        PowAdd(2, 4, 4);
        assert Pow(2, 4) == 2 * (2 * (2 * (2 * Pow(2, 0))));
      }
    }
  }

  lemma ByteLengthBounds(n: nat)
    requires n > 0
    ensures ByteLength(n) >= 1
    ensures Pow(256, ByteLength(n) - 1) <= n < Pow(256, ByteLength(n))
  {
    var k := ByteLength(n);
    BitLengthBounds(n);
    Pow256(k);
    Pow256(k - 1);
    PowMonotone(2, BitLength(n), 8 * k);
    PowMonotone(2, 8 * (k - 1), BitLength(n) - 1);
  }

  lemma ByteLengthUnique(n: nat, k: nat)
    requires k >= 1 && Pow(256, k - 1) <= n < Pow(256, k)
    ensures n > 0 && ByteLength(n) == k
  {
    PowPositive(256, k - 1);
    ByteLengthBounds(n);
    if ByteLength(n) < k {
      PowMonotone(256, ByteLength(n), k - 1);
    } else if k < ByteLength(n) {
      PowMonotone(256, k, ByteLength(n) - 1);
    }
  }

  /** The magnitude splits into low bytes and a non-zero top byte. */
  lemma MagnitudeSplits(n: nat) returns (low: Bytes, top: byte)
    requires n > 0
    ensures top != 0
    ensures FixLE(n, ByteLength(n), 256) == low + [top]
    ensures n == ValLE(low + [top], 256) == ValLE(low, 256) + Pow(256, |low|) * top
  {
    ByteLengthBounds(n);
    var encoded := FixLE(n, ByteLength(n), 256);
    low, top := encoded[..|encoded| - 1], encoded[|encoded| - 1];
    assert encoded == low + [top];
    ValLESnoc(low, top, 256);
    ValOfFixLE(n, ByteLength(n), 256);
    ValLEBound(low, 256);
  }

  // ---------------------------------------------------------------- the codec

  lemma DecodeSplit(low: Bytes, last: byte)
    ensures var num: int := ValLE(low + [last % 128], 256);
            DecodeNum(low + [last]) == if last >= 128 then -num else num
  {
    assert (low + [last])[..|low|] == low;
  }

  lemma AppendZero(s: Bytes)
    ensures ValLE(s + [0], 256) == ValLE(s, 256)
  {
    ValLESnoc(s, 0, 256);
  }

  lemma EncodeSplit(n: int, low: Bytes, top: byte)
    requires n != 0 && FixLE(Abs(n), ByteLength(Abs(n)), 256) == low + [top]
    ensures EncodeNum(n) ==
            if top >= 128 then low + [top] + [if n < 0 then 128 else 0]
            else low + [if n < 0 then top + 128 else top]
  {
    assert (low + [top])[..|low|] == low;
  }

  lemma DecodeEncode(n: int)
    ensures DecodeNum(EncodeNum(n)) == n
  {
    hide ValLE, FixLE, ByteLength, Pow;
    if n != 0 {
      var low, top := MagnitudeSplits(Abs(n));
      EncodeSplit(n, low, top);
      if top >= 128 {
        AppendZero(low + [top]);
        DecodeSplit(low + [top], if n < 0 then 128 else 0);
      } else {
        DecodeSplit(low, if n < 0 then top + 128 else top);
      }
    }
  }

  lemma EncodeIsMinimal(n: int)
    ensures IsMinimal(EncodeNum(n))
  {
    hide ValLE, FixLE, ByteLength;
    if n != 0 {
      var low, top := MagnitudeSplits(Abs(n));
      EncodeSplit(n, low, top);
    }
  }

  lemma MagnitudeOf(low: Bytes, top: byte)
    requires top != 0
    ensures ValLE(low + [top], 256) > 0
    ensures FixLE(ValLE(low + [top], 256), ByteLength(ValLE(low + [top], 256)), 256) == low + [top]
  {
    var s := low + [top];
    assert Pow(256, |s| - 1) <= ValLE(s, 256) < Pow(256, |s|) by {
      ValLESnoc(low, top, 256);
      ValLEBound(low, 256);
      TopDigitRange(ValLE(low, 256), Pow(256, |low|), top);
    }
    ByteLengthUnique(ValLE(s, 256), |s|);
    FixOfValLE(s, 256);
  }

  lemma TopDigitRange(v: nat, p: nat, top: byte)
    requires v < p && top != 0
    ensures p <= v + p * top < 256 * p
    ensures top >= 128 <==> v + p * top >= 128 * p
  {
    MulMonotone(1, top, p);
    MulMonotone(top, 255, p);
    if top >= 128 {
      MulMonotone(128, top, p);
    } else {
      MulMonotone(top, 127, p);
    }
  }

  lemma EncodeDecodeMinimal(s: Bytes)
    requires IsMinimal(s)
    ensures EncodeNum(DecodeNum(s)) == s
  {
    hide ValLE, FixLE, ByteLength, Pow;
    if s != [] {
      var low, last := s[..|s| - 1], s[|s| - 1];
      assert s == low + [last];
      DecodeSplit(low, last);
      if last % 128 != 0 {
        MagnitudeOf(low, last % 128);
        EncodeSplit(DecodeNum(s), low, last % 128);
      } else {
        var low', top := low[..|low| - 1], low[|low| - 1];
        assert low == low' + [top];
        AppendZero(low);
        MagnitudeOf(low', top);
        EncodeSplit(DecodeNum(s), low', top);
      }
    }
  }

  /** Re-encoding a decoded string returns it exactly when it was minimal. */
  lemma EncodeDecodeIffMinimal(s: Bytes)
    ensures EncodeNum(DecodeNum(s)) == s <==> IsMinimal(s)
  {
    EncodeIsMinimal(DecodeNum(s));
    if IsMinimal(s) {
      EncodeDecodeMinimal(s);
    }
  }

  /** `k` bytes hold exactly the numbers of fewer than `8k` bits, sign included. */
  lemma EncodedLength(n: int, k: nat)
    requires k >= 1
    ensures |EncodeNum(n)| <= k <==> Abs(n) < 128 * Pow(256, k - 1)
  {
    hide ValLE, FixLE, ByteLength;
    if n == 0 {
      PowPositive(256, k - 1);
    } else {
      var low, top := MagnitudeSplits(Abs(n));
      EncodeSplit(n, low, top);
      ValLEBound(low, 256);
      TopDigitRange(ValLE(low, 256), Pow(256, |low|), top);
      if |low| + 2 <= k {
        PowMonotone(256, |low| + 1, k - 1);
      } else if |low| + 1 == k {
      } else {
        PowMonotone(256, k, |low|);
      }
    }
  }

  lemma FourByteNumbers(n: int)
    ensures |EncodeNum(n)| <= 4 <==> -0x8000_0000 < n < 0x8000_0000
    ensures |EncodeNum(n)| <= 5 <==> -0x80_0000_0000 < n < 0x80_0000_0000
  {
    EncodedLength(n, 4);
    EncodedLength(n, 5);
    assert Pow(256, 3) == 0x100_0000 && Pow(256, 4) == 0x1_0000_0000 by {
      assert Pow(256, 2) == 0x1_0000;
    }
  }

  /** The magnitudes that `k` bytes can denote, in whatever form. */
  lemma DecodedBound(s: Bytes)
    requires s != []
    ensures Abs(DecodeNum(s)) < 128 * Pow(256, |s| - 1)
  {
    var low, m := s[..|s| - 1], s[|s| - 1] % 128;
    ValLESnoc(low, m, 256);
    ValLEBound(low, 256);
    MulMonotone(m, 127, Pow(256, |low|));
  }

  /** No string that denotes the number is shorter than its encoding, and only the encoding is minimal. */
  lemma EncodeIsShortest(n: int, s: Bytes)
    requires DecodeNum(s) == n
    ensures |EncodeNum(n)| <= |s|
    ensures IsMinimal(s) <==> s == EncodeNum(n)
  {
    EncodeDecodeIffMinimal(s);
    hide EncodeNum, IsMinimal;
    if s != [] {
      DecodedBound(s);
      EncodedLength(n, |s|);
    } else {
      DecodeEncode(0);
      EncodeOfZero();
    }
  }

  lemma EncodeOfZero()
    ensures EncodeNum(0) == []
  {
  }

  /** A decoded string of at most four bytes is in the range `FourByteNumbers` gives, minimal or not. */
  lemma DecodedRange(s: Bytes)
    requires |s| <= 4
    ensures -0x8000_0000 < DecodeNum(s) < 0x8000_0000
  {
    if s != [] {
      DecodedBound(s);
      PowMonotone(256, |s| - 1, 3);
      assert Pow(256, 3) == 0x100_0000 by {
        assert Pow(256, 2) == 0x1_0000;
      }
    }
  }

  // ---------------------------------------------------------------- truth

  /** A string that is all zero bytes, except that the last one may be a bare sign bit. */
  predicate IsZeroString(s: Bytes) {
    && (forall i :: 0 <= i < |s| - 1 ==> s[i] == 0)
    && (s != [] ==> s[|s| - 1] % 128 == 0)
  }

  lemma {:induction false} ValLEZero(s: seq<nat>)
    ensures ValLE(s, 256) == 0 <==> forall i :: 0 <= i < |s| ==> s[i] == 0
  {
    if s != [] {
      ValLEZero(s[1..]);
      assert forall i :: 1 <= i < |s| ==> s[i] == s[1..][i - 1];
    }
  }

  /** The conditional opcodes take a string for false exactly when it is zero or negative zero. */
  lemma FalseIffZeroString(s: Bytes)
    ensures DecodeNum(s) == 0 <==> IsZeroString(s)
  {
    if s != [] {
      var element := s[..|s| - 1] + [s[|s| - 1] % 128];
      ValLEZero(element);
      assert forall i :: 0 <= i < |s| - 1 ==> s[i] == element[i];
      assert element[|s| - 1] == s[|s| - 1] % 128;
    }
  }
}
