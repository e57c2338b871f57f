/** Numbers, sizes and strings byte by byte.
  *
  * The codecs are proved inverse to each other in their own modules. Here every byte they write is given by
  * its place alone, for the layouts of whole messages to be stated by.
  */
module ByteLayout {
  import opened Digits
  import opened CompactSize

  /** Byte `i` of a number, from the low end: n / 256^i % 256. */
  function ByteAt(n: nat, i: nat): byte {
    PowPositive(256, i);
    n / Pow(256, i) % 256
  }

  function Little(n: nat, len: nat): (r: Bytes)
    ensures |r| == len && forall i :: 0 <= i < len ==> r[i] == ByteAt(n, i)
  {
    seq(len, i requires 0 <= i < len => ByteAt(n, i))
  }

  function Big(n: nat, len: nat): (r: Bytes)
    ensures |r| == len && forall i :: 0 <= i < len ==> r[i] == ByteAt(n, len - 1 - i)
  {
    seq(len, i requires 0 <= i < len => ByteAt(n, len - 1 - i))
  }

  /** A size: one byte below 253, else a first byte 253, 254 or 255 and 2, 4 or 8 bytes. The largest numbers of
      two and of four bytes already take the next form. */
  function SizeBytes(n: nat): Bytes {
    if n < 253 then [n]
    else if n < 65535 then [253] + Little(n, 2)
    else if n < 4294967295 then [254] + Little(n, 4)
    else [255] + Little(n, 8)
  }

  /** A string behind its size; the single zero byte stands for itself. */
  function StringBytes(s: Bytes): Bytes {
    if s == [0] then [0] else SizeBytes(|s|) + s
  }

  /** `to_bytes(len, 'little')`. */
  lemma LittleEndianIs(n: nat, len: nat)
    ensures LittleEndian(n, len) == Little(n, len)
  {
    forall i | 0 <= i < len
      ensures LittleEndian(n, len)[i] == ByteAt(n, i)
    {
      FixLEDigit(n, len, 256, i);
    }
  }

  /** `to_bytes(len, 'big')`. */
  lemma BigEndianIs(n: nat, len: nat)
    ensures FixBE(n, len, 256) == Big(n, len)
  {
    forall i | 0 <= i < len
      ensures FixBE(n, len, 256)[i] == ByteAt(n, len - 1 - i)
    {
      FixBEDigit(n, len, 256, len - 1 - i);
    }
  }

  /** `from_bytes(s, 'little')` is the number with these bytes. */
  lemma FromLittleEndianIs(s: Bytes)
    ensures Little(FromLittleEndian(s), |s|) == s && FromLittleEndian(s) < Pow(256, |s|)
  {
    FixOfValLE(s, 256);
    ValLEBound(s, 256);
    LittleEndianIs(FromLittleEndian(s), |s|);
  }

  lemma SizeIs(n: nat)
    requires n < LIMIT64
    ensures IntToVarbyteint(n) == SizeBytes(n)
  {
    hide LittleEndian;
    LittleEndianIs(n, 2);
    LittleEndianIs(n, 4);
    LittleEndianIs(n, 8);
  }

  lemma StringIs(s: ByteString)
    ensures Varstr(s) == StringBytes(s)
  {
    SizeIs(|s|);
  }

  /** What is read of a size: a first byte below 253 is the number; behind 253, 254 and 255 stand 2, 4 and 8 bytes, or
      those that are left. */
  lemma SizeRead(s: Bytes)
    requires s != []
    ensures s[0] < 253 ==> ReadSize(s) == Size(s[0], [s[0]], s[1..]) && VarbyteintToInt(s) == (s[0] as nat, 1)
    ensures s[0] >= 253 ==>
              var wanted := if s[0] == 253 then 2 else if s[0] == 254 then 4 else 8;
              var n := if |s| - 1 < wanted then |s| - 1 else wanted;
              && ReadSize(s).raw == s[..1 + n] && ReadSize(s).rest == s[1 + n..]
              && Little(ReadSize(s).value, n) == s[1..1 + n] && ReadSize(s).value < Pow(256, n)
              && VarbyteintToInt(s) == (ReadSize(s).value, 1 + wanted)
  {
    if s[0] >= 253 {
      FromLittleEndianIs(Take(s[1..], ExtraBytes(s[0])));
      hide FromLittleEndian, Little, Pow;
      assert Take(s[1..], ExtraBytes(s[0])) == s[1..1 + |Take(s[1..], ExtraBytes(s[0]))|];
    }
  }
}
