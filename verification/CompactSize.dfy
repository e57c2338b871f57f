/** CompactSize integers, length-prefixed strings and the byte stream they are read from. */
module CompactSize {
  import opened Digits

  /** What `read(n)` returns and what it leaves: short at the end of the data. */
  function Take<T>(s: seq<T>, n: nat): seq<T> {
    if n <= |s| then s[..n] else s
  }

  function Drop<T>(s: seq<T>, n: nat): seq<T> {
    if n <= |s| then s[n..] else []
  }

  lemma TakeDrop<T>(s: seq<T>, n: nat)
    ensures Take(s, n) + Drop(s, n) == s
  {
  }

  lemma TakeDropConcat<T>(s: seq<T>, t: seq<T>)
    ensures Take(s + t, |s|) == s && Drop(s + t, |s|) == t
  {
  }

  lemma DropTwice<T>(s: seq<T>, i: nat, j: nat)
    ensures Drop(Drop(s, i), j) == Drop(s, i + j)
  {
  }

  function LittleEndian(n: nat, len: nat): (r: Bytes)
    ensures |r| == len
  {
    FixLE(n, len, 256)
  }

  function FromLittleEndian(s: Bytes): nat {
    ValLE(s, 256)
  }

  const MAX16: nat := 0xffff
  const MAX32: nat := 0xffffffff
  const LIMIT64: nat := 0x1_0000_0000_0000_0000

  lemma ByteLimits()
    ensures Pow(256, 1) == 0x100 && Pow(256, 2) == 0x1_0000 && Pow(256, 4) == 0x1_0000_0000 && Pow(256, 8) == LIMIT64
  {
    assert Pow(256, 2) == 256 * Pow(256, 1);
    PowAdd(256, 2, 2);
    PowAdd(256, 4, 4);
  }

  lemma LittleEndianBack(n: nat, len: nat)
    requires n < Pow(256, len)
    ensures FromLittleEndian(LittleEndian(n, len)) == n
  {
    ValOfFixLE(n, len, 256);
  }

  // ---------------------------------------------------------------- integers

  /** Number of bytes after the first one. */
  function ExtraBytes(first: byte): nat {
    if first < 253 then 0 else if first == 253 then 2 else if first == 254 then 4 else 8
  }

  /** `int_to_varbyteint`; from 2^64 on `to_bytes` raises. */
  function IntToVarbyteint(n: nat): (r: Bytes)
    requires n < LIMIT64
    ensures r != [] && |r| == 1 + ExtraBytes(r[0])
  {
    if n < 0xfd then [n]
    else if n < MAX16 then [253] + LittleEndian(n, 2)
    else if n < MAX32 then [254] + LittleEndian(n, 4)
    else [255] + LittleEndian(n, 8)
  }

  /** `varbyteint_to_int`: the value and the number of bytes it takes. */
  function VarbyteintToInt(b: Bytes): (nat, nat) {
    if b == [] then (0, 0)
    else if b[0] < 253 then (b[0], 1)
    else (FromLittleEndian(Take(b[1..], ExtraBytes(b[0]))), 1 + ExtraBytes(b[0]))
  }

  datatype Size = Size(value: nat, raw: Bytes, rest: Bytes)

  /** A CompactSize at the head of a stream: its value, its bytes and the bytes after it. At the end of
      the data it is a 0 of no bytes; cut short, it is the number of the bytes that are there. */
  function ReadSize(s: Bytes): Size {
    if s == [] then Size(0, [], [])
    else
      var n := ExtraBytes(s[0]);
      var tail := s[1..];
      var value := if n == 0 then s[0] else FromLittleEndian(Take(tail, n));
      Size(value, [s[0]] + Take(tail, n), Drop(tail, n))
  }

  lemma ReadSizeConsumes(s: Bytes)
    ensures ReadSize(s).raw + ReadSize(s).rest == s
    ensures s != [] ==> |ReadSize(s).rest| < |s|
  {
    hide FromLittleEndian, ExtraBytes, Take, Drop;
    if s != [] {
      var tail, n := s[1..], ExtraBytes(s[0]);
      TakeDrop(tail, n);
      assert [s[0]] + (Take(tail, n) + Drop(tail, n)) == ([s[0]] + Take(tail, n)) + Drop(tail, n);
    }
  }

  lemma ReadSizeIsVarbyteintToInt(s: Bytes)
    ensures VarbyteintToInt(Take(s, 9)).0 == ReadSize(s).value
    ensures Drop(s, VarbyteintToInt(Take(s, 9)).1) == ReadSize(s).rest
  {
    if s != [] {
      var n := ExtraBytes(s[0]);
      assert Take(Take(s, 9)[1..], n) == Take(s[1..], n);
      assert Drop(s, 1 + n) == Drop(s[1..], n);
    }
  }

  lemma ReadSizeParts(s: Bytes)
    requires s != []
    ensures var b := Take(s, 9);
            var n := ExtraBytes(s[0]);
            b != [] && b[0] == s[0] && b[..1] == [s[0]] &&
            ReadSize(s) == Size(if n == 0 then s[0] else FromLittleEndian(Take(b[1..], n)),
                                b[..1] + Take(b[1..], n), Drop(s, 1 + n))
  {
    var n := ExtraBytes(s[0]);
    assert Take(Take(s, 9)[1..], n) == Take(s[1..], n);
    assert Drop(s, 1 + n) == Drop(s[1..], n);
  }

  /** Reading what was written gives the number back and leaves what follows. */
  lemma ReadSizeBack(n: nat, tail: Bytes)
    requires n < LIMIT64
    ensures ReadSize(IntToVarbyteint(n) + tail) == Size(n, IntToVarbyteint(n), tail)
  {
    hide FromLittleEndian, LittleEndian, Pow;
    ByteLimits();
    var s := IntToVarbyteint(n);
    assert (s + tail)[1..] == s[1..] + tail;
    TakeDropConcat(s[1..], tail);
    assert s == [s[0]] + s[1..];
    if n >= MAX32 {
      assert s[1..] == LittleEndian(n, 8);
      LittleEndianBack(n, 8);
    } else if n >= MAX16 {
      assert s[1..] == LittleEndian(n, 4);
      LittleEndianBack(n, 4);
    } else if n >= 0xfd {
      assert s[1..] == LittleEndian(n, 2);
      LittleEndianBack(n, 2);
    }
  }

  /** A complete CompactSize: as many bytes as the first one announces. */
  predicate IsSize(s: Bytes) {
    s != [] && |s| == 1 + ExtraBytes(s[0])
  }

  lemma SizeBound(s: Bytes)
    requires IsSize(s)
    ensures |s| == 1 ==> ReadSize(s).value < 0xfd
    ensures |s| == 3 ==> ReadSize(s).value <= MAX16
    ensures |s| == 5 ==> ReadSize(s).value <= MAX32
  {
    hide ValLE, Pow;
    ByteLimits();
    ValLEBound(s[1..], 256);
    assert Take(s[1..], |s| - 1) == s[1..];
    if |s| == 3 {
      assert ReadSize(s).value < Pow(256, 2);
    } else if |s| == 5 {
      assert ReadSize(s).value < Pow(256, 4);
    }
  }

  /** The shorter form that could hold a number at the two limits. */
  function ShorterForm(n: nat): Bytes {
    if n == MAX16 then [253] + LittleEndian(n, 2) else [254] + LittleEndian(n, 4)
  }

  lemma ShorterFormIs(n: nat)
    requires n == MAX16 || n == MAX32
    ensures IsSize(ShorterForm(n)) && ReadSize(ShorterForm(n)).value == n && |ShorterForm(n)| < |IntToVarbyteint(n)|
  {
    hide FromLittleEndian, LittleEndian, Pow;
    ByteLimits();
    var s := ShorterForm(n);
    TakeDropConcat(s[1..], []);
    assert s[1..] + [] == s[1..];
    LittleEndianBack(n, |s| - 1);
  }

  predicate ReadsAs(s: Bytes, n: nat) {
    IsSize(s) && ReadSize(s).value == n
  }

  /** The form written is the shortest that reads as the number, except at the largest number of two
      bytes and of four bytes. */
  lemma ShortestIff(n: nat)
    requires n < LIMIT64
    ensures (forall s: Bytes :: ReadsAs(s, n) ==> |IntToVarbyteint(n)| <= |s|) <==> n != MAX16 && n != MAX32
  {
    if n == MAX16 || n == MAX32 {
      ShorterFormIs(n);
      assert ReadsAs(ShorterForm(n), n);
    } else {
      forall s: Bytes | ReadsAs(s, n)
        ensures |IntToVarbyteint(n)| <= |s|
      {
        SizeBound(s);
      }
    }
  }

  // ---------------------------------------------------------------- strings

  /** A byte string whose length can be written; no Python string is longer. */
  type ByteString = s: Bytes | |s| < LIMIT64

  /** `varstr`: the single zero byte stands for itself. */
  function Varstr(s: ByteString): Bytes {
    if s == [0] then s else IntToVarbyteint(|s|) + s
  }

  datatype Str = Str(value: Bytes, raw: Bytes, rest: Bytes)

  /** A size and that many bytes. */
  function ReadStr(s: Bytes): Str {
    var n := ReadSize(s);
    Str(Take(n.rest, n.value), n.raw + Take(n.rest, n.value), Drop(n.rest, n.value))
  }

  lemma ReadStrConsumes(s: Bytes)
    ensures ReadStr(s).raw + ReadStr(s).rest == s
  {
    var n := ReadSize(s);
    ReadSizeConsumes(s);
    TakeDrop(n.rest, n.value);
    assert n.raw + (Take(n.rest, n.value) + Drop(n.rest, n.value)) == ReadStr(s).raw + ReadStr(s).rest;
  }

  /** A string reads back exactly when it is not the single zero byte, which reads as an empty one. */
  lemma VarstrReadsBackIff(s: ByteString, tail: Bytes)
    ensures ReadStr(Varstr(s) + tail) == Str(s, Varstr(s), tail) <==> s != [0]
    ensures ReadStr([0] + tail) == Str([], [0], tail)
  {
    assert ([0] + tail)[1..] == tail;
    if s != [0] {
      var n := IntToVarbyteint(|s|);
      assert Varstr(s) + tail == n + (s + tail);
      ReadSizeBack(|s|, s + tail);
      TakeDropConcat(s, tail);
    }
  }

  /** What a string written reads as: the single zero byte as the empty string. */
  function ReadAs(s: ByteString): ByteString {
    if s == [0] then [] else s
  }

  lemma VarstrReads(s: ByteString, tail: Bytes)
    ensures ReadStr(Varstr(s) + tail) == Str(ReadAs(s), Varstr(s), tail)
    ensures Varstr(ReadAs(s)) == Varstr(s)
  {
    VarstrReadsBackIff(s, tail);
    assert IntToVarbyteint(0) + [] == [0];
  }

  // ---------------------------------------------------------------- the stream

  /** `BytesIO`: a position, which may lie past the end, in unchanging data. */
  class Stream {
    const data: Bytes
    var pos: nat

    constructor (data: Bytes)
      ensures this.data == data && pos == 0 && Rest() == data
    {
      this.data := data;
      pos := 0;
    }

    /** `deepcopy`. */
    constructor Copy(s: Stream)
      ensures data == s.data && pos == s.pos
    {
      data := s.data;
      pos := s.pos;
    }

    /** What is still to be read. */
    function Rest(): Bytes
      reads this
    {
      Drop(data, pos)
    }

    method Read(n: nat) returns (r: Bytes)
      modifies this`pos
      ensures r == Take(old(Rest()), n) && Rest() == Drop(old(Rest()), n)
      ensures pos == old(pos) + |r|
    {
      r := Take(Rest(), n);
      DropTwice(data, pos, n);
      pos := pos + |r|;
    }

    method Seek(p: nat)
      modifies this`pos
      ensures pos == p
    {
      pos := p;
    }

    /** `read_varbyteint`. */
    method ReadVarbyteint() returns (value: nat)
      modifies this`pos
      ensures value == ReadSize(old(Rest())).value && Rest() == ReadSize(old(Rest())).rest
    {
      var start := pos;
      ReadSizeIsVarbyteintToInt(Rest());
      var b := Read(9);
      var r := VarbyteintToInt(b);
      value := r.0;
      DropTwice(data, start, r.1);
      Seek(start + r.1);
    }

    /** `read_varbyteint_return`. */
    method ReadVarbyteintReturn() returns (value: nat, raw: Bytes)
      modifies this`pos
      ensures ReadSize(old(Rest())) == Size(value, raw, Rest())
    {
      var start := pos;
      ghost var rest := Rest();
      var b := Read(9);
      if b == [] {
        return 0, [];
      }
      ReadSizeParts(rest);
      DropTwice(data, start, 1 + ExtraBytes(b[0]));
      if b[0] < 253 {
        Seek(start + 1);
        return b[0], b[..1];
      }
      var size := ExtraBytes(b[0]);
      var varbytes := Take(b[1..], size);
      Seek(start + size + 1);
      return FromLittleEndian(varbytes), b[..1] + varbytes;
    }
  }
}
