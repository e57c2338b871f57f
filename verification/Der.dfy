/** DER signatures: `signature_der_encode` and `signature_der_decode` (section 8.3 of ITU-T X.690). */
module Der {
  import opened Digits
  import opened CompactSize
  import opened Wrappers

  const SEQUENCE: byte := 0x30
  const INTEGER: byte := 0x02

  // ---------------------------------------------------------------- integers

  /** `to_bytes(32, 'big').lstrip(b'\x00')`. */
  function Stripped(n: nat): (r: Bytes)
    requires n < Pow(256, 32)
    ensures r == MinBE(n, 256) && |r| <= 32
  {
    var s := FixBE(n, 32, 256);
    FixBEIsPaddedMin(n, 32, 256);
    LeadingZerosOf(32 - |MinBE(n, 256)|, MinBE(n, 256));
    s[LeadingZeros(s)..]
  }

  /** The content of an integer: a zero in front keeps the top bit clear. */
  function IntBytes(n: nat): (r: Bytes)
    requires 0 < n < Pow(256, 32)
    ensures 0 < |r| <= 33 && r != [0]
  {
    var b := Stripped(n);
    if b[0] >= 0x80 then [0] + b else b
  }

  /** The shortest content of a positive integer of at most 256 bits. */
  ghost predicate IsPositiveInteger(b: Bytes) {
    && b != []
    && b[0] < 0x80
    && (b[0] == 0 ==> |b| > 1 && b[1] >= 0x80)
    && ValBE(b, 256) < Pow(256, 32)
  }

  lemma LeadingZero(t: Bytes)
    ensures ValBE([0] + t, 256) == ValBE(t, 256)
  {
    assert Zeros(1) == [0];
    ValLeadingZeros(1, t, 256);
  }

  lemma IntBytesArePositive(n: nat)
    requires 0 < n < Pow(256, 32)
    ensures ValBE(IntBytes(n), 256) == n && IsPositiveInteger(IntBytes(n))
  {
    hide ValBE, Pow, FixBE, LeadingZeros;
    ValOfMin(n, 256);
    LeadingZero(MinBE(n, 256));
  }

  lemma IntBytesOfValue(b: Bytes)
    requires IsPositiveInteger(b)
    ensures ValBE(b, 256) > 0 && IntBytes(ValBE(b, 256)) == b
  {
    hide ValBE, Pow, FixBE, LeadingZeros;
    if b[0] == 0 {
      assert b == [0] + b[1..];
      LeadingZero(b[1..]);
      MinOfVal(b[1..], 256);
    } else {
      MinOfVal(b, 256);
    }
  }

  // ---------------------------------------------------------------- signatures

  /** Tag, length and content of an integer. */
  function WriteInt(n: nat): (r: Bytes)
    requires 0 < n < Pow(256, 32)
    ensures |r| < 0x100
  {
    [INTEGER] + Varstr(IntBytes(n))
  }

  /** `signature_der_encode`; 0 has no first byte and more than 32 bytes do not fit. */
  function Encode(r: nat, s: nat): Result<Bytes> {
    if 0 < r < Pow(256, 32) && 0 < s < Pow(256, 32) then
      Ok([SEQUENCE] + Varstr(WriteInt(r) + WriteInt(s)))
    else Err
  }

  /** `_unpack_int`: an integer and the bytes after it. */
  function UnpackInt(b: Bytes): Result<(nat, Bytes)> {
    if b == [] || b[0] != INTEGER then Err
    else
      var (vlen, vsize) := VarbyteintToInt(b[1..]);
      if |Take(b, vsize + vlen + 1)| != 1 + vsize + vlen then Err
      else Ok((ValBE(b[1 + vsize..1 + vsize + vlen], 256), b[vsize + vlen + 1..]))
  }

  /** `signature_der_decode`, with its allowance for one sighash byte at the end. */
  function Decode(signature: Bytes): Result<(nat, nat)> {
    if signature == [] || signature[0] != SEQUENCE then Err
    else
      var (siglen, size) := VarbyteintToInt(signature[1..]);
      var sig := if |signature| == siglen + 1 + size + 1 then signature[..|signature| - 1] else signature;
      if |sig| != siglen + 1 + size then Err
      else
        match UnpackInt(sig[1 + size..])
        case Err => Err
        case Ok((r, rest)) =>
          match UnpackInt(rest)
          case Err => Err
          case Ok((s, rest2)) => if rest2 != [] then Err else Ok((r, s))
  }

  /** Tag, short length and content. */
  function IntegerField(a: Bytes): Bytes
    requires |a| <= 33
  {
    [INTEGER, |a|] + a
  }

  /** The signature of two integer contents, tags and short lengths written out. */
  function Signature(a: Bytes, b: Bytes): (sig: Bytes)
    requires |a| <= 33 && |b| <= 33
  {
    [SEQUENCE, 4 + |a| + |b|] + (IntegerField(a) + IntegerField(b))
  }

  lemma ShortSize(b: Bytes)
    requires |b| > 1 && b[1] < 253
    ensures VarbyteintToInt(b[1..]) == (b[1], 1)
  {
  }

  lemma FieldParts(a: Bytes, tail: Bytes)
    requires |a| <= 33
    ensures var b := IntegerField(a) + tail;
            && |b| == 2 + |a| + |tail| && b[0] == INTEGER && b[1] == |a|
            && b[2..2 + |a|] == a && b[2 + |a|..] == tail
  {
  }

  lemma UnpackBack(a: Bytes, tail: Bytes)
    requires |a| <= 33
    ensures UnpackInt(IntegerField(a) + tail) == Ok((ValBE(a, 256), tail))
  {
    hide ValBE, VarbyteintToInt, IntegerField;
    var b := IntegerField(a) + tail;
    FieldParts(a, tail);
    ShortSize(b);
  }

  lemma DecodeBody(a: Bytes, b: Bytes)
    requires |a| <= 33 && |b| <= 33
    ensures UnpackInt(IntegerField(a) + IntegerField(b)) == Ok((ValBE(a, 256), IntegerField(b)))
    ensures UnpackInt(IntegerField(b)) == Ok((ValBE(b, 256), []))
  {
    hide *;
    UnpackBack(b, []);
    assert IntegerField(b) + [] == IntegerField(b);
    UnpackBack(a, IntegerField(b));
  }

  lemma SignatureHead(a: Bytes, b: Bytes, extra: Bytes)
    requires |a| <= 33 && |b| <= 33
    ensures var sig := Signature(a, b) + extra;
            |sig| == 6 + |a| + |b| + |extra| && sig[0] == SEQUENCE && sig[1] == 4 + |a| + |b|
  {
    hide IntegerField;
    FieldParts(a, []);
    FieldParts(b, []);
  }

  lemma SignatureBody(a: Bytes, b: Bytes)
    requires |a| <= 33 && |b| <= 33
    ensures |Signature(a, b)| >= 2 && Signature(a, b)[2..] == IntegerField(a) + IntegerField(b)
  {
    hide IntegerField;
  }

  /** Behind a signature one byte is allowed for, and no more. */
  lemma DecodeSignature(a: Bytes, b: Bytes, extra: Bytes)
    requires |a| <= 33 && |b| <= 33
    ensures Decode(Signature(a, b) + extra) == if |extra| <= 1 then Ok((ValBE(a, 256), ValBE(b, 256))) else Err
  {
    hide ValBE, UnpackInt, Signature, VarbyteintToInt, IntegerField;
    var sig := Signature(a, b) + extra;
    SignatureHead(a, b, extra);
    SignatureHead(a, b, []);
    ShortSize(sig);
    SignatureBody(a, b);
    DecodeBody(a, b);
    assert Signature(a, b) + [] == Signature(a, b);
    assert sig[..|Signature(a, b)|] == Signature(a, b);
    assert |extra| == 0 ==> sig == Signature(a, b);
  }

  lemma ShortVarstr(b: Bytes)
    requires |b| < 0xfd && b != [0]
    ensures Varstr(b) == [|b|] + b
  {
  }

  lemma EncodeIsSignature(r: nat, s: nat)
    requires 0 < r < Pow(256, 32) && 0 < s < Pow(256, 32)
    ensures Encode(r, s) == Ok(Signature(IntBytes(r), IntBytes(s)))
  {
    hide Pow, IntBytes, Varstr;
    var a, b := IntBytes(r), IntBytes(s);
    ShortVarstr(a);
    ShortVarstr(b);
    var content := WriteInt(r) + WriteInt(s);
    ShortVarstr(content);
    assert [SEQUENCE] + ([|content|] + content) == Signature(a, b);
  }

  /** Decoding an encoded pair returns it with nothing or one byte behind it, and only then. Both
      integers are written in as few bytes as possible and every length fits one short byte. */
  lemma DecodeEncode(r: nat, s: nat, extra: Bytes)
    requires 0 < r < Pow(256, 32) && 0 < s < Pow(256, 32)
    ensures exists a, b ::
              && IsPositiveInteger(a) && IsPositiveInteger(b) && |a| <= 33 && |b| <= 33
              && Encode(r, s) == Ok(Signature(a, b))
    ensures Encode(r, s).Ok?
    ensures Decode(Encode(r, s).value + extra) == Ok((r, s)) <==> |extra| <= 1
    ensures 8 <= |Encode(r, s).value| <= 72
  {
    hide *;
    hide Encode, Decode;
    var a, b := IntBytes(r), IntBytes(s);
    EncodeIsSignature(r, s);
    IntBytesArePositive(r);
    IntBytesArePositive(s);
    DecodeSignature(a, b, extra);
    SignatureLength(a, b);
  }

  lemma SignatureLength(a: Bytes, b: Bytes)
    requires 0 < |a| <= 33 && 0 < |b| <= 33
    ensures |Signature(a, b)| == 6 + |a| + |b|
  {
  }

  /** Two contents that are the shortest for positive integers, and nothing else. */
  ghost predicate IsStrictSignature(sig: Bytes) {
    exists a: Bytes, b: Bytes :: IsSignatureOf(sig, a, b)
  }

  ghost predicate IsSignatureOf(sig: Bytes, a: Bytes, b: Bytes) {
    && IsPositiveInteger(a) && IsPositiveInteger(b) && |a| <= 33 && |b| <= 33
    && sig == Signature(a, b)
  }

  lemma StrictEncodes(a: Bytes, b: Bytes)
    requires IsPositiveInteger(a) && IsPositiveInteger(b) && |a| <= 33 && |b| <= 33
    ensures var d := Decode(Signature(a, b));
            d.Ok? && Encode(d.value.0, d.value.1) == Ok(Signature(a, b))
  {
    hide ValBE, Decode, Encode, IntBytes, Signature, Pow;
    DecodeSignature(a, b, []);
    assert Signature(a, b) + [] == Signature(a, b);
    IntBytesOfValue(a);
    IntBytesOfValue(b);
    EncodeIsSignature(ValBE(a, 256), ValBE(b, 256));
  }

  /** Of all the byte strings the decoder accepts, encoding the numbers again gives back exactly the
      strictly encoded ones. */
  lemma EncodeDecodeIff(sig: Bytes)
    requires Decode(sig).Ok?
    ensures var (r, s) := Decode(sig).value;
            Encode(r, s) == Ok(sig) <==> IsStrictSignature(sig)
  {
    hide Decode, IsPositiveInteger, IntBytes, Signature, Pow, WriteInt;
    var (r, s) := Decode(sig).value;
    if Encode(r, s) == Ok(sig) {
      EncodeIsSignature(r, s);
      IntBytesArePositive(r);
      IntBytesArePositive(s);
      assert IsSignatureOf(sig, IntBytes(r), IntBytes(s));
    }
    if IsStrictSignature(sig) {
      var a: Bytes, b: Bytes :| IsSignatureOf(sig, a, b);
      StrictEncodes(a, b);
    }
  }
}
