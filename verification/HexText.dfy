/** `to_bytes`: byte strings that are read as hexadecimal text. */
module HexText {
  import opened Digits
  import opened Wrappers

  /** ASCII white space, which `bytes.fromhex` skips between two bytes. */
  predicate IsSpace(c: byte) {
    c == 32 || 9 <= c <= 13
  }

  /** The value of a hexadecimal digit; 16 for any other character. */
  function HexDigit(c: byte): (d: nat)
    ensures d <= 16
  {
    if '0' as int <= c <= '9' as int then c - '0' as int
    else if 'A' as int <= c <= 'F' as int then c - 'A' as int + 10
    else if 'a' as int <= c <= 'f' as int then c - 'a' as int + 10
    else 16
  }

  predicate IsHexDigit(c: byte) {
    HexDigit(c) < 16
  }

  /** `bytes.fromhex`; None when it raises. */
  function FromHex(s: Bytes): (r: Option<Bytes>)
    ensures r.Some? ==> 2 * |r.value| <= |s|
  {
    if s == [] then Some([])
    else if IsSpace(s[0]) then FromHex(s[1..])
    else if |s| >= 2 && IsHexDigit(s[0]) && IsHexDigit(s[1]) then
      match FromHex(s[2..])
      case None => None
      case Some(rest) => Some([16 * HexDigit(s[0]) + HexDigit(s[1])] + rest)
    else None
  }

  predicate IsHexText(s: Bytes) {
    FromHex(s).Some?
  }

  /** `to_bytes`, of a byte string or of a text given by its UTF-8 bytes. */
  function ToBytes(s: Bytes): Bytes {
    match FromHex(s)
    case Some(b) => b
    case None => s
  }

  /** A byte string is left alone exactly when it is not hexadecimal text. */
  lemma LeftAloneIff(s: Bytes)
    ensures ToBytes(s) == s <==> s == [] || !IsHexText(s)
    ensures IsHexText(s) ==> 2 * |ToBytes(s)| <= |s|
  {
  }

  lemma NotHexText(s: Bytes)
    requires s != [] && !IsSpace(s[0]) && !IsHexDigit(s[0])
    ensures !IsHexText(s)
  {
  }

  /** Text of one digit written over and over. */
  lemma {:induction false} RepeatedDigit(c: byte, n: nat)
    requires IsHexDigit(c) && !IsSpace(c)
    ensures FromHex(Repeat(c, 2 * n)) == Some(Repeat(16 * HexDigit(c) + HexDigit(c), n))
  {
    if n > 0 {
      var s := Repeat(c, 2 * n);
      assert s[2..] == Repeat(c, 2 * (n - 1));
      RepeatedDigit(c, n - 1);
      var b: byte := 16 * HexDigit(c) + HexDigit(c);
      assert [b] + Repeat(b, n - 1) == Repeat(b, n);
    }
  }

  /** The character of a hexadecimal digit. */
  function HexChar(d: nat, upper: bool): byte
    requires d < 16
  {
    if d < 10 then 48 + d else if upper then 55 + d else 87 + d
  }

  /** A byte string as text, high digit first. */
  function HexOf(b: Bytes, upper: bool): Bytes {
    if b == [] then [] else [HexChar(b[0] / 16, upper), HexChar(b[0] % 16, upper)] + HexOf(b[1..], upper)
  }

  /** The text of a byte string, in either case, reads as the string. */
  lemma {:induction false} TextReadsBack(b: Bytes, upper: bool)
    ensures FromHex(HexOf(b, upper)) == Some(b)
  {
    if b != [] {
      TextReadsBack(b[1..], upper);
      var s := HexOf(b, upper);
      assert s[2..] == HexOf(b[1..], upper);
      assert !IsSpace(s[0]) && HexDigit(s[0]) == b[0] / 16 && HexDigit(s[1]) == b[0] % 16;
      assert [b[0]] + b[1..] == b;
    }
  }

  /** The codes of 0 to 9, A to F and a to f. */
  predicate IsDigitCode(c: byte) {
    48 <= c <= 57 || 65 <= c <= 70 || 97 <= c <= 102
  }

  /** White space between two bytes is skipped; a character that is no digit, and a digit alone, are no text. */
  lemma TextBroken(c: byte, s: Bytes)
    ensures c in {9, 10, 11, 12, 13, 32} ==> FromHex([c] + s) == FromHex(s)
    ensures c !in {9, 10, 11, 12, 13, 32} && !IsDigitCode(c) ==> FromHex([c] + s) == None
    ensures IsDigitCode(c) && (s == [] || !IsDigitCode(s[0])) ==> FromHex([c] + s) == None
  {
    assert ([c] + s)[1..] == s;
  }
}
