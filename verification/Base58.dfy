/** Base58: `base58encode`, and `change_base` from base 58 to base 256. */
module Base58 {
  import opened Digits
  import opened Sequences

  const NUMERALS: string := "123456789"
  const CAPITALS: string := "ABCDEFGHJKLMNPQRSTUVWXYZ"
  const A_TO_K: string := "abcdefghijk"
  const M_TO_Z: string := "mnopqrstuvwxyz"
  const ALPHABET: string := NUMERALS + CAPITALS + A_TO_K + M_TO_Z

  // ---------------------------------------------------------------- changing the base of digits

  /** The same number in another base, keeping the number of leading zero digits. */
  function Rebase(s: seq<nat>, b: nat, c: nat): seq<nat>
    requires c >= 2
  {
    Zeros(LeadingZeros(s)) + MinBE(ValBE(s, b), c)
  }

  /** Changing the base is a bijection on digit strings, leading zeros included. */
  lemma RebaseBack(s: seq<nat>, b: nat, c: nat)
    requires b >= 2 && c >= 2 && AreDigits(s, b)
    ensures AreDigits(Rebase(s, b, c), c)
    ensures Rebase(Rebase(s, b, c), c, b) == s
  {
    hide ValBE, MinBE, LeadingZeros;
    SplitZeros(s);
    var k := LeadingZeros(s);
    var t, u := s[k..], MinBE(ValBE(s, b), c);
    ValLeadingZeros(k, t, b);
    ValLeadingZeros(k, u, c);
    ValOfMin(ValBE(s, b), c);
    LeadingZerosOf(k, u);
    MinOfVal(t, b);
  }

  // ---------------------------------------------------------------- characters

  /** The digit a character stands for, 58 when the code raises. A character outside the alphabet is
      looked up again in lower case. */
  function DigitOf(c: char): nat {
    var pos := IndexFrom(ALPHABET, c, 0);
    if pos < 58 then pos else IndexFrom(ALPHABET, LowerChar(c), 0)
  }

  function DigitsOf(s: string): (r: seq<nat>)
    ensures |r| == |s| && forall i :: 0 <= i < |s| ==> r[i] == DigitOf(s[i])
  {
    seq(|s|, i requires 0 <= i < |s| => DigitOf(s[i]))
  }

  function CharsOf(digits: seq<nat>): (r: string)
    requires AreDigits(digits, 58)
    ensures |r| == |digits| && forall i :: 0 <= i < |digits| ==> r[i] == ALPHABET[digits[i]]
  {
    seq(|digits|, i requires 0 <= i < |digits| => ALPHABET[digits[i]])
  }

  /** The place of a character in the alphabet, which skips I, O and l. */
  function Rank(c: char): (r: nat)
    ensures r <= 58
  {
    var n := c as int;
    if '1' <= c <= '9' then n - 49
    else if 'A' <= c <= 'H' then n - 56
    else if 'J' <= c <= 'N' then n - 57
    else if 'P' <= c <= 'Z' then n - 58
    else if 'a' <= c <= 'k' then n - 64
    else if 'm' <= c <= 'z' then n - 65
    else 58
  }

  lemma RankOfNumeral(i: nat)
    requires i < 9
    ensures |NUMERALS| == 9 && Rank(NUMERALS[i]) == i
  {
  }

  lemma RankOfCapital(i: nat)
    requires i < 24
    ensures |CAPITALS| == 24 && Rank(CAPITALS[i]) == 9 + i
  {
  }

  lemma RankOfEarlySmall(i: nat)
    requires i < 11
    ensures |A_TO_K| == 11 && Rank(A_TO_K[i]) == 33 + i
  {
  }

  lemma RankOfLateSmall(i: nat)
    requires i < 14
    ensures |M_TO_Z| == 14 && Rank(M_TO_Z[i]) == 44 + i
  {
  }

  lemma RankOfIndex(i: nat)
    requires i < 58
    ensures |ALPHABET| == 58 && Rank(ALPHABET[i]) == i
  {
    hide Rank;
    if i < 9 {
      RankOfNumeral(i);
    } else if i < 33 {
      RankOfCapital(i - 9);
    } else if i < 44 {
      RankOfEarlySmall(i - 33);
    } else {
      RankOfLateSmall(i - 44);
    }
  }

  lemma CharAtRank(c: char)
    ensures |ALPHABET| == 58 && (Rank(c) < 58 ==> ALPHABET[Rank(c)] == c)
  {
  }

  lemma IndexIsRank(c: char)
    ensures IndexFrom(ALPHABET, c, 0) == Rank(c)
  {
    hide IndexFrom, Rank;
    CharAtRank(c);
    var r := IndexFrom(ALPHABET, c, 0);
    if r < 58 {
      RankOfIndex(r);
    }
  }

  /** What a decoder reads a character as. */
  function Canonical(c: char): char {
    if c == 'I' || c == 'O' then LowerChar(c) else c
  }

  function CanonicalString(s: string): (r: string)
    ensures |r| == |s| && forall i :: 0 <= i < |s| ==> r[i] == Canonical(s[i])
  {
    seq(|s|, i requires 0 <= i < |s| => Canonical(s[i]))
  }

  lemma SkippedCapitals(c: char)
    ensures 'A' <= c <= 'Z' ==> (Rank(c) == 58 <==> c == 'I' || c == 'O')
    ensures c == 'I' || c == 'O' ==> Rank(LowerChar(c)) < 58
  {
  }

  /** The characters of the alphabet are their own digits; besides them only I and O are accepted, as
      i and o. */
  lemma DigitOfChar(c: char)
    ensures DigitOf(c) < 58 <==> c in ALPHABET || c == 'I' || c == 'O'
    ensures |ALPHABET| == 58 && (DigitOf(c) < 58 ==> ALPHABET[DigitOf(c)] == Canonical(c))
    ensures c in ALPHABET ==> Canonical(c) == c
  {
    hide IndexFrom, Rank;
    IndexIsRank(c);
    IndexIsRank(LowerChar(c));
    CharAtRank(c);
    CharAtRank(LowerChar(c));
    SkippedCapitals(c);
    if c in ALPHABET {
      var i: nat :| i < |ALPHABET| && ALPHABET[i] == c;
      RankOfIndex(i);
    }
  }

  lemma DigitOfAlphabet(v: nat)
    requires v < 58
    ensures |ALPHABET| == 58 && DigitOf(ALPHABET[v]) == v
  {
    RankOfIndex(v);
    IndexIsRank(ALPHABET[v]);
  }

  lemma DigitsOfChars(digits: seq<nat>)
    requires AreDigits(digits, 58)
    ensures DigitsOf(CharsOf(digits)) == digits
  {
    forall i | 0 <= i < |digits| ensures DigitOf(CharsOf(digits)[i]) == digits[i] {
      DigitOfAlphabet(digits[i]);
    }
  }

  lemma CharsOfDigits(s: string)
    requires AreDigits(DigitsOf(s), 58)
    ensures CharsOf(DigitsOf(s)) == CanonicalString(s)
  {
    forall i | 0 <= i < |s| ensures CharsOf(DigitsOf(s))[i] == Canonical(s[i]) {
      DigitOfChar(s[i]);
    }
  }

  // ---------------------------------------------------------------- encoding

  function Encode(inp: Bytes): string {
    RebaseBack(inp, 256, 58);
    CharsOf(Rebase(inp, 256, 58))
  }

  lemma {:induction false} EncodeParts(inp: Bytes)
    ensures var k := LeadingZeros(inp);
            Encode(inp) == CharsOf(Zeros(k)) + CharsOf(MinBE(ValBE(inp[k..], 256), 58))
  {
    SplitZeros(inp);
    ValLeadingZeros(LeadingZeros(inp), inp[LeadingZeros(inp)..], 256);
  }

  /** The number that a string stands for, by the places of its characters. */
  function NumberOf(s: string): nat {
    if s == "" then 0 else 58 * NumberOf(s[..|s| - 1]) + Rank(s[|s| - 1])
  }

  /** Exactly `k` times the character 1 in front. */
  predicate BeginsWithOnes(s: string, k: nat) {
    k <= |s| && (forall i :: 0 <= i < k ==> s[i] == '1') && (k < |s| ==> s[k] != '1')
  }

  predicate HasPlaces(s: string) {
    forall i :: 0 <= i < |s| ==> Rank(s[i]) < 58
  }

  function Ranks(s: string): (r: seq<nat>)
    ensures |r| == |s| && forall i :: 0 <= i < |s| ==> r[i] == Rank(s[i])
  {
    seq(|s|, i requires 0 <= i < |s| => Rank(s[i]))
  }

  lemma {:induction false} NumberIsValue(s: string)
    ensures NumberOf(s) == ValBE(Ranks(s), 58)
  {
    hide Rank;
    if s != "" {
      NumberIsValue(s[..|s| - 1]);
      assert Ranks(s)[..|s| - 1] == Ranks(s[..|s| - 1]);
    }
  }

  lemma RankOfOne(c: char)
    ensures Rank(c) == 0 <==> c == '1'
  {
  }

  lemma OnesAreLeading(s: string, k: nat)
    ensures BeginsWithOnes(s, k) <==> k == LeadingZeros(Ranks(s))
  {
    hide Rank;
    forall c: char ensures Rank(c) == 0 <==> c == '1' {
      RankOfOne(c);
    }
    if k <= |s| {
      LeadingZerosAre(Ranks(s), k);
    }
    if k < |s| {
      LeadingZerosAre(Ranks(s), k + 1);
    }
  }

  lemma RanksOfChars(digits: seq<nat>)
    requires AreDigits(digits, 58)
    ensures Ranks(CharsOf(digits)) == digits
  {
    hide Rank;
    forall i | 0 <= i < |digits|
      ensures Ranks(CharsOf(digits))[i] == digits[i]
    {
      RankOfIndex(digits[i]);
    }
  }

  lemma CharsOfRanks(s: string)
    requires HasPlaces(s)
    ensures CharsOf(Ranks(s)) == s
  {
    hide Rank;
    forall i | 0 <= i < |s|
      ensures CharsOf(Ranks(s))[i] == s[i]
    {
      CharAtRank(s[i]);
    }
  }

  /** Digits are determined by their number and how many zeros they begin with. */
  lemma RebasedIff(s: seq<nat>, digits: seq<nat>)
    requires AreDigits(s, 256) && AreDigits(digits, 58)
    ensures Rebase(s, 256, 58) == digits
            <==> LeadingZeros(digits) == LeadingZeros(s) && ValBE(digits, 58) == ValBE(s, 256)
  {
    hide ValBE, MinBE, LeadingZeros;
    SplitZeros(s);
    SplitZeros(digits);
    var k, j := LeadingZeros(s), LeadingZeros(digits);
    var u := MinBE(ValBE(s, 256), 58);
    ValLeadingZeros(k, s[k..], 256);
    ValLeadingZeros(k, u, 58);
    ValOfMin(ValBE(s, 256), 58);
    LeadingZerosOf(k, u);
    ValLeadingZeros(j, digits[j..], 58);
    MinOfVal(digits[j..], 58);
  }

  /** The encoding is the one string of the alphabet that stands for the number of the bytes and begins with as many
      characters 1 as they begin with zeros. */
  lemma EncodeIff(inp: Bytes, s: string)
    ensures Encode(inp) == s
            <==> HasPlaces(s) && BeginsWithOnes(s, LeadingZeros(inp)) && NumberOf(s) == ValBE(inp, 256)
  {
    hide Rank, Rebase, LeadingZeros, ValBE, BeginsWithOnes, NumberOf;
    var digits := Rebase(inp, 256, 58);
    RebaseBack(inp, 256, 58);
    if Encode(inp) == s {
      RanksOfChars(digits);
    }
    if HasPlaces(s) {
      CharsOfRanks(s);
      RebasedIff(inp, Ranks(s));
      OnesAreLeading(s, LeadingZeros(inp));
      NumberIsValue(s);
    }
  }

  lemma ValueStep(s: seq<nat>, d: nat, b: nat)
    ensures ValBE(s + [d], b) == ValBE(s, b) * b + d
  {
    assert (s + [d])[..|s|] == s;
  }

  lemma NumberStep(s: string, c: char)
    ensures NumberOf(s + [c]) == 58 * NumberOf(s) + Rank(c)
  {
    assert (s + [c])[..|s|] == s;
  }

  /** Two zero bytes and the number 256. */
  lemma EncodedExample()
    ensures Encode([0, 0, 1, 0]) == "115R"
  {
    hide *;
    EncodeIff([0, 0, 1, 0], "115R");
    ExampleValue();
    ExampleNumber();
    ExampleZeros();
    ExampleOnes();
  }

  lemma ExampleZeros()
    ensures LeadingZeros([0, 0, 1, 0]) == 2
  {
    hide LeadingZeros;
    var b: Bytes := [0, 0, 1, 0];
    LeadingZerosAre(b, 2);
    LeadingZerosAre(b, 3);
    assert b[2] == 1;
  }

  lemma ExampleOnes()
    ensures HasPlaces("115R") && BeginsWithOnes("115R", 2)
  {
  }

  lemma ExampleValue()
    ensures ValBE([0, 0, 1, 0], 256) == 256
  {
    var zero: seq<nat> := [0];
    assert ValBE(zero, 256) == 0;
    ValueStep(zero, 0, 256);
    ValueStep(zero + [0], 1, 256);
    assert ValBE(zero + [0] + [1], 256) == 1;
    ValueStep(zero + [0] + [1], 0, 256);
    assert ValBE(zero + [0] + [1] + [0], 256) == 256;
    assert zero + [0] + [1] + [0] == [0, 0, 1, 0];
  }

  lemma ExampleNumber()
    ensures NumberOf("115R") == 256
  {
    assert NumberOf("1") == 0;
    NumberStep("1", '1');
    NumberStep("1" + "1", '5');
    NumberStep("1" + "1" + "5", 'R');
    hide NumberOf;
    assert "1" + "1" + "5" + "R" == "115R";
  }

  function DigitChar(d: nat): char
    requires d < 58
  {
    ALPHABET[d]
  }

  lemma CharsStep(acc: nat)
    requires acc > 0
    ensures acc / 58 < acc
    ensures CharsOf(MinBE(acc, 58)) == CharsOf(MinBE(acc / 58, 58)) + [DigitChar(acc % 58)]
  {
    DivShrinks(acc, 58);
  }

  lemma NoChars()
    ensures CharsOf(MinBE(0, 58)) == ""
  {
  }

  /** The string holds the digits divided off so far. */
  method DigitLoop(n: nat) returns (encoded: string)
    ensures encoded == CharsOf(MinBE(n, 58))
  {
    hide *;
    NoChars();
    var acc := n;
    encoded := "";
    while acc > 0
      invariant CharsOf(MinBE(acc, 58)) + encoded == CharsOf(MinBE(n, 58))
    {
      CharsStep(acc);
      acc, encoded := acc / 58, [DigitChar(acc % 58)] + encoded;
    }
  }

  /** `inp.lstrip(b'\0')`, as the number of bytes it strips. */
  method StrippedZeros(inp: Bytes) returns (n: nat)
    ensures n == LeadingZeros(inp)
  {
    n := 0;
    while n < |inp| && inp[n] == 0
      invariant n <= |inp| && forall j :: 0 <= j < n ==> inp[j] == 0
    {
      n := n + 1;
    }
    LeadingZerosAre(inp, n);
    if n < |inp| {
      LeadingZerosAre(inp, n + 1);
    }
  }

  /** `base58encode`. */
  method Base58Encode(inp: Bytes) returns (encoded: string)
    ensures encoded == Encode(inp)
  {
    hide Encode, LeadingZeros;
    var paddingZeros := StrippedZeros(inp);
    encoded := DigitLoop(ValBE(inp[paddingZeros..], 256));
    EncodeParts(inp);
    encoded := CharsOf(Zeros(paddingZeros)) + encoded;
  }

  // ---------------------------------------------------------------- decoding

  /** The code returns the number 0, not an empty byte string, when there is nothing to return. */
  datatype Decoded = Decoded(bytes: Bytes) | NumberZero | UnknownCharacter

  function Padded(s: seq<nat>, minLength: nat): seq<nat> {
    if |s| < minLength then Zeros(minLength - |s|) + s else s
  }

  /** `change_base(s, 58, 256, min_length)`. */
  function Decode(s: string, minLength: nat): Decoded {
    if !AreDigits(DigitsOf(s), 58) then UnknownCharacter
    else
      RebaseBack(DigitsOf(s), 58, 256);
      var output := Padded(Rebase(DigitsOf(s), 58, 256), minLength);
      if output == [] then NumberZero else Decoded(output)
  }

  lemma NumeralOne(c: char)
    ensures |ALPHABET| == 58 && (DigitOf(c) == 0 <==> c == '1')
  {
    DigitOfChar(c);
    DigitOfAlphabet(0);
  }

  /** What the loop over the characters knows: the number so far, the weight of the next character and
      a count of the zeros that have nothing but the first character before them. */
  ghost predicate IsRead(ds: seq<nat>, left: nat, inputDec: int, factor: int, addZeros: nat) {
    && left <= |ds|
    && AreDigits(ds[left..], 58)
    && inputDec == ValBE(ds[left..], 58)
    && factor == Pow(58, |ds| - left)
    && addZeros == if LeadingZeros(ds) > left then LeadingZeros(ds) - left else 0
  }

  lemma ReadStep(s: string, left: nat, inputDec: int, factor: int, addZeros: nat)
    requires 0 < left <= |s| && IsRead(DigitsOf(s), left, inputDec, factor, addZeros)
    ensures var pos := DigitOf(s[left - 1]);
            var leading := pos == 0 && forall j :: 0 <= j < left - 1 ==> s[j] == '1';
            pos < 58 ==> IsRead(DigitsOf(s), left - 1, inputDec + pos * factor, factor * 58,
                                if leading then addZeros + 1 else addZeros)
  {
    hide ValBE, Pow, DigitOf, LeadingZeros;
    var ds := DigitsOf(s);
    NextDigit(ds, left - 1);
    NumeralOne(s[left - 1]);
    AllOnes(s, left);
    AllOnes(s, left - 1);
    assert ds[left - 1..] == [ds[left - 1]] + ds[left..];
  }

  lemma ReadNothing(ds: seq<nat>)
    ensures IsRead(ds, |ds|, 0, 1, 0)
  {
  }

  lemma ReadAll(ds: seq<nat>, inputDec: int, factor: int, addZeros: nat)
    requires IsRead(ds, 0, inputDec, factor, addZeros)
    ensures AreDigits(ds, 58) && inputDec == ValBE(ds, 58) && addZeros == LeadingZeros(ds)
  {
    assert ds[0..] == ds;
  }

  lemma UnknownAt(s: string, i: nat)
    requires i < |s| && DigitOf(s[i]) >= 58
    ensures !AreDigits(DigitsOf(s), 58)
  {
    assert DigitsOf(s)[i] >= 58;
  }

  /** The first loop of `change_base`: characters taken from the end. */
  method ReadLoop(chars: string) returns (known: bool, inputDec: nat, addZeros: nat)
    ensures known == AreDigits(DigitsOf(chars), 58)
    ensures known ==> inputDec == ValBE(DigitsOf(chars), 58) && addZeros == LeadingZeros(DigitsOf(chars))
  {
    hide *;
    var inp: string := chars;
    var factor: nat := 1;
    inputDec, addZeros := 0, 0;
    ReadNothing(DigitsOf(chars));
    while inp != ""
      invariant inp <= chars && IsRead(DigitsOf(chars), |inp|, inputDec, factor, addZeros)
      decreases |inp|
    {
      var item := inp[|inp| - 1];
      var pos := DigitOf(item);
      if pos >= 58 {
        UnknownAt(chars, |inp| - 1);
        return false, inputDec, addZeros;
      }
      ReadStep(chars, |inp|, inputDec, factor, addZeros);
      inp := inp[..|inp| - 1];
      inputDec := inputDec + pos * factor;
      if pos == 0 && forall j :: 0 <= j < |inp| ==> inp[j] == '1' {
        addZeros := addZeros + 1;
      }
      factor := factor * 58;
    }
    ReadAll(DigitsOf(chars), inputDec, factor, addZeros);
    known := true;
  }

  /** The second loop of `change_base`. */
  method DivmodLoop(n: nat) returns (output: seq<nat>)
    ensures output == MinBE(n, 256)
  {
    var inputDec := n;
    output := [];
    while inputDec > 0
      invariant MinBE(inputDec, 256) + output == MinBE(n, 256)
    {
      inputDec, output := inputDec / 256, [inputDec % 256] + output;
    }
  }

  /** `change_base(chars, 58, 256, min_length)`. */
  method ChangeBase(chars: string, minLength: nat) returns (r: Decoded)
    ensures r == Decode(chars, minLength)
  {
    var known, inputDec, addZeros := ReadLoop(chars);
    if !known {
      return UnknownCharacter;
    }
    var output := DivmodLoop(inputDec);
    RebaseBack(DigitsOf(chars), 58, 256);
    output := Padded(Zeros(addZeros) + output, minLength);
    r := if output == [] then NumberZero else Decoded(output);
  }

  lemma AllOnes(s: string, n: nat)
    requires n <= |s|
    ensures (forall j :: 0 <= j < n ==> s[j] == '1') <==> n <= LeadingZeros(DigitsOf(s))
  {
    LeadingZerosAre(DigitsOf(s), n);
    forall j | 0 <= j < n ensures DigitsOf(s)[j] == 0 <==> s[j] == '1' {
      NumeralOne(s[j]);
    }
  }

  lemma NextDigit(ds: seq<nat>, i: nat)
    requires i < |ds|
    ensures ValBE(ds[i..], 58) == ValBE(ds[i + 1..], 58) + ds[i] * Pow(58, |ds| - i - 1)
    ensures Pow(58, |ds| - i) == Pow(58, |ds| - i - 1) * 58
  {
    assert ds[i..] == [ds[i]] + ds[i + 1..];
    ValBEConcat([ds[i]], ds[i + 1..], 58);
    assert [ds[i]][..0] == [];
  }

  // ---------------------------------------------------------------- there and back

  /** Decoding an encoded byte string returns it, with every leading zero byte, exactly when it is not
      empty and not shorter than the length asked for. */
  lemma DecodeEncodeIff(b: Bytes, minLength: nat)
    ensures Decode(Encode(b), minLength) == Decoded(b) <==> b != [] && minLength <= |b|
  {
    hide ValBE, MinBE, LeadingZeros, DigitOf;
    RebaseBack(b, 256, 58);
    DigitsOfChars(Rebase(b, 256, 58));
  }

  lemma PaddedZeros(s: seq<nat>, n: nat)
    requires AreDigits(s, 256)
    ensures Rebase(Zeros(n) + s, 256, 58) == Zeros(n) + Rebase(s, 256, 58)
  {
    hide ValBE, MinBE, LeadingZeros;
    SplitZeros(s);
    var k := LeadingZeros(s);
    var t := s[k..];
    assert Zeros(n) + s == Zeros(n + k) + t;
    LeadingZerosOf(n + k, t);
    ValLeadingZeros(n + k, t, 256);
    ValLeadingZeros(k, t, 256);
    assert Zeros(n + k) == Zeros(n) + Zeros(k);
  }

  function Ones(n: nat): (r: string)
    ensures |r| == n
  {
    seq(n, i => '1')
  }

  /** How many zero bytes the decoder puts in front to reach the length asked for. */
  function PaddingOf(s: string, minLength: nat): nat
  {
    var n := |Rebase(DigitsOf(s), 58, 256)|;
    if n < minLength then minLength - n else 0
  }

  lemma OnesAreZeros(n: nat, digits: seq<nat>)
    requires AreDigits(digits, 58)
    ensures CharsOf(Zeros(n) + digits) == Ones(n) + CharsOf(digits)
  {
    assert ALPHABET[0] == '1';
  }

  /** Decoding and encoding again gives, up to I and O, the string itself behind a '1' for every byte of padding:
      for every length asked for, 25 as for addresses among them, and only as many as reach that length. Only the
      empty string decodes to nothing. */
  lemma EncodeDecode(s: string, minLength: nat)
    requires Decode(s, minLength) != UnknownCharacter
    ensures Decode(s, minLength).Decoded? <==> s != "" || minLength > 0
    ensures Decode(s, minLength).Decoded? ==>
              Encode(Decode(s, minLength).bytes) == Ones(PaddingOf(s, minLength)) + CanonicalString(s)
    ensures Decode(s, minLength).Decoded? ==>
              && |Decode(s, minLength).bytes| >= minLength
              && (PaddingOf(s, minLength) > 0 ==> |Decode(s, minLength).bytes| == minLength)
  {
    hide ValBE, MinBE, LeadingZeros, DigitOf, Rebase;
    var bytes, n := Rebase(DigitsOf(s), 58, 256), PaddingOf(s, minLength);
    RebaseBack(DigitsOf(s), 58, 256);
    RebasedIsEmpty(DigitsOf(s));
    CharsOfDigits(s);
    assert Zeros(0) + bytes == bytes;
    PaddedZeros(bytes, n);
    OnesAreZeros(n, DigitsOf(s));
  }

  lemma RebasedIsEmpty(s: seq<nat>)
    requires AreDigits(s, 58)
    ensures Rebase(s, 58, 256) == [] <==> s == []
  {
    RebaseBack(s, 58, 256);
  }

  lemma AcceptedCharacters(s: string, minLength: nat)
    ensures Decode(s, minLength) != UnknownCharacter <==>
              forall i :: 0 <= i < |s| ==> s[i] in ALPHABET || s[i] == 'I' || s[i] == 'O'
  {
    forall i | 0 <= i < |s|
      ensures DigitsOf(s)[i] < 58 <==> s[i] in ALPHABET || s[i] == 'I' || s[i] == 'O'
    {
      DigitOfChar(s[i]);
    }
  }

  /** Encoding gives back the very string exactly when it is written in the alphabet and decodes to as many bytes as
      are asked for without padding. */
  lemma EncodeDecodeIff(s: string, minLength: nat)
    requires Decode(s, minLength).Decoded?
    ensures Encode(Decode(s, minLength).bytes) == s
            <==> minLength <= |Rebase(DigitsOf(s), 58, 256)| && forall i :: 0 <= i < |s| ==> s[i] in ALPHABET
  {
    hide *;
    EncodeDecode(s, minLength);
    CanonicalStringIff(s, minLength);
    BehindOnes(PaddingOf(s, minLength), CanonicalString(s), s);
    NoPadding(s, minLength);
  }

  lemma NoPadding(s: string, minLength: nat)
    ensures PaddingOf(s, minLength) == 0 <==> minLength <= |Rebase(DigitsOf(s), 58, 256)|
  {
    hide Rebase;
  }

  lemma BehindOnes(n: nat, t: string, s: string)
    requires |t| == |s|
    ensures Ones(n) + t == s <==> n == 0 && t == s
  {
    assert |Ones(n) + t| == n + |s|;
    assert n == 0 ==> Ones(n) + t == t;
  }

  lemma CanonicalStringIff(s: string, minLength: nat)
    requires Decode(s, minLength) != UnknownCharacter
    ensures CanonicalString(s) == s <==> forall i :: 0 <= i < |s| ==> s[i] in ALPHABET
  {
    hide Decode, Canonical;
    forall i | 0 <= i < |s|
      ensures CanonicalString(s)[i] == s[i] <==> s[i] in ALPHABET
    {
      CanonicalIff(s, minLength, i);
    }
  }

  lemma CanonicalIff(s: string, minLength: nat, i: nat)
    requires i < |s| && Decode(s, minLength) != UnknownCharacter
    ensures Canonical(s[i]) == s[i] <==> s[i] in ALPHABET
  {
    DigitOfChar(s[i]);
    AcceptedCharacters(s, minLength);
  }
}
