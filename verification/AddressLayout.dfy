/** Segwit addresses character by character, against the register of BIP 173 written out once more. */
module AddressLayout {
  import opened Digits
  import opened HexText
  import opened Regroup
  import opened Polymod
  import opened Bech32
  import opened Sequences
  import opened Wrappers

  // ---------------------------------------------------------------- the register

  /** The constants that the five high bits of a state add. */
  function Constants(chk: bv30): bv30 {
    (if (chk >> 25) & 1 != 0 then 0x3b6a57b2 else 0) ^ (if (chk >> 26) & 1 != 0 then 0x26508e6d else 0)
    ^ (if (chk >> 27) & 1 != 0 then 0x1ea119fa else 0) ^ (if (chk >> 28) & 1 != 0 then 0x3d4233dd else 0)
    ^ (if (chk >> 29) & 1 != 0 then 0x2a1462b3 else 0)
  }

  /** One symbol: the low 25 bits move up by five, and each of the five bits above them adds a constant. */
  function NextState(chk: bv30, v: bv30): bv30 {
    (((chk & 0x1ffffff) << 5) ^ Constants(chk)) ^ v
  }

  predicate AreSymbols(values: seq<nat>) {
    forall i :: 0 <= i < |values| ==> values[i] < 32
  }

  /** The register behind all the symbols, from a state on. */
  function RegisterFrom(chk: bv30, values: seq<nat>): bv30
    requires AreSymbols(values)
  {
    if values == [] then chk else NextState(RegisterFrom(chk, values[..|values| - 1]), values[|values| - 1] as bv30)
  }

  function Register(values: seq<nat>): bv30
    requires AreSymbols(values)
  {
    RegisterFrom(1, values)
  }

  lemma NextStateIs(chk: State, v: State)
    ensures NextState(chk, v) == Xor(Feedback(chk), v)
  {
    ConstantsAre(chk);
    hide Constants, AllTaps;
  }

  lemma ConstantsAre(chk: State)
    ensures Constants(chk) == AllTaps(chk)
  {
  }

  lemma {:induction false} FeedIs(chk: State, values: seq<nat>)
    requires IsSymbols(values)
    ensures Feed(chk, Symbols(values)) == RegisterFrom(chk, values)
    decreases |values|
  {
    hide Feedback, NextState, Xor;
    if values != [] {
      var init, v := values[..|values| - 1], values[|values| - 1];
      assert values == init + [v];
      FeedIs(chk, init);
      SymbolsConcat(init, [v]);
      FeedConcat(chk, Symbols(init), Symbols([v]));
      var before := RegisterFrom(chk, init);
      OneMore(before, v);
      NextStateIs(before, Symbol(v));
    }
  }

  lemma ChecksumIs(values: seq<nat>)
    requires IsSymbols(values)
    ensures Checksum(values) == Register(values)
  {
    FeedIs(1, values);
  }

  lemma OneMore(chk: State, v: nat)
    requires v < 32
    ensures Feed(chk, Symbols([v])) == Xor(Feedback(chk), Symbol(v))
  {
    hide Feedback, Xor, Symbol;
    assert Symbols([v])[1..] == [];
  }

  // ---------------------------------------------------------------- the characters

  function Character(v: nat): char
    requires v < 32
  {
    "qpzry9x8gf2tvdw0s3jn54khce6mua7l"[v]
  }

  function Characters(values: seq<nat>): (s: string)
    requires forall i :: 0 <= i < |values| ==> values[i] < 32
    ensures |s| == |values| && forall i :: 0 <= i < |s| ==> s[i] == Character(values[i])
  {
    seq(|values|, i requires 0 <= i < |values| => Character(values[i]))
  }

  /** The prefix as the register sees it: the high bits of its characters, a zero, the low bits. */
  function Expanded(hrp: string): (r: seq<nat>)
    requires forall i :: 0 <= i < |hrp| ==> 33 <= hrp[i] as int <= 126
    ensures forall i :: 0 <= i < |r| ==> r[i] < 32
    ensures |r| == 2 * |hrp| + 1 && r[|hrp|] == 0
    ensures forall i :: 0 <= i < |hrp| ==> r[i] == hrp[i] as int / 32 && r[|hrp| + 1 + i] == hrp[i] as int % 32
  {
    seq(|hrp|, i requires 0 <= i < |hrp| => hrp[i] as int / 32) + [0]
    + seq(|hrp|, i requires 0 <= i < |hrp| => hrp[i] as int % 32)
  }

  lemma ExpandedIs(hrp: string)
    requires forall i :: 0 <= i < |hrp| ==> 33 <= hrp[i] as int <= 126
    ensures (forall i :: 0 <= i < |hrp| ==> IsPrintable(hrp[i])) && ExpandPrefix(hrp) == Expanded(hrp)
  {
  }

  lemma CharactersAre(values: seq<nat>)
    requires IsSymbols(values)
    ensures SymbolChars(values) == Characters(values)
  {
  }

  /** Five-bit digits of the program's number, shifted up to a whole number of digits. */
  ghost predicate AreProgramDigits(digits: seq<nat>, program: Bytes) {
    && (forall i :: 0 <= i < |digits| ==> digits[i] < 32)
    && 8 * |program| <= 5 * |digits| < 8 * |program| + 5
    && ValBE(digits, 32) == ValBE(program, 256) * Pow(2, 5 * |digits| - 8 * |program|)
  }

  lemma ProgramDigitsAre(program: Bytes)
    ensures AreProgramDigits(ProgramSymbols(program), program)
  {
    hide ValBE, Bits, Padded;
    WidthsAre();
    assert AllInWidth(program, 8);
    RegroupedNumber(program, 8, 5);
    PaddingOfBytes(|program|);
  }

  lemma PaddingOfBytes(n: nat)
    ensures 0 <= Padding(n * 8, 5) < 5
  {
  }

  /** The digits of a program are determined by its length and its number. */
  lemma DigitsUnique(digits: seq<nat>, others: seq<nat>, program: Bytes)
    requires AreProgramDigits(digits, program) && AreProgramDigits(others, program)
    ensures digits == others
  {
    hide ValBE, FixBE, Pow;
    FixOfValBE(digits, 32);
    FixOfValBE(others, 32);
  }

  predicate IsPrintableText(s: string) {
    forall i :: 0 <= i < |s| ==> 33 <= s[i] as int <= 126
  }

  /** The prefix, a 1, the version, the digits of the program and six symbols that bring the register, from the prefix on,
      to 1 for version 0 and to 0x2bc830a3 for the others. */
  ghost predicate IsAddressOf(address: string, hrp: string, witver: nat, program: Bytes, digits: seq<nat>, sum: seq<nat>) {
    && witver < 32 && AreProgramDigits(digits, program) && AreSymbols(sum) && |sum| == 6 && IsPrintableText(hrp)
    && address == hrp + "1" + Characters([witver] + digits + sum)
    && Register(Expanded(hrp) + ([witver] + digits + sum)) == if witver == 0 then 1 else 0x2bc830a3
  }

  /** The address of a version and a program. */
  lemma AddressIff(address: string, hrp: string, witver: nat, program: Bytes)
    requires IsHrp(hrp) && witver <= 16
    ensures address == EncodeProgram(hrp, witver, program)
            <==> exists digits, sum :: IsAddressOf(address, hrp, witver, program, digits, sum)
  {
    hide IsAddressOf, EncodeProgram;
    var digits := ProgramSymbols(program);
    var sum := CreateChecksum(ExpandPrefix(hrp) + ([witver] + digits), ConstantFor(witver));
    ProgramDigitsAre(program);
    if address == EncodeProgram(hrp, witver, program) {
      EncodedIsAddress(hrp, witver, program, digits, sum);
    }
    forall d, c | IsAddressOf(address, hrp, witver, program, d, c) ensures address == EncodeProgram(hrp, witver, program) {
      AddressIsEncoded(address, hrp, witver, program, d, c, digits, sum);
    }
  }

  lemma EncodedIsAddress(hrp: string, witver: nat, program: Bytes, digits: seq<nat>, sum: seq<nat>)
    requires IsHrp(hrp) && witver <= 16 && digits == ProgramSymbols(program) && AreProgramDigits(digits, program)
    requires sum == CreateChecksum(ExpandPrefix(hrp) + ([witver] + digits), ConstantFor(witver))
    ensures IsAddressOf(EncodeProgram(hrp, witver, program), hrp, witver, program, digits, sum)
  {
    hide CreateChecksum, ProgramSymbols, EncodeProgram, SymbolChars, Characters, Register, ExpandPrefix, Expanded,
         AreProgramDigits, Checksum;
    var data := [witver] + digits;
    EncodedShape(hrp, witver, program);
    CharactersAre(data + sum);
    ExpandedIs(hrp);
    RegisterReaches(hrp, data, sum, witver);
  }

  lemma RegisterReaches(hrp: string, data: seq<nat>, sum: seq<nat>, witver: nat)
    requires IsHrp(hrp) && IsSymbols(data) && IsSymbols(sum)
    requires sum == CreateChecksum(ExpandPrefix(hrp) + data, ConstantFor(witver))
    ensures IsPrintableText(hrp) && AreSymbols(Expanded(hrp) + (data + sum))
    ensures Register(Expanded(hrp) + (data + sum)) == if witver == 0 then 1 else 0x2bc830a3
  {
    hide CreateChecksum, Register, ExpandPrefix, Expanded, Checksum;
    ExpandedIs(hrp);
    ChecksumHolds(ExpandPrefix(hrp) + data, ConstantFor(witver));
    SameJoined(hrp, data, sum);
    ChecksumIs(Expanded(hrp) + (data + sum));
  }

  lemma SameJoined(hrp: string, data: seq<nat>, sum: seq<nat>)
    requires IsHrp(hrp) && IsSymbols(data) && IsSymbols(sum)
    ensures IsPrintableText(hrp) && IsSymbols(Expanded(hrp) + (data + sum))
    ensures ExpandPrefix(hrp) + data + sum == Expanded(hrp) + (data + sum)
  {
    hide ExpandPrefix, Expanded;
    ExpandedIs(hrp);
    Associate(ExpandPrefix(hrp), data, sum);
  }

  lemma AddressIsEncoded(address: string, hrp: string, witver: nat, program: Bytes, d: seq<nat>, c: seq<nat>,
                         digits: seq<nat>, sum: seq<nat>)
    requires IsHrp(hrp) && witver <= 16 && digits == ProgramSymbols(program) && AreProgramDigits(digits, program)
    requires sum == CreateChecksum(ExpandPrefix(hrp) + ([witver] + digits), ConstantFor(witver))
    requires IsAddressOf(address, hrp, witver, program, d, c)
    ensures address == EncodeProgram(hrp, witver, program)
  {
    hide CreateChecksum, ProgramSymbols, EncodeProgram, SymbolChars, Characters, Register, ExpandPrefix, Expanded,
         AreProgramDigits, Checksum;
    DigitsUnique(d, digits, program);
    var data := [witver] + digits;
    EncodedShape(hrp, witver, program);
    CharactersAre(data + sum);
    SameSum(hrp, data, c, sum, witver);
  }

  lemma SameSum(hrp: string, data: seq<nat>, c: seq<nat>, sum: seq<nat>, witver: nat)
    requires IsHrp(hrp) && IsPrintableText(hrp) && AreSymbols(data) && AreSymbols(c) && |c| == 6
    requires sum == CreateChecksum(ExpandPrefix(hrp) + data, ConstantFor(witver))
    requires Register(Expanded(hrp) + (data + c)) == if witver == 0 then 1 else 0x2bc830a3
    ensures c == sum
  {
    hide CreateChecksum, Register, ExpandPrefix, Expanded, Checksum;
    RegisterReaches(hrp, data, sum, witver);
    var values := ExpandPrefix(hrp) + data;
    SameJoined(hrp, data, sum);
    SameJoined(hrp, data, c);
    ChecksumIs(values + sum);
    ChecksumIs(values + c);
    ChecksumUnique(values, c, sum);
  }

  /** A negative version: its character is counted from the end of the set, and the register is fed the number itself,
      as its lowest 30 bits. The six symbols bring it to 1. */
  ghost predicate IsNegativeAddressOf(address: string, hrp: string, back: nat, program: Bytes, digits: seq<nat>,
                                      sum: seq<nat>) {
    && 0 < back <= 32 && AreProgramDigits(digits, program) && AreSymbols(sum) && |sum| == 6 && IsPrintableText(hrp)
    && address == hrp + "1" + Characters([32 - back] + digits + sum)
    && RegisterFrom(NextState(Register(Expanded(hrp)), (0x4000_0000 - back) as bv30), digits + sum) == 1
  }

  lemma NegativeAddress(hrp: string, back: nat, program: Bytes)
    requires IsHrp(hrp) && 0 < back <= 32
    ensures exists digits, sum :: IsNegativeAddressOf(EncodeNegative(hrp, back, program), hrp, back, program, digits, sum)
  {
    hide ProgramSymbols, Characters, SymbolChars, Feed, Symbols, ChecksumSymbols, ExpandPrefix, Expanded, RegisterFrom,
         AreProgramDigits, NextState, Xor, NegativeSymbol;
    var tail := ProgramSymbols(program);
    var front := Symbols(ExpandPrefix(hrp)) + [NegativeSymbol(back)] + Symbols(tail);
    ProgramDigitsAre(program);
    SixReach(Feed(1, front), BECH32_CONST);
    FeedConcat(1, front, Symbols(SIX_ZEROS));
    var sum := ChecksumSymbols(Xor(Feed(Feed(1, front), Symbols(SIX_ZEROS)), BECH32_CONST));
    NegativeReaches(hrp, back, tail, sum);
    NegativeCharacters(hrp, back, tail, sum);
    assert IsNegativeAddressOf(EncodeNegative(hrp, back, program), hrp, back, program, tail, sum);
  }

  lemma NegativeCharacters(hrp: string, back: nat, tail: seq<nat>, sum: seq<nat>)
    requires IsSymbols(tail) && IsSymbols(sum) && 0 < back <= 32
    ensures hrp + "1" + SymbolChars([32 - back] + tail) + SymbolChars(sum)
            == hrp + "1" + Characters([32 - back] + tail + sum)
  {
    hide SymbolChars, Characters;
    SymbolCharsConcat([32 - back] + tail, sum);
    CharactersAre([32 - back] + tail + sum);
    Associate(hrp + "1", SymbolChars([32 - back] + tail), SymbolChars(sum));
  }

  lemma NegativeReaches(hrp: string, back: nat, tail: seq<nat>, sum: seq<nat>)
    requires IsHrp(hrp) && IsSymbols(tail) && IsSymbols(sum) && 0 < back <= 32
    ensures IsPrintableText(hrp) && NegativeSymbol(back) == (0x4000_0000 - back) as bv30
    ensures RegisterFrom(NextState(Register(Expanded(hrp)), NegativeSymbol(back)), tail + sum)
            == Feed(Feed(1, Symbols(ExpandPrefix(hrp)) + [NegativeSymbol(back)] + Symbols(tail)), Symbols(sum))
  {
    assert NegativeSymbol(back) == (0x4000_0000 - back) as bv30;
    hide Feed, Symbols, ExpandPrefix, Expanded, RegisterFrom, NextState, NegativeSymbol, Feedback, Xor;
    ExpandedIs(hrp);
    var front, neg := Symbols(ExpandPrefix(hrp)), NegativeSymbol(back);
    FeedIs(1, ExpandPrefix(hrp));
    FeedConcat(1, front, [neg]);
    FeedOne(Feed(1, front), neg);
    NextStateIs(Feed(1, front), neg);
    FeedConcat(1, front + [neg], Symbols(tail));
    SymbolsConcat(tail, sum);
    FeedConcat(Feed(1, front + [neg]), Symbols(tail), Symbols(sum));
    FeedIs(Feed(1, front + [neg]), tail + sum);
  }

  lemma FeedOne(chk: State, v: State)
    ensures Feed(chk, [v]) == Xor(Feedback(chk), v)
  {
    hide Feedback, Xor;
    assert [v][1..] == [];
  }

  /** What the encoder makes of bytes that are no hexadecimal text: of 20, 32 and 40 bytes the address of the version asked
      for; of others, which begin with a version and the length of the rest, the address of that version, where 0 leaves
      the version asked for and a first byte below 80 a negative one. Versions above 16 and below -32 raise. */
  lemma EncoderAnswers(x: Bytes, hrp: string, witver: nat)
    requires IsHrp(hrp) && !IsHexText(x)
    ensures |x| in {20, 32, 40} ==>
              Encode(x, hrp, witver) == if witver <= 16 then Ok(EncodeProgram(hrp, witver, x)) else Err
    ensures |x| !in {20, 32, 40} && (|x| < 2 || x[1] != |x| - 2) ==> Encode(x, hrp, witver) == Err
    ensures |x| !in {20, 32, 40} && |x| >= 2 && x[1] == |x| - 2 && x[0] == 0 ==>
              Encode(x, hrp, witver) == if witver <= 16 then Ok(EncodeProgram(hrp, witver, x[2..])) else Err
    ensures |x| !in {20, 32, 40} && |x| >= 2 && x[1] == |x| - 2 && 80 <= x[0] <= 96 ==>
              Encode(x, hrp, witver) == Ok(EncodeProgram(hrp, x[0] - 80, x[2..]))
    ensures |x| !in {20, 32, 40} && |x| >= 2 && x[1] == |x| - 2 && 48 <= x[0] < 80 ==>
              Encode(x, hrp, witver) == Ok(EncodeNegative(hrp, 80 - x[0], x[2..]))
    ensures |x| !in {20, 32, 40} && |x| >= 2 && x[1] == |x| - 2 && (0 < x[0] < 48 || x[0] > 96) ==>
              Encode(x, hrp, witver) == Err
  {
    hide EncodeProgram, EncodeNegative, FromHex;
    LeftAloneIff(x);
  }

  predicate PrefixFits(prefix: Option<string>, hrp: string) {
    prefix == None || prefix.value == "" || prefix.value == hrp
  }

  /** What the decoder accepts: printable characters of one case, not more than 90, that are in lower case the address of
      a version and a program of a size the version allows, with the prefix asked for if one is. */
  lemma DecoderAnswers(address: string, prefix: Option<string>, p: Parts)
    ensures DecodeParts(address, prefix) == Ok(p)
            <==> && (forall i :: 0 <= i < |address| ==> 33 <= address[i] as int <= 126)
                 && ((forall i :: 0 <= i < |address| ==> !('A' <= address[i] <= 'Z'))
                     || (forall i :: 0 <= i < |address| ==> !('a' <= address[i] <= 'z')))
                 && |address| <= 90
                 && (prefix == None || prefix.value == "" || prefix.value == p.hrp)
                 && IsHrp(p.hrp) && (if p.witver == 0 then |p.program| in {20, 32}
                                     else p.witver <= 16 && 2 <= |p.program| <= 40)
                 && Lower(address) == EncodeProgram(p.hrp, p.witver, p.program)
    ensures forall i :: 0 <= i < |address| ==>
              Lower(address)[i] == if 'A' <= address[i] <= 'Z' then (address[i] as int + 32) as char else address[i]
  {
    hide DecodeData, SplitLower, EncodeProgram, IsOneCase, DecodeParts, Lower;
    OneCaseIff(address);
    if DecodeParts(address, prefix) == Ok(p) {
      AcceptedAddress(address, prefix);
    }
    if IsOneCase(address) && |address| <= 90 && IsHrp(p.hrp) && IsProgramSize(p.witver, |p.program|)
       && Lower(address) == EncodeProgram(p.hrp, p.witver, p.program) && PrefixFits(prefix, p.hrp) {
      EncodingAccepted(address, prefix, p);
    }
  }

  lemma AcceptedAddress(address: string, prefix: Option<string>)
    requires DecodeParts(address, prefix).Ok?
    ensures var p := DecodeParts(address, prefix).value;
            && IsOneCase(address) && |address| <= 90 && IsHrp(p.hrp) && IsProgramSize(p.witver, |p.program|)
            && Lower(address) == EncodeProgram(p.hrp, p.witver, p.program) && PrefixFits(prefix, p.hrp)
  {
    hide DecodeData, SplitAddress, EncodeProgram, EncodedData, IsOneCase, Lower;
    EncodeDecode(address, prefix);
    DecodedSize(address, prefix);
    AtMostNinety(address);
    var (hrp, data) := SplitAddress(address).value;
    AcceptedData(hrp, data);
  }

  lemma EncodingAccepted(address: string, prefix: Option<string>, p: Parts)
    requires IsOneCase(address) && |address| <= 90 && IsHrp(p.hrp) && IsProgramSize(p.witver, |p.program|)
    requires Lower(address) == EncodeProgram(p.hrp, p.witver, p.program) && PrefixFits(prefix, p.hrp)
    ensures DecodeParts(address, prefix) == Ok(p)
  {
    hide DecodeData, SplitAddress, EncodeProgram, EncodedData, IsOneCase, Lower;
    EncodedIsLower(p.hrp, p.witver, p.program);
    DecodeEncode(p.hrp, p.witver, p.program, prefix);
    EncodedSplits(p.hrp, p.witver, p.program, prefix);
    LowerSplits(address);
  }

  lemma EncodedSplits(hrp: string, witver: nat, program: Bytes, prefix: Option<string>)
    requires IsHrp(hrp) && witver <= 16 && DecodeParts(EncodeProgram(hrp, witver, program), prefix).Ok?
    ensures SplitAddress(EncodeProgram(hrp, witver, program)).Some?
  {
    hide DecodeData, SplitAddress, EncodeProgram;
  }

  lemma OneCaseIff(address: string)
    ensures IsOneCase(address)
            <==> && (forall i :: 0 <= i < |address| ==> 33 <= address[i] as int <= 126)
                 && ((forall i :: 0 <= i < |address| ==> !('A' <= address[i] <= 'Z'))
                     || (forall i :: 0 <= i < |address| ==> !('a' <= address[i] <= 'z')))
  {
    assert Lower(address) == address <==> forall i :: 0 <= i < |address| ==> !('A' <= address[i] <= 'Z') by {
      if Lower(address) == address {
        forall i | 0 <= i < |address| ensures !('A' <= address[i] <= 'Z') {
          assert Lower(address)[i] == address[i];
        }
      }
    }
    assert Upper(address) == address <==> forall i :: 0 <= i < |address| ==> !('a' <= address[i] <= 'z') by {
      if Upper(address) == address {
        forall i | 0 <= i < |address| ensures !('a' <= address[i] <= 'z') {
          assert Upper(address)[i] == address[i];
        }
      }
    }
  }

  lemma AtMostNinety(address: string)
    requires SplitAddress(address).Some?
    ensures |address| <= 90 && IsOneCase(address)
  {
    hide CharSymbols, LastSeparator;
  }

  lemma LowerSplits(address: string)
    requires IsOneCase(address) && Lower(Lower(address)) == Lower(address) && SplitAddress(Lower(address)).Some?
    ensures SplitAddress(address) == SplitAddress(Lower(address))
  {
    hide SplitLower;
  }

  // ---------------------------------------------------------------- an address of BIP 350

  lemma FirstStates()
    ensures NextState(0x1, 3) == 0x23
    ensures NextState(0x23, 3) == 0x463
    ensures NextState(0x463, 0) == 0x8c60
    ensures NextState(0x8c60, 2) == 0x118c02
    ensures NextState(0x118c02, 3) == 0x2318043
    ensures NextState(0x2318043, 16) == 0x3d5a5fc2
    ensures NextState(0x3d5a5fc2, 14) == 0x4ec3eb7
    ensures NextState(0x4ec3eb7, 20) == 0x3bd75899
  {
  }

  lemma LastStates()
    ensures NextState(0x3bd75899, 15) == 0x8760c09
    ensures NextState(0x8760c09, 0) == 0x106098da
    ensures NextState(0x106098da, 8) == 0x31512895
    ensures NextState(0x31512895, 13) == 0x3d7343c3
    ensures NextState(0x3d7343c3, 2) == 0x1cfbe9b
    ensures NextState(0x1cfbe9b, 10) == 0x39f7d36a
    ensures NextState(0x39f7d36a, 20) == 0x370d25c0
    ensures NextState(0x370d25c0, 18) == 0x2bc830a3
  {
  }

  /** Prefix, version, program and checksum of the address as symbols. */
  const VECTOR: seq<nat> := [3, 3, 0, 2, 3, 16, 14, 20, 15, 0, 8, 13, 2, 10, 20, 18]

  predicate Reaches(values: seq<nat>, k: nat, state: bv30) {
    k <= |values| && AreSymbols(values[..k]) && Register(values[..k]) == state
  }

  lemma NoSymbols(values: seq<nat>)
    ensures Reaches(values, 0, 1)
  {
  }

  lemma Follow(values: seq<nat>, k: nat, v: nat, symbol: bv30, before: bv30, after: bv30)
    requires k < |values| && values[k] == v < 32 && v as bv30 == symbol
    requires Reaches(values, k, before) && NextState(before, symbol) == after
    ensures Reaches(values, k + 1, after)
  {
    hide NextState;
    assert values[..k + 1][..k] == values[..k];
  }

  lemma FirstQuarter(values: seq<nat>)
    requires values == VECTOR
    ensures Reaches(values, 4, 0x118c02)
  {
    hide NextState, Reaches;
    FirstStates();
    NoSymbols(values);
    Follow(values, 0, 3, 3, 0x1, 0x23);
    Follow(values, 1, 3, 3, 0x23, 0x463);
    Follow(values, 2, 0, 0, 0x463, 0x8c60);
    Follow(values, 3, 2, 2, 0x8c60, 0x118c02);
  }

  lemma FirstHalf(values: seq<nat>)
    requires values == VECTOR
    ensures Reaches(values, 8, 0x3bd75899)
  {
    hide NextState, Reaches;
    FirstStates();
    FirstQuarter(values);
    Follow(values, 4, 3, 3, 0x118c02, 0x2318043);
    Follow(values, 5, 16, 16, 0x2318043, 0x3d5a5fc2);
    Follow(values, 6, 14, 14, 0x3d5a5fc2, 0x4ec3eb7);
    Follow(values, 7, 20, 20, 0x4ec3eb7, 0x3bd75899);
  }

  lemma AllSymbols(values: seq<nat>)
    requires values == VECTOR
    ensures Reaches(values, 16, 0x2bc830a3)
  {
    hide NextState, Reaches;
    LastStates();
    FirstHalf(values);
    Follow(values, 8, 15, 15, 0x3bd75899, 0x8760c09);
    Follow(values, 9, 0, 0, 0x8760c09, 0x106098da);
    Follow(values, 10, 8, 8, 0x106098da, 0x31512895);
    Follow(values, 11, 13, 13, 0x31512895, 0x3d7343c3);
    Follow(values, 12, 2, 2, 0x3d7343c3, 0x1cfbe9b);
    Follow(values, 13, 10, 10, 0x1cfbe9b, 0x39f7d36a);
    Follow(values, 14, 20, 20, 0x39f7d36a, 0x370d25c0);
    Follow(values, 15, 18, 18, 0x370d25c0, 0x2bc830a3);
  }

  lemma VectorDigits()
    ensures AreProgramDigits([14, 20, 15, 0], [0x75, 0x1e])
  {
    assert [14, 20, 15, 0][..3] == [14, 20, 15] && [14, 20, 15][..2] == [14, 20] && [14, 20][..1] == [14];
    assert ValBE([14], 32) == 14;
    assert ValBE([14, 20], 32) == 468;
    assert ValBE([14, 20, 15], 32) == 14991;
    assert [0x75, 0x1e][..1] == [0x75];
    assert ValBE([0x75], 256) == 0x75;
    assert Pow(2, 2) == 4 && Pow(2, 3) == 8 && Pow(2, 4) == 16;
  }

  lemma VectorCharacters()
    ensures Characters([16] + [14, 20, 15, 0] + [8, 13, 2, 10, 20, 18]) == "sw50qgdz25j"
  {
  }

  /** The shortest address that BIP 350 lists. */
  lemma ShortestAddress()
    ensures IsHrp("bc") && EncodeProgram("bc", 16, [0x75, 0x1e]) == "bc1sw50qgdz25j"
  {
    hide EncodeProgram, Characters, Register, AreProgramDigits, Expanded;
    VectorDigits();
    VectorCharacters();
    VectorRegister();
    assert IsAddressOf("bc1sw50qgdz25j", "bc", 16, [0x75, 0x1e], [14, 20, 15, 0], [8, 13, 2, 10, 20, 18]);
    AddressIff("bc1sw50qgdz25j", "bc", 16, [0x75, 0x1e]);
  }

  lemma VectorRegister()
    ensures IsPrintableText("bc")
    ensures AreSymbols(Expanded("bc") + ([16] + [14, 20, 15, 0] + [8, 13, 2, 10, 20, 18]))
    ensures Register(Expanded("bc") + ([16] + [14, 20, 15, 0] + [8, 13, 2, 10, 20, 18])) == 0x2bc830a3
  {
    hide Register, Expanded;
    ExpandedVector();
    AllSymbols(VECTOR);
    assert VECTOR[..16] == VECTOR;
  }

  lemma ExpandedVector()
    ensures IsPrintableText("bc") && Expanded("bc") + ([16] + [14, 20, 15, 0] + [8, 13, 2, 10, 20, 18]) == VECTOR
  {
  }
}
