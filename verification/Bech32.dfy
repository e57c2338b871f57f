/** Segwit addresses: `pubkeyhash_to_addr_bech32` and `addr_bech32_to_pubkeyhash`
    (BIP 173, section "Segwit address format", and BIP 350). */
module Bech32 {
  import opened Digits
  import opened HexText
  import opened Regroup
  import opened Polymod
  import opened Sequences
  import opened Wrappers

  const BECH32_CONST: State := 1
  const BECH32M_CONST: State := 0x2bc830a3

  const CHARSET: string := "qpzry9x8gf2tvdw0s3jn54khce6mua7l"

  // ---------------------------------------------------------------- characters

  /** `codebase.index(c)`. */
  function CharSymbol(c: char): Option<nat> {
    var i := IndexFrom(CHARSET, c, 0);
    if i < |CHARSET| then Some(i) else None
  }

  function SymbolChars(values: seq<nat>): (s: string)
    requires IsSymbols(values)
    ensures |s| == |values| && forall i :: 0 <= i < |s| ==> s[i] == CHARSET[values[i]]
  {
    seq(|values|, i requires 0 <= i < |values| => CHARSET[values[i]])
  }

  /** `_codestring_to_array`; None when it raises. */
  function CharSymbols(s: string): (r: Option<seq<nat>>)
    ensures r.Some? ==> |r.value| == |s| && IsSymbols(r.value) && SymbolChars(r.value) == s
  {
    if s == "" then Some([])
    else
      match CharSymbols(s[1..])
      case None => None
      case Some(rest) =>
        match CharSymbol(s[0])
        case None => None
        case Some(v) => Some([v] + rest)
  }

  /** The place of a character of the set. */
  function Rank(c: char): nat {
    match c
    case 'q' => 0 case 'p' => 1 case 'z' => 2 case 'r' => 3 case 'y' => 4 case '9' => 5 case 'x' => 6 case '8' => 7
    case 'g' => 8 case 'f' => 9 case '2' => 10 case 't' => 11 case 'v' => 12 case 'd' => 13 case 'w' => 14 case '0' => 15
    case 's' => 16 case '3' => 17 case 'j' => 18 case 'n' => 19 case '5' => 20 case '4' => 21 case 'k' => 22 case 'h' => 23
    case 'c' => 24 case 'e' => 25 case '6' => 26 case 'm' => 27 case 'u' => 28 case 'a' => 29 case '7' => 30 case 'l' => 31
    case _ => 32
  }

  lemma CharsetDistinct(i: nat)
    requires i < 32
    ensures |CHARSET| == 32 && Rank(CHARSET[i]) == i
  {
  }

  lemma CharSymbolOf(v: nat)
    requires v < 32
    ensures |CHARSET| == 32 && CharSymbol(CHARSET[v]) == Some(v)
  {
    CharsetDistinct(v);
    var r := CharSymbol(CHARSET[v]);
    if r.Some? {
      CharsetDistinct(r.value);
    }
  }

  lemma {:induction false} CharSymbolsOf(values: seq<nat>)
    requires IsSymbols(values)
    ensures CharSymbols(SymbolChars(values)) == Some(values)
  {
    hide CharSymbol, Rank;
    if values != [] {
      var s := SymbolChars(values);
      assert s[1..] == SymbolChars(values[1..]);
      CharSymbolsOf(values[1..]);
      CharSymbolOf(values[0]);
      assert CharSymbol(s[0]) == Some(values[0]);
      assert [values[0]] + values[1..] == values;
    }
  }

  /** Characters of the set are printable, lower-case and not the separator. */
  lemma CharsetPlain(v: nat)
    requires v < 32
    ensures |CHARSET| == 32 && CHARSET[v] != '1' && IsPlain(CHARSET[v])
  {
  }

  predicate IsPrintable(c: char) {
    33 <= c as int <= 126
  }

  predicate IsPlain(c: char) {
    IsPrintable(c) && !('A' <= c <= 'Z')
  }

  function UpperChar(c: char): char {
    if 'a' <= c <= 'z' then ((c as int) - 32) as char else c
  }

  function Lower(s: string): (r: string)
    ensures |r| == |s| && forall i :: 0 <= i < |s| ==> r[i] == LowerChar(s[i])
  {
    seq(|s|, i requires 0 <= i < |s| => LowerChar(s[i]))
  }

  function Upper(s: string): (r: string)
    ensures |r| == |s| && forall i :: 0 <= i < |s| ==> r[i] == UpperChar(s[i])
  {
    seq(|s|, i requires 0 <= i < |s| => UpperChar(s[i]))
  }

  /** `bech.rfind('1')`; -1 when there is none. */
  function LastSeparator(s: string): (r: int)
    ensures -1 <= r < |s|
    ensures r >= 0 ==> s[r] == '1'
    ensures forall j :: r < j < |s| ==> s[j] != '1'
  {
    if s == "" then -1
    else if s[|s| - 1] == '1' then |s| - 1
    else LastSeparator(s[..|s| - 1])
  }

  /** The prefix as symbols, for the checksum. */
  function ExpandPrefix(hrp: string): (r: seq<nat>)
    requires forall i :: 0 <= i < |hrp| ==> IsPrintable(hrp[i])
    ensures IsSymbols(r)
  {
    var high := seq(|hrp|, i requires 0 <= i < |hrp| => HighBits(hrp[i]));
    var low := seq(|hrp|, i requires 0 <= i < |hrp| => LowBits(hrp[i]));
    assert forall i :: 0 <= i < |high| ==> high[i] < 32;
    assert forall i :: 0 <= i < |low| ==> low[i] < 32;
    high + [0] + low
  }

  function HighBits(c: char): (v: nat)
    requires IsPrintable(c)
    ensures v < 32
  {
    (c as int) / 32
  }

  function LowBits(c: char): (v: nat)
    ensures v < 32
  {
    (c as int) % 32
  }

  // ---------------------------------------------------------------- the checksum

  /** `(polymod >> 5 * (5 - i)) & 31`. */
  function Piece(x: State, i: nat): State
    requires i < 6
  {
    match i
    case 0 => (x >> 25) & 31
    case 1 => (x >> 20) & 31
    case 2 => (x >> 15) & 31
    case 3 => (x >> 10) & 31
    case 4 => (x >> 5) & 31
    case 5 => x & 31
  }

  lemma LowFive(x: State)
    ensures x & 31 <= 31
  {
  }

  lemma PieceSmall(x: State, i: nat)
    requires i < 6
    ensures Piece(x, i) <= 31
  {
    LowFive(x);
    LowFive(x >> 5);
    LowFive(x >> 10);
    LowFive(x >> 15);
    LowFive(x >> 20);
    LowFive(x >> 25);
  }

  lemma PieceAsNat(p: State)
    requires p <= 31
    ensures p as nat < 32 && Symbol(p as nat) == p
  {
  }

  function ChecksumSymbol(polymod: State, i: nat): (v: nat)
    requires i < 6
    ensures v < 32 && Symbol(v) == Piece(polymod, i)
  {
    PieceSmall(polymod, i);
    PieceAsNat(Piece(polymod, i));
    Piece(polymod, i) as nat
  }

  function ChecksumSymbols(polymod: State): (r: seq<nat>)
    ensures |r| == 6 && IsSymbols(r)
  {
    seq(6, i requires 0 <= i < 6 => ChecksumSymbol(polymod, i))
  }

  function CreateChecksum(values: seq<nat>, checksumXor: State): (r: seq<nat>)
    requires IsSymbols(values)
    ensures |r| == 6 && IsSymbols(r)
  {
    ChecksumSymbols(Xor(Checksum(values + [0, 0, 0, 0, 0, 0]), checksumXor))
  }

  /** The top `5 k` bits of a word: the register after `k` of its symbols have been fed in. */
  function Top(x: State, k: nat): State
    requires k <= 6
  {
    match k
    case 0 => 0
    case 1 => x >> 25
    case 2 => x >> 20
    case 3 => x >> 15
    case 4 => x >> 10
    case 5 => x >> 5
    case 6 => x
  }

  lemma TopStep0(x: State)
    ensures (0 << 5) ^ ((x >> 25) & 31) == x >> 25
  {
  }

  lemma TopStep1(x: State)
    ensures ((x >> 25) << 5) ^ ((x >> 20) & 31) == x >> 20 && x >> 25 <= 0x1ffffff
  {
  }

  lemma TopStep2(x: State)
    ensures ((x >> 20) << 5) ^ ((x >> 15) & 31) == x >> 15 && x >> 20 <= 0x1ffffff
  {
  }

  lemma TopStep3(x: State)
    ensures ((x >> 15) << 5) ^ ((x >> 10) & 31) == x >> 10 && x >> 15 <= 0x1ffffff
  {
  }

  lemma TopStep4(x: State)
    ensures ((x >> 10) << 5) ^ ((x >> 5) & 31) == x >> 5 && x >> 10 <= 0x1ffffff
  {
  }

  lemma TopStep5(x: State)
    ensures ((x >> 5) << 5) ^ (x & 31) == x && x >> 5 <= 0x1ffffff
  {
  }

  lemma TopStep(x: State, k: nat)
    requires k < 6
    ensures Top(x, k) <= 0x1ffffff && (Top(x, k) << 5) ^ Piece(x, k) == Top(x, k + 1)
  {
    if k == 0 {
      TopStep0(x);
    } else if k == 1 {
      TopStep1(x);
    } else if k == 2 {
      TopStep2(x);
    } else if k == 3 {
      TopStep3(x);
    } else if k == 4 {
      TopStep4(x);
    } else {
      TopStep5(x);
    }
  }

  lemma FeedPiece(x: State, k: nat)
    requires k < 6
    ensures Xor(Feedback(Top(x, k)), Piece(x, k)) == Top(x, k + 1)
  {
    hide Feedback, Top, Piece;
    TopStep(x, k);
    FeedbackBits(Top(x, k));
  }

  lemma {:induction false} FeedRest(x: State, k: nat)
    requires k <= 6
    ensures Feed(Top(x, k), Symbols(ChecksumSymbols(x))[k..]) == x
    decreases 6 - k
  {
    hide Feedback, Xor, Piece, Symbol;
    var s := Symbols(ChecksumSymbols(x));
    if k < 6 {
      FeedPiece(x, k);
      assert s[k..][0] == Piece(x, k) && s[k..][1..] == s[k + 1..];
      FeedRest(x, k + 1);
    } else {
      FeedNone(x, s[6..]);
    }
  }

  /** Feeding in the six symbols of a word from the zero state gives the word back. */
  lemma FeedWord(x: State)
    ensures Feed(0, Symbols(ChecksumSymbols(x))) == x
  {
    hide Feed, Symbols, ChecksumSymbols;
    FeedRest(x, 0);
    var s := Symbols(ChecksumSymbols(x));
    assert s[0..] == s;
  }

  lemma FeedNone(x: State, s: seq<State>)
    requires s == []
    ensures Feed(x, s) == x
  {
  }

  lemma {:induction false} XorAllZeros(s: seq<State>, zeros: seq<State>)
    requires |s| == |zeros| && forall i :: 0 <= i < |zeros| ==> zeros[i] == 0
    ensures XorAll(zeros, s) == s
  {
    forall i | 0 <= i < |s| ensures Xor(0, s[i]) == s[i] {
      XorCommutative(0, s[i]);
      XorOfZero(s[i]);
    }
  }

  const SIX_ZEROS: seq<nat> := [0, 0, 0, 0, 0, 0]

  lemma ZeroSymbols()
    ensures IsSymbols(SIX_ZEROS) && forall i :: 0 <= i < 6 ==> Symbols(SIX_ZEROS)[i] == 0
  {
  }

  /** From any state, the checksum symbols bring the register to the constant asked for. */
  lemma SixReach(c: State, checksumXor: State)
    ensures IsSymbols(SIX_ZEROS)
    ensures Feed(c, Symbols(ChecksumSymbols(Xor(Feed(c, Symbols(SIX_ZEROS)), checksumXor)))) == checksumXor
  {
    ZeroSymbols();
    hide Feed, Xor, Feedback, ChecksumSymbols;
    var p := Feed(c, Symbols(SIX_ZEROS));
    var x := Xor(p, checksumXor);
    var cs := ChecksumSymbols(x);
    XorAllZeros(Symbols(cs), Symbols(SIX_ZEROS));
    FeedLinear(c, 0, Symbols(SIX_ZEROS), Symbols(cs));
    XorOfZero(c);
    FeedWord(x);
    XorBack(p, checksumXor);
  }

  lemma ChecksumHolds(values: seq<nat>, checksumXor: State)
    requires IsSymbols(values)
    ensures IsSymbols(values + CreateChecksum(values, checksumXor))
    ensures Checksum(values + CreateChecksum(values, checksumXor)) == checksumXor
  {
    ZeroSymbols();
    var c := Feed(1, Symbols(values));
    var cs := CreateChecksum(values, checksumXor);
    SymbolsConcat(values, SIX_ZEROS);
    SymbolsConcat(values, cs);
    hide Feed, Xor, Feedback, ChecksumSymbols;
    FeedConcat(1, Symbols(values), Symbols(SIX_ZEROS));
    FeedConcat(1, Symbols(values), Symbols(cs));
    SixReach(c, checksumXor);
  }

  /** They are the only six symbols that do. */
  lemma ChecksumUnique(values: seq<nat>, cs: seq<nat>, ds: seq<nat>)
    requires IsSymbols(values) && IsSymbols(cs) && IsSymbols(ds) && |cs| == |ds| == 6
    requires IsSymbols(values + cs) && IsSymbols(values + ds)
    requires Checksum(values + cs) == Checksum(values + ds)
    ensures cs == ds
  {
    hide Feed, Symbol;
    SymbolsConcat(values, cs);
    SymbolsConcat(values, ds);
    FeedConcat(1, Symbols(values), Symbols(cs));
    FeedConcat(1, Symbols(values), Symbols(ds));
    SixSymbols(Feed(1, Symbols(values)), cs, ds);
  }

  // ---------------------------------------------------------------- encoding

  function ConstantFor(witver: nat): State {
    if witver > 0 then BECH32M_CONST else BECH32_CONST
  }

  lemma WidthsAre()
    ensures Pow2(5) == 32 && Pow2(8) == 256
  {
    Pow2Add(1, 1);
    Pow2Add(2, 2);
    Pow2Add(4, 4);
    Pow2Add(4, 1);
    assert Pow2(1) == 2 * Pow(2, 0);
  }

  /** The program as five-bit symbols. */
  function ProgramSymbols(program: Bytes): (r: seq<nat>)
    ensures IsSymbols(r)
    ensures Regrouped(program, 8, 5, true) == Values(r) && Regrouped(r, 5, 8, false) == Values(program)
  {
    WidthsAre();
    assert AllInWidth(program, 8);
    BytesToSymbolsAndBack(program);
    PaddedBits(Bits(program, 8), 5);
    Regrouped(program, 8, 5, true).ret
  }

  predicate IsHrp(hrp: string) {
    hrp != "" && forall i :: 0 <= i < |hrp| ==> IsPlain(hrp[i])
  }

  /** The address of a version and a program: prefix, separator, data and checksum. */
  function EncodeProgram(hrp: string, witver: nat, program: Bytes): string
    requires IsHrp(hrp) && witver <= 16
  {
    var data := [witver] + ProgramSymbols(program);
    var cs := CreateChecksum(ExpandPrefix(hrp) + data, ConstantFor(witver));
    hrp + "1" + SymbolChars(data) + SymbolChars(cs)
  }

  /** A negative version as the register sees it. */
  function NegativeSymbol(back: nat): State
    requires 0 < back <= 32
  {
    (0x4000_0000 - back) as State
  }

  /** The address of a negative version: the character is counted from the end of the set, the
      checksum is taken of the negative number itself. */
  function EncodeNegative(hrp: string, back: nat, program: Bytes): string
    requires IsHrp(hrp) && 0 < back <= 32
  {
    var tail := ProgramSymbols(program);
    var fed := Symbols(ExpandPrefix(hrp)) + [NegativeSymbol(back)] + Symbols(tail) + Symbols(SIX_ZEROS);
    hrp + "1" + SymbolChars([32 - back] + tail) + SymbolChars(ChecksumSymbols(Xor(Feed(1, fed), BECH32_CONST)))
  }

  /** The address of a version as the code computes it: above 16 it raises, and so does an index below
      the set. */
  function EncodeVersion(hrp: string, version: int, program: Bytes): Result<string>
    requires IsHrp(hrp)
  {
    if version > 16 || version < -32 then Err
    else if version < 0 then Ok(EncodeNegative(hrp, -version, program))
    else Ok(EncodeProgram(hrp, version, program))
  }

  /** A public key hash of another size than 20, 32 or 40 carries its version and its length in
      front. */
  function EncodeBytes(pubkeyhash: Bytes, hrp: string, witver: nat): Result<string>
    requires IsHrp(hrp)
  {
    if |pubkeyhash| in {20, 32, 40} then EncodeVersion(hrp, witver, pubkeyhash)
    else if |pubkeyhash| < 2 || pubkeyhash[1] != |pubkeyhash| - 2 then Err
    else
      var version: int := if pubkeyhash[0] == 0 then witver as int else pubkeyhash[0] as int - 0x50;
      EncodeVersion(hrp, version, pubkeyhash[2..])
  }

  /** `pubkeyhash_to_addr_bech32` with its default checksum. */
  function Encode(pubkeyhash: Bytes, hrp: string, witver: nat): Result<string>
    requires IsHrp(hrp)
  {
    EncodeBytes(ToBytes(pubkeyhash), hrp, witver)
  }

  // ---------------------------------------------------------------- decoding

  datatype Parts = Parts(hrp: string, witver: nat, program: Bytes)

  lemma LowerIsPlain(s: string)
    requires forall i :: 0 <= i < |s| ==> IsPrintable(s[i])
    ensures ArePlain(Lower(s))
  {
  }

  /** Printable characters, and not upper and lower case mixed. */
  predicate IsOneCase(address: string) {
    (forall i :: 0 <= i < |address| ==> IsPrintable(address[i])) && (Lower(address) == address || Upper(address) == address)
  }

  predicate ArePlain(s: string) {
    forall i :: 0 <= i < |s| ==> IsPlain(s[i])
  }

  lemma PrefixIsHrp(s: string, pos: nat)
    requires ArePlain(s) && 0 < pos <= |s|
    ensures IsHrp(s[..pos])
  {
  }

  /** Prefix and data of an address in lower case, when its lengths are in order. */
  function SplitLower(bech: string): (r: Option<(string, seq<nat>)>)
    requires ArePlain(bech)
    ensures r.Some? ==> IsHrp(r.value.0) && |r.value.1| >= 6 && IsSymbols(r.value.1)
  {
    var pos := LastSeparator(bech);
    if pos < 1 || pos + 7 > |bech| || |bech| > 90 then None
    else
      match CharSymbols(bech[pos + 1..])
      case None => None
      case Some(data) =>
        PrefixIsHrp(bech, pos);
        Some((bech[..pos], data))
  }

  /** Prefix and data of an address, in lower case, when its characters and lengths are in order. */
  function SplitAddress(address: string): (r: Option<(string, seq<nat>)>)
    ensures r.Some? ==> IsHrp(r.value.0) && |r.value.1| >= 6 && IsSymbols(r.value.1)
  {
    if !IsOneCase(address) then None
    else
      LowerIsPlain(address);
      SplitLower(Lower(address))
  }

  /** The checks of `addr_bech32_to_pubkeyhash`. The code compares the prefix before it looks at the
      data, which makes no difference to what is accepted. */
  function DecodeParts(address: string, prefix: Option<string>): (r: Result<Parts>)
    ensures r.Ok? ==> r.value.witver <= 16 && 2 <= |r.value.program| <= 40
  {
    match SplitAddress(address)
    case None => Err
    case Some((hrp, data)) =>
      if prefix.Some? && prefix.value != "" && prefix.value != hrp then Err else DecodeData(hrp, data)
  }

  function DecodeData(hrp: string, data: seq<nat>): (r: Result<Parts>)
    requires |data| >= 6 && IsSymbols(data)
    requires IsHrp(hrp)
    ensures r.Ok? ==> r.value.witver <= 16 && 2 <= |r.value.program| <= 40
  {
    var check := Checksum(ExpandPrefix(hrp) + data);
    if !(check == BECH32_CONST || check == BECH32M_CONST) then Err
    else if data[0] == 0 && check != BECH32_CONST then Err
    else if data[0] != 0 && check != BECH32M_CONST then Err
    else
      var payload := data[..|data| - 6];
      if payload == [] then Err
      else
        match Regrouped(payload[1..], 5, 8, false)
        case BadPadding => Err
        case Invalid => Err
        case Values(decoded) =>
          if |decoded| < 2 || |decoded| > 40 || payload[0] > 16 then Err
          else if payload[0] == 0 && |decoded| !in {20, 32} then Err
          else
            RegroupedInWidth(payload[1..], 5, 8, false);
            WidthsAre();
            Ok(Parts(hrp, payload[0], decoded))
  }

  /** `addr_bech32_to_pubkeyhash`. */
  function Decode(address: string, prefix: Option<string>, includeWitver: bool): Result<Bytes> {
    match DecodeParts(address, prefix)
    case Err => Err
    case Ok(p) => if includeWitver then Ok(Header(p.witver, p.program) + p.program) else Ok(p.program)
  }

  function Header(witver: nat, program: Bytes): Bytes
    requires witver <= 16 && |program| < 256
  {
    [if witver == 0 then 0 else witver + 0x50, |program|]
  }

  // ---------------------------------------------------------------- there and back

  /** Data and checksum of an address. */
  function EncodedData(hrp: string, witver: nat, program: Bytes): (r: seq<nat>)
    requires IsHrp(hrp) && witver <= 16
    ensures |r| >= 6 && IsSymbols(r)
  {
    var data := [witver] + ProgramSymbols(program);
    data + CreateChecksum(ExpandPrefix(hrp) + data, ConstantFor(witver))
  }

  lemma EncodedShape(hrp: string, witver: nat, program: Bytes)
    requires IsHrp(hrp) && witver <= 16
    ensures EncodeProgram(hrp, witver, program) == hrp + "1" + SymbolChars(EncodedData(hrp, witver, program))
  {
    hide Checksum, CreateChecksum, ExpandPrefix, Symbol, ProgramSymbols, SymbolChars, ConstantFor;
    var data := [witver] + ProgramSymbols(program);
    var cs := CreateChecksum(ExpandPrefix(hrp) + data, ConstantFor(witver));
    SymbolCharsConcat(data, cs);
    Associate(hrp + "1", SymbolChars(data), SymbolChars(cs));
  }

  /** The sizes a decoder accepts for a version. */
  predicate IsProgramSize(witver: nat, n: nat) {
    if witver == 0 then n in {20, 32} else witver <= 16 && 2 <= n <= 40
  }

  lemma DecodeEncodedData(hrp: string, witver: nat, program: Bytes)
    requires IsHrp(hrp) && IsProgramSize(witver, |program|)
    ensures DecodeData(hrp, EncodedData(hrp, witver, program)) == Ok(Parts(hrp, witver, program))
  {
    hide Checksum, CreateChecksum, ExpandPrefix, Regrouped, Symbol;
    var data := [witver] + ProgramSymbols(program);
    var cs := CreateChecksum(ExpandPrefix(hrp) + data, ConstantFor(witver));
    ChecksumHolds(ExpandPrefix(hrp) + data, ConstantFor(witver));
    assert ExpandPrefix(hrp) + data + cs == ExpandPrefix(hrp) + (data + cs);
    assert (data + cs)[..|data + cs| - 6] == data;
    assert data[1..] == ProgramSymbols(program);
  }

  lemma {:induction false} SeparatorAt(s: string, pos: nat)
    requires pos < |s| && s[pos] == '1' && forall j :: pos < j < |s| ==> s[j] != '1'
    ensures LastSeparator(s) == pos
  {
  }

  lemma LowerPlain(s: string)
    requires forall i :: 0 <= i < |s| ==> IsPlain(s[i])
    ensures Lower(s) == s
  {
  }

  lemma SymbolCharsPlain(values: seq<nat>)
    requires IsSymbols(values)
    ensures forall i :: 0 <= i < |values| ==> SymbolChars(values)[i] != '1' && IsPlain(SymbolChars(values)[i])
  {
    forall i | 0 <= i < |values|
      ensures SymbolChars(values)[i] != '1' && IsPlain(SymbolChars(values)[i])
    {
      CharsetPlain(values[i]);
    }
  }

  lemma SplitEncoded(hrp: string, data: seq<nat>)
    requires IsHrp(hrp) && IsSymbols(data) && |data| >= 6 && |hrp| + 1 + |data| <= 90
    ensures SplitAddress(hrp + "1" + SymbolChars(data)) == Some((hrp, data))
  {
    hide CharSymbols, LastSeparator;
    var address := hrp + "1" + SymbolChars(data);
    SymbolCharsPlain(data);
    assert address[|hrp|] == '1';
    assert address[|hrp| + 1..] == SymbolChars(data);
    forall i | 0 <= i < |address| ensures IsPlain(address[i]) {
      assert i < |hrp| ==> address[i] == hrp[i];
      assert i > |hrp| ==> address[i] == SymbolChars(data)[i - |hrp| - 1];
    }
    forall j | |hrp| < j < |address| ensures address[j] != '1' {
      assert address[j] == SymbolChars(data)[j - |hrp| - 1];
    }
    SeparatorAt(address, |hrp|);
    LowerPlain(address);
    assert IsOneCase(address);
    assert address[..|hrp|] == hrp;
    CharSymbolsOf(data);
  }

  lemma SplitShape(address: string)
    requires SplitAddress(address).Some?
    ensures var (hrp, data) := SplitAddress(address).value;
            Lower(address) == hrp + "1" + SymbolChars(data)
  {
    hide IsOneCase, CharSymbol;
    var bech := Lower(address);
    var pos := LastSeparator(bech);
    var data := CharSymbols(bech[pos + 1..]);
    assert SplitAddress(address) == Some((bech[..pos], data.value));
    assert bech == bech[..pos] + [bech[pos]] + bech[pos + 1..];
    assert SymbolChars(data.value) == bech[pos + 1..];
    assert [bech[pos]] == "1";
  }

  /** Decoding an encoded address returns its parts, for every prefix, version and program size that
      segwit addresses allow. */
  lemma DecodeEncode(hrp: string, witver: nat, program: Bytes, prefix: Option<string>)
    requires IsHrp(hrp) && IsProgramSize(witver, |program|)
    requires prefix == None || prefix.value == "" || prefix.value == hrp
    requires |EncodeProgram(hrp, witver, program)| <= 90
    ensures DecodeParts(EncodeProgram(hrp, witver, program), prefix) == Ok(Parts(hrp, witver, program))
  {
    hide EncodeProgram, EncodedData, DecodeData, SplitAddress;
    EncodedShape(hrp, witver, program);
    SplitEncoded(hrp, EncodedData(hrp, witver, program));
    DecodeEncodedData(hrp, witver, program);
  }

  /** Accepted data is the program, padded with zeros, and its one checksum. */
  lemma AcceptedData(hrp: string, data: seq<nat>)
    requires |data| >= 6 && IsSymbols(data) && IsHrp(hrp) && DecodeData(hrp, data).Ok?
    ensures var p := DecodeData(hrp, data).value;
            p.hrp == hrp && data == EncodedData(hrp, p.witver, p.program)
  {
    hide Checksum, CreateChecksum, ExpandPrefix, Symbol, Regrouped;
    var p := DecodeData(hrp, data).value;
    var payload, cs := data[..|data| - 6], data[|data| - 6..];
    assert data == payload + cs;
    SymbolsInWidth(payload[1..]);
    UnpadThenBack(payload[1..], 5, 8);
    assert payload == [p.witver] + ProgramSymbols(p.program);
    var values := ExpandPrefix(hrp) + payload;
    ChecksumHolds(values, ConstantFor(p.witver));
    assert values + cs == ExpandPrefix(hrp) + data;
    ChecksumUnique(values, cs, CreateChecksum(values, ConstantFor(p.witver)));
  }

  lemma SymbolsInWidth(values: seq<nat>)
    requires IsSymbols(values)
    ensures AllInWidth(values, 5)
  {
    WidthsAre();
  }

  /** Whatever the decoder accepts is, in lower case, the encoding of what it returns: checksum,
      padding and all. */
  lemma EncodeDecode(address: string, prefix: Option<string>)
    requires DecodeParts(address, prefix).Ok?
    ensures var p := DecodeParts(address, prefix).value;
            IsHrp(p.hrp) && EncodeProgram(p.hrp, p.witver, p.program) == Lower(address)
  {
    hide DecodeData, SplitAddress, EncodeProgram, EncodedData;
    var (hrp, data) := SplitAddress(address).value;
    SplitShape(address);
    AcceptedData(hrp, data);
    var p := DecodeData(hrp, data).value;
    EncodedShape(hrp, p.witver, p.program);
  }

  lemma SymbolCharsConcat(a: seq<nat>, b: seq<nat>)
    requires IsSymbols(a) && IsSymbols(b)
    ensures IsSymbols(a + b) && SymbolChars(a + b) == SymbolChars(a) + SymbolChars(b)
  {
  }

  // ---------------------------------------------------------------- the byte strings exchanged

  /** Eight bits to a byte and five to a symbol, rounded up. */
  lemma ProgramLength(program: Bytes)
    ensures 8 * |program| <= 5 * |ProgramSymbols(program)| <= 8 * |program| + 4
  {
    WidthsAre();
    var bits := Bits(program, 8);
    assert AllInWidth(program, 8);
    BitsLength(program, 8);
    PaddedBits(bits, 5);
    BitsLength(Padded(bits, 5), 5);
  }

  lemma LengthDecides(p: Bytes, q: Bytes)
    requires |ProgramSymbols(p)| == |ProgramSymbols(q)|
    ensures |p| == |q|
  {
    hide ProgramSymbols;
    ProgramLength(p);
    ProgramLength(q);
  }

  /** The length of the address of a program. */
  function AddressLength(hrp: string, program: Bytes): nat {
    |hrp| + 8 + |ProgramSymbols(program)|
  }

  lemma EncodedAddressLength(hrp: string, version: int, program: Bytes)
    requires IsHrp(hrp) && EncodeVersion(hrp, version, program).Ok?
    ensures |EncodeVersion(hrp, version, program).value| == AddressLength(hrp, program)
  {
    hide ProgramSymbols, ExpandPrefix, Feed, CreateChecksum;
  }

  lemma ProgramAddressLength(hrp: string, witver: nat, program: Bytes)
    requires IsHrp(hrp) && witver <= 16
    ensures |EncodeProgram(hrp, witver, program)| == AddressLength(hrp, program)
  {
    hide AddressLength;
    EncodedAddressLength(hrp, witver, program);
  }

  /** Two addresses of one prefix have the same length only for programs of the same length. */
  lemma SameAddressLength(hrp: string, p: Bytes, q: Bytes)
    ensures AddressLength(hrp, p) == AddressLength(hrp, q) ==> |p| == |q|
  {
    hide ProgramSymbols;
    if AddressLength(hrp, p) == AddressLength(hrp, q) {
      LengthDecides(p, q);
    }
  }

  lemma EncodedIsLower(hrp: string, witver: nat, program: Bytes)
    requires IsHrp(hrp) && witver <= 16
    ensures Lower(EncodeProgram(hrp, witver, program)) == EncodeProgram(hrp, witver, program)
  {
    hide EncodeProgram, EncodedData;
    EncodedShape(hrp, witver, program);
    var data := EncodedData(hrp, witver, program);
    SymbolCharsPlain(data);
    var address := hrp + "1" + SymbolChars(data);
    forall i | 0 <= i < |address| ensures IsPlain(address[i]) {
      assert i < |hrp| ==> address[i] == hrp[i];
      assert i > |hrp| ==> address[i] == SymbolChars(data)[i - |hrp| - 1];
    }
    LowerPlain(address);
  }

  /** The first data character tells the version. */
  lemma VersionDecides(hrp: string, v: nat, w: nat, program: Bytes)
    requires IsHrp(hrp) && v <= 16 && w <= 16 && EncodeProgram(hrp, v, program) == EncodeProgram(hrp, w, program)
    ensures v == w
  {
    hide Rank, CreateChecksum, ExpandPrefix, ProgramSymbols;
    assert |CHARSET| == 32 by {
      CharsetDistinct(v);
    }
    assert EncodeProgram(hrp, v, program)[|hrp| + 1] == CHARSET[v];
    assert EncodeProgram(hrp, w, program)[|hrp| + 1] == CHARSET[w];
    CharsetDistinct(v);
    CharsetDistinct(w);
  }

  /** What an address decodes to, whatever it was meant for, has the length its own length says. */
  lemma DecodedLength(hrp: string, address: string)
    requires IsHrp(hrp) && DecodeParts(address, Some(hrp)).Ok?
    ensures var p := DecodeParts(address, Some(hrp)).value;
            p.hrp == hrp && |address| == AddressLength(hrp, p.program) <= 90 && IsProgramSize(p.witver, |p.program|)
            && Lower(address) == EncodeProgram(hrp, p.witver, p.program)
  {
    hide DecodeData, SplitAddress, EncodeProgram, AddressLength;
    EncodeDecode(address, Some(hrp));
    DecodedPrefix(address, hrp);
    var p := DecodeParts(address, Some(hrp)).value;
    ProgramAddressLength(hrp, p.witver, p.program);
  }

  lemma DecodedPrefix(address: string, hrp: string)
    requires IsHrp(hrp) && DecodeParts(address, Some(hrp)).Ok?
    ensures var p := DecodeParts(address, Some(hrp)).value;
            p.hrp == hrp && |address| <= 90 && IsProgramSize(p.witver, |p.program|)
  {
    hide Checksum, ExpandPrefix, Regrouped, CharSymbols, LastSeparator, IsOneCase;
  }

  /** Bytes the encoder takes for a program of the version asked for. */
  predicate IsBareForm(x: Bytes, witver: nat) {
    !IsHexText(x) && |x| in {20, 32, 40} && IsProgramSize(witver, |x|)
  }

  /** Bytes that begin with the version and the length of the program behind them. */
  predicate IsHeaderForm(x: Bytes) {
    && |x| >= 2 && x[1] == |x| - 2
    && (x[0] == 0 || 0x50 < x[0] <= 0x60)
    && IsProgramSize(if x[0] == 0 then 0 else x[0] - 0x50, |x| - 2)
  }

  /** The program an encoder finds in bytes that are not a program of the right size is shorter. */
  lemma OtherProgram(x: Bytes, hrp: string, witver: nat)
    requires IsHrp(hrp) && Encode(x, hrp, witver).Ok? && (IsHexText(x) || |x| !in {20, 32, 40})
    ensures exists q: Bytes :: |q| < |x| && |Encode(x, hrp, witver).value| == AddressLength(hrp, q)
  {
    hide EncodeVersion, AddressLength, FromHex;
    LeftAloneIff(x);
    var h := ToBytes(x);
    if |h| in {20, 32, 40} {
      EncodedAddressLength(hrp, witver, h);
    } else {
      var version: int := if h[0] == 0 then witver as int else h[0] as int - 0x50;
      EncodedAddressLength(hrp, version, h[2..]);
    }
  }

  /** Encoding any bytes and decoding the address without its version gives the bytes back exactly when
      they are not hexadecimal text, have one of the three sizes taken for programs, in a size that
      their version allows, and the address is not too long. */
  lemma BareRoundTripIff(x: Bytes, hrp: string, witver: nat)
    requires IsHrp(hrp)
    ensures var a := Encode(x, hrp, witver);
            a.Ok? && Decode(a.value, Some(hrp), false) == Ok(x)
            <==> IsBareForm(x, witver) && AddressLength(hrp, x) <= 90
  {
    hide EncodeProgram, DecodeParts, FromHex, EncodeNegative, AddressLength;
    var a := Encode(x, hrp, witver);
    if a.Ok? && DecodeParts(a.value, Some(hrp)).Ok? {
      DecodedLength(hrp, a.value);
      var p := DecodeParts(a.value, Some(hrp)).value;
      if p.program == x {
        if IsHexText(x) || |x| !in {20, 32, 40} {
          OtherProgram(x, hrp, witver);
          var q: Bytes :| |q| < |x| && |a.value| == AddressLength(hrp, q);
          SameAddressLength(hrp, x, q);
        } else {
          LeftAloneIff(x);
          EncodedIsLower(hrp, witver, x);
          VersionDecides(hrp, witver, p.witver, x);
        }
      }
    }
    if IsBareForm(x, witver) && AddressLength(hrp, x) <= 90 {
      LeftAloneIff(x);
      ProgramAddressLength(hrp, witver, x);
      DecodeEncode(hrp, witver, x, Some(hrp));
    }
  }

  lemma HeaderIsNotHexText(x: Bytes)
    requires IsHeaderForm(x)
    ensures !IsHexText(x)
  {
    NotHexText(x);
  }

  /** Encoding any bytes and decoding the address with its version gives the bytes back exactly when
      they carry version and length of a program in front, are not of a size taken for a bare program,
      and the address is not too long. */
  lemma HeaderRoundTripIff(x: Bytes, hrp: string)
    requires IsHrp(hrp)
    ensures var a := Encode(x, hrp, 0);
            a.Ok? && Decode(a.value, Some(hrp), true) == Ok(x)
            <==> IsHeaderForm(x) && |x| !in {20, 32, 40} && AddressLength(hrp, x[2..]) <= 90
  {
    hide EncodeProgram, DecodeParts, FromHex, EncodeNegative, AddressLength;
    var a := Encode(x, hrp, 0);
    if a.Ok? && DecodeParts(a.value, Some(hrp)).Ok? {
      DecodedLength(hrp, a.value);
      var p := DecodeParts(a.value, Some(hrp)).value;
      if Header(p.witver, p.program) + p.program == x {
        HeaderParts(p.witver, p.program);
        HeaderIsNotHexText(x);
        LeftAloneIff(x);
        if |x| in {20, 32, 40} {
          EncodedAddressLength(hrp, 0, x);
          SameAddressLength(hrp, x, p.program);
        }
      }
    }
    if IsHeaderForm(x) && |x| !in {20, 32, 40} && AddressLength(hrp, x[2..]) <= 90 {
      HeaderIsNotHexText(x);
      LeftAloneIff(x);
      var w := if x[0] == 0 then 0 else x[0] - 0x50;
      ProgramAddressLength(hrp, w, x[2..]);
      DecodeEncode(hrp, w, x[2..], Some(hrp));
      assert x == Header(w, x[2..]) + x[2..];
    }
  }

  lemma HeaderParts(witver: nat, program: Bytes)
    requires IsProgramSize(witver, |program|)
    ensures var x := Header(witver, program) + program;
            IsHeaderForm(x) && x[2..] == program && |x| == |program| + 2
            && witver == if x[0] == 0 then 0 else x[0] - 0x50
  {
  }

  /** Decoding any valid address and encoding the result gives the address back, in lower case: with
      the version exactly when the program does not have 18, 30 or 38 bytes, for the result would be
      taken for a bare program, and without it exactly when the program is not hexadecimal text and of
      a size taken for a program. */
  lemma AddressRoundTripIff(address: string)
    requires DecodeParts(address, None).Ok?
    ensures var p := DecodeParts(address, None).value;
            IsHrp(p.hrp)
            && (Encode(Decode(address, None, true).value, p.hrp, 0) == Ok(Lower(address)) <==> |p.program| !in {18, 30, 38})
            && (Encode(Decode(address, None, false).value, p.hrp, p.witver) == Ok(Lower(address))
                <==> IsBareForm(p.program, p.witver))
  {
    hide DecodeData, SplitAddress, EncodeProgram, FromHex, EncodeNegative, AddressLength;
    EncodeDecode(address, None);
    var p := DecodeParts(address, None).value;
    DecodedSize(address, None);
    ProgramAddressLength(p.hrp, p.witver, p.program);
    HeaderParts(p.witver, p.program);
    var x := Header(p.witver, p.program) + p.program;
    HeaderIsNotHexText(x);
    LeftAloneIff(x);
    if |x| in {20, 32, 40} {
      EncodedAddressLength(p.hrp, 0, x);
      SameAddressLength(p.hrp, x, p.program);
    }
    if IsHexText(p.program) || |p.program| !in {20, 32, 40} {
      if Encode(p.program, p.hrp, p.witver).Ok? {
        OtherProgram(p.program, p.hrp, p.witver);
        var q: Bytes :|
          |q| < |p.program| && |Encode(p.program, p.hrp, p.witver).value| == AddressLength(p.hrp, q);
        SameAddressLength(p.hrp, q, p.program);
      }
    } else {
      LeftAloneIff(p.program);
    }
  }

  lemma DecodedSize(address: string, prefix: Option<string>)
    requires DecodeParts(address, prefix).Ok?
    ensures var p := DecodeParts(address, prefix).value;
            IsProgramSize(p.witver, |p.program|)
  {
    hide Checksum, ExpandPrefix, Regrouped, SplitAddress;
  }

  /** Twenty characters "0" are no program to the encoder, and forty characters "a" are another one. */
  lemma HexTextIsMisread(hrp: string)
    requires IsHrp(hrp)
    ensures Encode(Repeat('0' as int, 20), hrp, 0) == Err
    ensures Encode(Repeat('a' as int, 40), hrp, 0) == Ok(EncodeProgram(hrp, 0, Repeat(0xaa, 20)))
  {
    hide EncodeProgram, FromHex;
    RepeatedDigit('0' as int, 10);
    RepeatedDigit('a' as int, 20);
  }

  // ---------------------------------------------------------------- error detection

  lemma SliceSymbols(a: seq<nat>, i: nat, j: nat)
    requires IsSymbols(a) && i <= j <= |a|
    ensures IsSymbols(a[..i]) && IsSymbols(a[i..j]) && IsSymbols(a[j..])
  {
    forall k | 0 <= k < j - i ensures a[i..j][k] < 32 {
      assert a[i..j][k] == a[i + k];
    }
    forall k | 0 <= k < |a| - j ensures a[j..][k] < 32 {
      assert a[j..][k] == a[j + k];
    }
  }

  lemma BurstInData(hrp: string, a: seq<nat>, b: seq<nat>, i: nat, n: nat)
    requires IsHrp(hrp) && IsSymbols(a) && IsSymbols(b) && |a| == |b| >= 6 && i + n <= |a| && n <= 6
    requires a[..i] == b[..i] && a[i + n..] == b[i + n..] && a[i..i + n] != b[i..i + n]
    requires (a[0] == 0) == (b[0] == 0)
    requires DecodeData(hrp, a).Ok?
    ensures DecodeData(hrp, b) == Err
  {
    hide Checksum, ExpandPrefix, Regrouped;
    SliceSymbols(a, i, i + n);
    SliceSymbols(b, i, i + n);
    var p := ExpandPrefix(hrp) + a[..i];
    BurstChangesChecksum(p, a[i..i + n], b[i..i + n], a[i + n..]);
    assert ExpandPrefix(hrp) + a == p + a[i..i + n] + a[i + n..];
    assert ExpandPrefix(hrp) + b == p + b[i..i + n] + b[i + n..];
  }

  /** A valid address in which up to six consecutive data characters are replaced by others of the
      set is rejected, as long as the first one keeps asking for the same constant. By
      `EncodeDecode` every valid address has the form used here, up to case. */
  lemma BurstIsRejected(hrp: string, a: seq<nat>, b: seq<nat>, i: nat, n: nat, prefix: Option<string>)
    requires IsHrp(hrp) && IsSymbols(a) && IsSymbols(b)
    requires |a| == |b| >= 6 && |hrp| + 1 + |a| <= 90 && i + n <= |a| && n <= 6
    requires a[..i] == b[..i] && a[i + n..] == b[i + n..] && a[i..i + n] != b[i..i + n]
    requires (a[0] == 0) == (b[0] == 0)
    requires DecodeParts(hrp + "1" + SymbolChars(a), prefix).Ok?
    ensures DecodeParts(hrp + "1" + SymbolChars(b), prefix) == Err
  {
    hide DecodeData, SplitAddress;
    SplitEncoded(hrp, a);
    SplitEncoded(hrp, b);
    BurstInData(hrp, a, b, i, n);
  }
}
