/** Scripts as bytes: `Script.serialize` and the command loop of `Script.parse_bytesio`.
  *
  * The parser also builds key and signature objects from data that looks like them. Whether that
  * succeeds is a parameter, `accepts`. Nested parsing of other data belongs to the outermost level and
  * is not part of this model.
  */
module ScriptCodec {
  import opened Digits
  import opened CompactSize
  import opened ScriptFlow
  import opened Wrappers

  const OP_PUSHDATA1: nat := 76
  const OP_PUSHDATA2: nat := 77

  // ---------------------------------------------------------------- serialize

  /** `bytes([cmd])` and `to_bytes(2)` raise beyond these. */
  predicate IsSerializable(c: Command) {
    match c
    case Op(code) => code < 256
    case Data(d) => |d| < 0x1_0000
  }

  /** `data_pack`. */
  function DataPack(d: Bytes): (r: Bytes)
    requires |d| < 0x1_0000
    ensures |r| > |d|
  {
    if |d| <= 75 then [|d|] + d
    else if |d| <= 255 then [OP_PUSHDATA1, |d|] + d
    else [OP_PUSHDATA2] + LittleEndian(|d|, 2) + d
  }

  function CommandBytes(c: Command): (r: Bytes)
    requires IsSerializable(c)
    ensures r != []
  {
    match c
    case Op(code) => [code]
    case Data(d) => DataPack(d)
  }

  predicate AreSerializable(cs: seq<Command>) {
    forall i :: 0 <= i < |cs| ==> IsSerializable(cs[i])
  }

  function ScriptBytes(cs: seq<Command>): Bytes
    requires AreSerializable(cs)
  {
    if cs == [] then [] else CommandBytes(cs[0]) + ScriptBytes(cs[1..])
  }

  lemma {:induction false} ScriptBytesSnoc(cs: seq<Command>, c: Command)
    requires AreSerializable(cs) && IsSerializable(c)
    ensures ScriptBytes(cs + [c]) == ScriptBytes(cs) + CommandBytes(c)
  {
    hide CommandBytes;
    if cs == [] {
      assert [c][1..] == [];
    } else {
      assert (cs + [c])[1..] == cs[1..] + [c];
      ScriptBytesSnoc(cs[1..], c);
    }
  }

  /** `Script.serialize`. */
  method Serialize(commands: seq<Command>) returns (r: Result<Bytes>)
    ensures r == if AreSerializable(commands) then Ok(ScriptBytes(commands)) else Err
  {
    hide CommandBytes;
    var raw: Bytes := [];
    for i := 0 to |commands|
      invariant AreSerializable(commands[..i]) && raw == ScriptBytes(commands[..i])
    {
      var cmd := commands[i];
      if !IsSerializable(cmd) {
        return Err;
      }
      ScriptBytesSnoc(commands[..i], cmd);
      assert commands[..i + 1] == commands[..i] + [cmd];
      raw := raw + CommandBytes(cmd);
    }
    assert commands[..|commands|] == commands;
    r := Ok(raw);
  }

  /** The bytes of a command: an opcode is one byte, data of up to 75 bytes stand behind their length, of up to 255 behind
      76 and one byte, of up to 65535 behind 77 and two bytes, the low one first. */
  lemma WrittenCommand(c: Command)
    ensures IsSerializable(c) <==> match c case Op(code) => code <= 255 case Data(d) => |d| <= 65535
    ensures IsSerializable(c) ==>
              CommandBytes(c) == match c
                                 case Op(code) => [code]
                                 case Data(d) =>
                                   if |d| <= 75 then [|d|] + d
                                   else if |d| <= 255 then [76, |d|] + d
                                   else [77, |d| % 256, |d| / 256] + d
  {
    match c
    case Op(_) =>
    case Data(d) =>
      var n := |d|;
      assert LittleEndian(n, 2) == [n % 256, n / 256 % 256] by {
        assert FixLE(n / 256 / 256, 0, 256) == [];
        assert FixLE(n / 256, 1, 256) == [n / 256 % 256] + [];
      }
  }

  /** The bytes of a script are those of its commands one after the other. */
  lemma WrittenScript(cs: seq<Command>, ds: seq<Command>, c: Command)
    requires AreSerializable(cs) && AreSerializable(ds) && IsSerializable(c)
    ensures ScriptBytes([]) == [] && ScriptBytes([c]) == CommandBytes(c)
    ensures ScriptBytes(cs + ds) == ScriptBytes(cs) + ScriptBytes(ds)
  {
    hide CommandBytes;
    assert [c][1..] == [] && CommandBytes(c) + [] == CommandBytes(c);
    ScriptBytesConcat(cs, ds);
  }

  lemma {:induction false} ScriptBytesConcat(cs: seq<Command>, ds: seq<Command>)
    requires AreSerializable(cs) && AreSerializable(ds)
    ensures ScriptBytes(cs + ds) == ScriptBytes(cs) + ScriptBytes(ds)
  {
    hide CommandBytes;
    if cs == [] {
      assert cs + ds == ds;
    } else {
      assert (cs + ds)[1..] == cs[1..] + ds;
      ScriptBytesConcat(cs[1..], ds);
    }
  }

  // ---------------------------------------------------------------- parse

  type Accepts = Bytes -> bool

  function Before(cs: seq<Command>, r: Result<seq<Command>>): Result<seq<Command>> {
    if r.Ok? then Ok(cs + r.value) else Err
  }

  /** Number of bytes that an opcode pushes, and what follows that number. */
  function PushLength(ch: byte, s: Bytes): (nat, Bytes) {
    if 1 <= ch <= 75 then (ch, s)
    else if ch == OP_PUSHDATA1 then (FromLittleEndian(Take(s, 1)), Drop(s, 1))
    else if ch == OP_PUSHDATA2 then (FromLittleEndian(Take(s, 2)), Drop(s, 2))
    else (0, s)
  }

  lemma PushLengthShrinks(ch: byte, s: Bytes)
    ensures |PushLength(ch, s).1| <= |s|
  {
  }

  /** The commands of a script. A push of no bytes stays an opcode; a push that the script is too short
      for raises, or ends the script when the parser is not strict. */
  function ParseFrom(accepts: Accepts, strict: bool, s: Bytes): Result<seq<Command>>
    decreases |s|
  {
    if s == [] then Ok([])
    else
      PushLengthShrinks(s[0], s[1..]);
      var (n, rest) := PushLength(s[0], s[1..]);
      if n == 0 then Before([Op(s[0])], ParseFrom(accepts, strict, rest))
      else if |rest| < n then (if strict then Err else Ok([]))
      else if !accepts(rest[..n]) then Err
      else Before([Data(rest[..n])], ParseFrom(accepts, strict, rest[n..]))
  }

  /** Scripts taken for one bare signature, key or pair of numbers, by their first byte and the length
      the caller states. */
  predicate IsBare(s: Bytes, length: nat) {
    s != [] && (
      || (s[0] == 0x30 && 69 <= length <= 74)
      || ((s[0] == 0x02 || s[0] == 0x03) && length == 33)
      || (s[0] == 0x04 && length == 65)
      || length == 64
    )
  }

  /** `Script.parse_bytesio`, up to the end of its loop. */
  function Parse(accepts: Accepts, strict: bool, s: Bytes, length: nat): Result<seq<Command>> {
    if !IsBare(s, length) then ParseFrom(accepts, strict, s)
    else if !accepts(Take(s, length)) then Err
    else Before([Data(Take(s, length))], ParseFrom(accepts, strict, Drop(s, length)))
  }

  /** What each first byte of a script asks for: 0 and 78 to 255 are opcodes, 1 to 75 push as many bytes, 76 pushes as many
      as the next byte says, 77 as the next two say, the low one first. */
  lemma ReadCommand(accepts: Accepts, strict: bool, ch: byte, s: Bytes)
    ensures ch == 0 || ch >= 78 ==>
              ParseFrom(accepts, strict, [ch] + s) == Before([Op(ch)], ParseFrom(accepts, strict, s))
    ensures 1 <= ch <= 75 ==> ParseFrom(accepts, strict, [ch] + s) == Pushed(accepts, strict, ch, s)
    ensures ch == 76 && s != [] && s[0] > 0 ==>
              ParseFrom(accepts, strict, [ch] + s) == Pushed(accepts, strict, s[0], s[1..])
    ensures ch == 77 && |s| >= 2 && (s[0] != 0 || s[1] != 0) ==>
              ParseFrom(accepts, strict, [ch] + s) == Pushed(accepts, strict, (s[0] as nat) + 256 * (s[1] as nat), s[2..])
  {
    assert ([ch] + s)[1..] == s;
    AnnouncedLength(ch, s);
    hide PushLength;
  }

  lemma AnnouncedLength(ch: byte, s: Bytes)
    ensures ch == 0 || ch >= 78 ==> PushLength(ch, s) == (0, s)
    ensures 1 <= ch <= 75 ==> PushLength(ch, s) == (ch as nat, s)
    ensures ch == 76 && s != [] ==> PushLength(ch, s) == (s[0] as nat, s[1..])
    ensures ch == 77 && |s| >= 2 ==> PushLength(ch, s) == ((s[0] as nat) + 256 * (s[1] as nat), s[2..])
  {
    hide ParseFrom;
    if ch == 76 && s != [] {
      var t := s[..1];
      assert t[1..] == [] && ValLE(t, 256) == t[0] + 256 * ValLE([], 256);
    } else if ch == 77 && |s| >= 2 {
      var t := s[..2];
      assert t[1..][1..] == [] && ValLE(t[1..], 256) == t[1] + 256 * ValLE([], 256);
      assert ValLE(t, 256) == t[0] + 256 * ValLE(t[1..], 256);
    }
  }

  /** The next `n` bytes as data, if they are there and accepted. */
  function Pushed(accepts: Accepts, strict: bool, n: nat, s: Bytes): Result<seq<Command>>
    requires n > 0
  {
    if |s| < n then (if strict then Err else Ok([]))
    else if !accepts(s[..n]) then Err
    else Before([Data(s[..n])], ParseFrom(accepts, strict, s[n..]))
  }

  /** The first bytes and stated lengths for which the whole is first taken for one item of that length. */
  lemma BareWhen(s: Bytes, length: nat)
    ensures IsBare(s, length)
            <==> s != [] && (length == 64 || (length == 33 && s[0] in {2, 3}) || (length == 65 && s[0] == 4)
                             || (69 <= length <= 74 && s[0] == 48))
  {
  }

  lemma BeforeTwice(cs: seq<Command>, c: Command, r: Result<seq<Command>>)
    ensures Before(cs, Before([c], r)) == Before(cs + [c], r)
    ensures Before([], r) == r && Before(cs, Ok([])) == Ok(cs)
  {
    assert cs + [] == cs;
    if r.Ok? {
      assert [] + r.value == r.value;
      assert cs + ([c] + r.value) == (cs + [c]) + r.value;
    }
  }

  /** What is still to come: the data just read, or the opcode just read. */
  function Pending(accepts: Accepts, strict: bool, chb: Bytes, data: Bytes, rest: Bytes): Result<seq<Command>> {
    if data == [] then ParseFrom(accepts, strict, chb + rest)
    else if !accepts(data) then Err
    else Before([Data(data)], ParseFrom(accepts, strict, rest))
  }

  /** The first read, and the second one where the script looks like a bare item. */
  lemma ParseStart(accepts: Accepts, strict: bool, s: Bytes, length: nat)
    ensures var chb, rest := Take(s, 1), Drop(s, 1);
            && |chb| <= 1
            && (IsBare(chb, length) ==>
                  length > 0 && Parse(accepts, strict, s, length)
                                == Pending(accepts, strict, chb, chb + Take(rest, length - 1), Drop(rest, length - 1)))
            && (!IsBare(chb, length) && chb != [] ==>
                  Parse(accepts, strict, s, length) == Pending(accepts, strict, chb, [], rest))
            && (chb == [] ==> !IsBare(chb, length) && Parse(accepts, strict, s, length) == Ok([]))
  {
    hide ParseFrom;
    if s != [] {
      assert Take(s, 1) + Drop(s, 1) == s;
      if IsBare(s, length) {
        BareRest(s, length);
      }
    } else {
      ParseNothing(accepts, strict);
    }
  }

  lemma ParseNothing(accepts: Accepts, strict: bool)
    ensures ParseFrom(accepts, strict, []) == Ok([])
  {
  }

  lemma BareRest(s: Bytes, length: nat)
    requires IsBare(s, length)
    ensures Take(s, length) == Take(s, 1) + Take(Drop(s, 1), length - 1)
    ensures Drop(s, length) == Drop(Drop(s, 1), length - 1)
  {
  }

  /** The read at the end of a round. */
  lemma NextByte(accepts: Accepts, strict: bool, rest: Bytes)
    ensures var chb := Take(rest, 1);
            && |chb| <= 1
            && (chb == [] ==> rest == [] && ParseFrom(accepts, strict, rest) == Ok([]))
            && (chb != [] ==> ParseFrom(accepts, strict, rest) == Pending(accepts, strict, chb, [], Drop(rest, 1)))
            && 3 * |Drop(rest, 1)| + |chb| <= if rest == [] then 0 else 3 * |rest| - 2
  {
    assert Take(rest, 1) + Drop(rest, 1) == rest;
  }

  lemma PendingData(accepts: Accepts, strict: bool, chb: Bytes, data: Bytes, rest: Bytes)
    requires data != []
    ensures Pending(accepts, strict, chb, data, rest)
            == if !accepts(data) then Err else Before([Data(data)], ParseFrom(accepts, strict, rest))
  {
  }

  /** The step of the loop at an opcode. */
  lemma PendingOpcode(accepts: Accepts, strict: bool, ch: byte, rest: Bytes)
    ensures var (n, r) := PushLength(ch, rest);
            Pending(accepts, strict, [ch], [], rest)
            == if n == 0 then Before([Op(ch)], ParseFrom(accepts, strict, r))
               else if |Take(r, n)| == n then Pending(accepts, strict, [ch], Take(r, n), Drop(r, n))
               else if strict then Err else Ok([])
  {
    var s := [ch] + rest;
    assert s[1..] == rest;
  }

  method ReadPushLength(script: Stream, ch: byte) returns (dataLength: nat)
    modifies script`pos
    ensures PushLength(ch, old(script.Rest())) == (dataLength, script.Rest())
    ensures |script.Rest()| <= |old(script.Rest())|
  {
    dataLength := 0;
    if 1 <= ch <= 75 {
      dataLength := ch;
    } else if ch == OP_PUSHDATA1 {
      var b := script.Read(1);
      dataLength := FromLittleEndian(b);
    } else if ch == OP_PUSHDATA2 {
      var b := script.Read(2);
      dataLength := FromLittleEndian(b);
    }
  }

  lemma ShortRead(rest: Bytes, n: nat)
    requires n > 0
    ensures |Take(rest, n)| == n ==> Take(rest, n) != [] && |Drop(rest, n)| < |rest|
    ensures |Drop(rest, n)| <= |rest|
  {
  }

  /** `Script.parse_bytesio`: a round takes either the data read before or the next opcode. */
  method ParseBytesio(script: Stream, accepts: Accepts, strict: bool, length: nat) returns (r: Result<seq<Command>>)
    modifies script`pos
    ensures r == Parse(accepts, strict, old(script.Rest()), length)
  {
    hide *;
    ghost var all := Parse(accepts, strict, script.Rest(), length);
    ParseStart(accepts, strict, script.Rest(), length);
    var commands: seq<Command> := [];
    var data: Bytes := [];
    var chb := script.Read(1);
    if IsBare(chb, length) {
      var more := script.Read(length - 1);
      data := chb + more;
    }
    BeforeTwice([], Op(0), all);
    while chb != []
      invariant |chb| <= 1
      invariant chb != [] ==> all == Before(commands, Pending(accepts, strict, chb, data, script.Rest()))
      invariant chb == [] ==> all == Ok(commands)
      decreases 3 * |script.Rest()| + |chb| + if data == [] then 0 else 1
    {
      ghost var rest := script.Rest();
      if data != [] {
        PendingData(accepts, strict, chb, data, rest);
        if !accepts(data) {
          BeforeError(commands);
          return Err;
        }
        BeforeTwice(commands, Data(data), ParseFrom(accepts, strict, rest));
        commands := commands + [Data(data)];
        data := [];
      } else {
        var ch := chb[0];
        assert chb == [ch];
        PendingOpcode(accepts, strict, ch, rest);
        var dataLength := ReadPushLength(script, ch);
        if dataLength > 0 {
          ShortRead(script.Rest(), dataLength);
          data := script.Read(dataLength);
          if |data| != dataLength {
            if strict {
              BeforeError(commands);
              return Err;
            }
            BeforeTwice(commands, Op(0), Ok([]));
            chb, data := [], [];
          }
          continue;
        }
        BeforeTwice(commands, Op(ch), ParseFrom(accepts, strict, script.Rest()));
        commands := commands + [Op(ch)];
      }
      NextByte(accepts, strict, script.Rest());
      BeforeTwice(commands, Op(0), Ok([]));
      chb := script.Read(1);
    }
    r := Ok(commands);
  }

  lemma BeforeError(cs: seq<Command>)
    ensures Before(cs, Err) == Err
  {
  }

  // ---------------------------------------------------------------- there and back

  /** A command that reads back wherever it stands: an opcode that pushes nothing, or data that is there
      and accepted. */
  predicate ReadsBack(accepts: Accepts, c: Command) {
    match c
    case Op(code) => !(1 <= code <= OP_PUSHDATA2)
    case Data(d) => d != [] && accepts(d)
  }

  lemma LengthBack(n: nat)
    requires n < 0x1_0000
    ensures n < 0x100 ==> FromLittleEndian([n]) == n
    ensures FromLittleEndian(LittleEndian(n, 2)) == n
  {
    ByteLimits();
    LittleEndianBack(n, 2);
    if n < 0x100 {
      assert [n][1..] == [] && ValLE([], 256) == 0;
    }
  }

  /** The push that packed data announces. */
  lemma PackAnnounces(d: Bytes, tail: Bytes)
    requires 0 < |d| < 0x1_0000
    ensures var s := DataPack(d) + tail;
            s != [] && PushLength(s[0], s[1..]) == (|d|, d + tail)
  {
    hide FromLittleEndian, LittleEndian;
    LengthBack(|d|);
    var s := DataPack(d) + tail;
    if |d| <= 75 {
      assert s[1..] == d + tail;
    } else if |d| <= 255 {
      assert s[1..] == [|d|] + (d + tail);
      TakeDropConcat([|d|], d + tail);
    } else {
      assert s[1..] == LittleEndian(|d|, 2) + (d + tail);
      TakeDropConcat(LittleEndian(|d|, 2), d + tail);
    }
  }

  lemma CommandBack(accepts: Accepts, strict: bool, c: Command, tail: Bytes)
    requires IsSerializable(c) && ReadsBack(accepts, c)
    ensures ParseFrom(accepts, strict, CommandBytes(c) + tail) == Before([c], ParseFrom(accepts, strict, tail))
  {
    hide DataPack, PushLength;
    var s := CommandBytes(c) + tail;
    match c
    case Op(code) =>
      assert s[1..] == tail;
      NoPush(code, tail);
    case Data(d) =>
      PackAnnounces(d, tail);
      assert (d + tail)[..|d|] == d && (d + tail)[|d|..] == tail;
  }

  lemma NoPush(code: nat, tail: Bytes)
    requires code < 256 && !(1 <= code <= OP_PUSHDATA2)
    ensures PushLength(code, tail) == (0, tail)
  {
  }

  /** The commands that come out of a script need no more bytes than it has. */
  lemma {:induction false} ParsedIsNoLonger(accepts: Accepts, strict: bool, s: Bytes)
    ensures var r := ParseFrom(accepts, strict, s);
            r.Ok? && AreSerializable(r.value) ==> |ScriptBytes(r.value)| <= |s|
    decreases |s|
  {
    if s != [] {
      PushLengthShrinks(s[0], s[1..]);
      var (n, rest) := PushLength(s[0], s[1..]);
      if n == 0 {
        ParsedIsNoLonger(accepts, strict, rest);
        BeforeBytes(Op(s[0]), ParseFrom(accepts, strict, rest));
      } else if |rest| >= n && accepts(rest[..n]) {
        ParsedIsNoLonger(accepts, strict, rest[n..]);
        BeforeBytes(Data(rest[..n]), ParseFrom(accepts, strict, rest[n..]));
        PackIsShortest(s[0], s[1..]);
      }
    }
  }

  lemma BeforeBytes(c: Command, r: Result<seq<Command>>)
    ensures var b := Before([c], r);
            b.Ok? && AreSerializable(b.value) ==>
              && IsSerializable(c) && AreSerializable(r.value)
              && |ScriptBytes(b.value)| == |CommandBytes(c)| + |ScriptBytes(r.value)|
  {
    var b := Before([c], r);
    if b.Ok? && AreSerializable(b.value) {
      assert b.value[0] == c && b.value[1..] == r.value;
    }
  }

  /** No push announces its data in fewer bytes than packing does. */
  lemma PackIsShortest(ch: byte, s: Bytes)
    ensures var (n, rest) := PushLength(ch, s);
            n > 0 && |rest| >= n ==> n < 0x1_0000 && |DataPack(rest[..n])| + |rest| - n <= 1 + |s|
  {
    hide ValLE, Pow;
    ByteLimits();
    ValLEBound(Take(s, 1), 256);
    ValLEBound(Take(s, 2), 256);
    var (n, rest) := PushLength(ch, s);
    if ch == OP_PUSHDATA1 && n > 0 {
      PowMonotone(256, |Take(s, 1)|, 1);
    } else if ch == OP_PUSHDATA2 && n > 0 {
      PowMonotone(256, |Take(s, 2)|, 2);
    }
  }

  predicate IsPushOpcode(c: Command) {
    c == Op(OP_PUSHDATA1) || c == Op(OP_PUSHDATA2)
  }

  /** Every command reads back, or is a push opcode with nothing behind it. */
  predicate IsCanonical(accepts: Accepts, cs: seq<Command>) {
    forall i :: 0 <= i < |cs| ==> ReadsBack(accepts, cs[i]) || (i == |cs| - 1 && IsPushOpcode(cs[i]))
  }

  lemma CanonicalRest(accepts: Accepts, cs: seq<Command>)
    requires cs != []
    ensures ReadsBack(accepts, cs[0]) ==> (IsCanonical(accepts, cs) <==> IsCanonical(accepts, cs[1..]))
    ensures !ReadsBack(accepts, cs[0]) ==> (IsCanonical(accepts, cs) <==> |cs| == 1 && IsPushOpcode(cs[0]))
  {
    hide ReadsBack, IsPushOpcode;
    var t := cs[1..];
    assert forall i :: 0 <= i < |t| ==> t[i] == cs[i + 1];
    if IsCanonical(accepts, cs) {
      forall i | 0 <= i < |t|
        ensures ReadsBack(accepts, t[i]) || (i == |t| - 1 && IsPushOpcode(t[i]))
      {
        assert t[i] == cs[i + 1];
      }
    }
    if ReadsBack(accepts, cs[0]) && IsCanonical(accepts, t) {
      forall i | 0 <= i < |cs|
        ensures ReadsBack(accepts, cs[i]) || (i == |cs| - 1 && IsPushOpcode(cs[i]))
      {
        assert i > 0 ==> cs[i] == t[i - 1];
      }
    }
  }

  lemma BeforeIs(c: Command, cs: seq<Command>, r: Result<seq<Command>>)
    requires cs != []
    ensures Before([c], r) == Ok(cs) <==> cs[0] == c && r == Ok(cs[1..])
  {
    assert cs == [cs[0]] + cs[1..];
    if r.Ok? {
      assert ([c] + r.value)[1..] == r.value;
    }
  }

  /** A command that does not read back is lost, but for a push opcode at the end. */
  lemma LostCommand(accepts: Accepts, strict: bool, cs: seq<Command>)
    requires AreSerializable(cs) && cs != [] && !ReadsBack(accepts, cs[0])
    ensures ParseFrom(accepts, strict, ScriptBytes(cs)) == Ok(cs) <==> |cs| == 1 && IsPushOpcode(cs[0])
  {
    match cs[0]
    case Data(d) => LostData(accepts, strict, cs, d);
    case Op(code) => LostOpcode(accepts, strict, cs, code);
  }

  lemma LostData(accepts: Accepts, strict: bool, cs: seq<Command>, d: Bytes)
    requires AreSerializable(cs) && cs != [] && cs[0] == Data(d) && !ReadsBack(accepts, cs[0])
    ensures ParseFrom(accepts, strict, ScriptBytes(cs)) != Ok(cs)
  {
    var tail := ScriptBytes(cs[1..]);
    var s := DataPack(d) + tail;
    assert s == ScriptBytes(cs);
    hide ScriptBytes;
    if d == [] {
      assert s[0] == 0;
      BeforeIs(Op(0), cs, ParseFrom(accepts, strict, s[1..]));
    } else {
      PackAnnounces(d, tail);
      assert (d + tail)[..|d|] == d;
    }
  }

  lemma LostOpcode(accepts: Accepts, strict: bool, cs: seq<Command>, code: byte)
    requires AreSerializable(cs) && cs != [] && cs[0] == Op(code) && !ReadsBack(accepts, cs[0])
    ensures ParseFrom(accepts, strict, ScriptBytes(cs)) == Ok(cs) <==> |cs| == 1 && IsPushOpcode(cs[0])
  {
    var t := cs[1..];
    var tail := ScriptBytes(t);
    var s := [code] + tail;
    assert ScriptBytes(cs) == s && s[1..] == tail;
    var (n, rest) := PushLength(code, tail);
    if n > 0 {
      if |rest| >= n && accepts(rest[..n]) {
        BeforeIs(Data(rest[..n]), cs, ParseFrom(accepts, strict, rest[n..]));
      }
      assert t == [] ==> rest == [];
      NothingAnnounced(code);
    } else {
      hide PushLength;
      BeforeIs(Op(code), cs, ParseFrom(accepts, strict, rest));
      ParsedIsNoLonger(accepts, strict, rest);
      PushTakesBytes(code, tail);
      assert t != [] ==> tail != [];
      if t == [] {
        ParseNothing(accepts, strict);
      }
    }
  }

  lemma NothingAnnounced(code: byte)
    ensures code == OP_PUSHDATA1 || code == OP_PUSHDATA2 ==> PushLength(code, []) == (0, [])
  {
  }

  lemma PushTakesBytes(code: byte, s: Bytes)
    requires 1 <= code <= OP_PUSHDATA2 && PushLength(code, s).0 == 0
    ensures code == OP_PUSHDATA1 || code == OP_PUSHDATA2
    ensures s != [] ==> |PushLength(code, s).1| < |s|
    ensures s == [] ==> PushLength(code, s).1 == []
  {
  }

  /** Parsing undoes serialising exactly for the canonical command lists, whatever push form the data
      take. */
  lemma {:induction false} ParseSerializeIff(accepts: Accepts, strict: bool, cs: seq<Command>)
    requires AreSerializable(cs)
    ensures ParseFrom(accepts, strict, ScriptBytes(cs)) == Ok(cs) <==> IsCanonical(accepts, cs)
    decreases |cs|
  {
    if cs == [] {
      ParseNothing(accepts, strict);
    } else {
      hide ParseFrom, IsCanonical, ReadsBack, CommandBytes;
      CanonicalRest(accepts, cs);
      if ReadsBack(accepts, cs[0]) {
        CommandBack(accepts, strict, cs[0], ScriptBytes(cs[1..]));
        BeforeIs(cs[0], cs, ParseFrom(accepts, strict, ScriptBytes(cs[1..])));
        ParseSerializeIff(accepts, strict, cs[1..]);
      } else {
        LostCommand(accepts, strict, cs);
      }
    }
  }

  lemma {:induction false} CanonicalPrefix(accepts: Accepts, strict: bool, cs: seq<Command>, tail: Bytes)
    requires AreSerializable(cs) && forall i :: 0 <= i < |cs| ==> ReadsBack(accepts, cs[i])
    ensures ParseFrom(accepts, strict, ScriptBytes(cs) + tail) == Before(cs, ParseFrom(accepts, strict, tail))
    decreases |cs|
  {
    hide ParseFrom, ReadsBack, CommandBytes;
    var r := ParseFrom(accepts, strict, tail);
    if cs == [] {
      BeforeTwice([], Op(0), r);
      assert [] + tail == tail;
    } else {
      var rest := ScriptBytes(cs[1..]);
      CanonicalPrefix(accepts, strict, cs[1..], tail);
      CommandBack(accepts, strict, cs[0], rest + tail);
      assert CommandBytes(cs[0]) + rest + tail == CommandBytes(cs[0]) + (rest + tail);
      assert r.Ok? ==> [cs[0]] + (cs[1..] + r.value) == cs + r.value;
    }
  }

  /** A script whose last push is cut short raises; when the parser is not strict it gives the commands
      in front of that push and drops the rest. */
  lemma TruncatedPush(accepts: Accepts, strict: bool, cs: seq<Command>, ch: byte, tail: Bytes)
    requires AreSerializable(cs) && forall i :: 0 <= i < |cs| ==> ReadsBack(accepts, cs[i])
    requires |PushLength(ch, tail).1| < PushLength(ch, tail).0
    ensures ParseFrom(accepts, strict, ScriptBytes(cs) + [ch] + tail) == if strict then Err else Ok(cs)
  {
    assert ScriptBytes(cs) + [ch] + tail == ScriptBytes(cs) + ([ch] + tail);
    CanonicalPrefix(accepts, strict, cs, [ch] + tail);
    assert ([ch] + tail)[1..] == tail;
    BeforeTwice(cs, Op(0), Ok([]));
  }

  // ---------------------------------------------------------------- any stated length

  const FORTY: byte := 0x40

  /** Nothing but pushes of 64 bytes 0x40, which are 0x40 all over: the one script that is read as itself
      when it is read one byte too late. */
  predicate IsUniform(cs: seq<Command>) {
    forall i :: 0 <= i < |cs| ==> cs[i] == Data(Repeat(FORTY, 64))
  }

  /** Bytes that equal themselves one place further on are all the same. */
  lemma {:induction false} ShiftedIsRepeat(d: Bytes, b: byte, i: nat)
    requires i <= |d| && forall j :: 0 <= j < i ==> d[j] == ([b] + d)[j]
    ensures forall j :: 0 <= j < i ==> d[j] == b
  {
    if i > 0 {
      ShiftedIsRepeat(d, b, i - 1);
      assert d[i - 1] == ([b] + d)[i - 1];
    }
  }

  /** Reading a list one byte too late, behind a push of 64 bytes, gives the list only for uniform ones,
      whose last push is then cut short. */
  lemma {:induction false} ReadLate(accepts: Accepts, strict: bool, cs: seq<Command>)
    requires AreSerializable(cs)
    ensures ParseFrom(accepts, strict, [FORTY] + ScriptBytes(cs)) == Ok(cs)
            <==> !strict && IsUniform(cs) && (cs != [] ==> accepts(Repeat(FORTY, 64)))
    decreases |cs|
  {
    var tail := ScriptBytes(cs);
    var s := [FORTY] + tail;
    assert s[1..] == tail;
    if cs == [] {
      assert ParseFrom(accepts, strict, s) == if strict then Err else Ok([]);
    } else if |tail| >= 64 {
      if accepts(tail[..64]) {
        BeforeIs(Data(tail[..64]), cs, ParseFrom(accepts, strict, tail[64..]));
      }
      if cs[0] == Data(tail[..64]) {
        LateStep(cs);
        ReadLate(accepts, strict, cs[1..]);
        UniformRest(cs);
      } else {
        NotUniform(cs);
      }
    } else {
      ShortIsNotUniform(cs);
    }
  }

  /** Data that a script both starts with and packs as its first command. */
  lemma LateStep(cs: seq<Command>)
    requires AreSerializable(cs) && cs != [] && |ScriptBytes(cs)| >= 64 && cs[0] == Data(ScriptBytes(cs)[..64])
    ensures cs[0] == Data(Repeat(FORTY, 64)) && ScriptBytes(cs)[64..] == [FORTY] + ScriptBytes(cs[1..])
  {
    var tail := ScriptBytes(cs);
    PackedFirst(cs, tail[..64]);
    hide *;
    OneByteLate(tail, tail[..64], ScriptBytes(cs[1..]));
  }

  lemma PackedFirst(cs: seq<Command>, d: Bytes)
    requires AreSerializable(cs) && cs != [] && |d| == 64 && cs[0] == Data(d)
    ensures ScriptBytes(cs) == [FORTY] + d + ScriptBytes(cs[1..])
  {
  }

  lemma OneByteLate(tail: Bytes, d: Bytes, rest: Bytes)
    requires tail == [FORTY] + d + rest && |d| == 64 && d == tail[..64]
    ensures d == Repeat(FORTY, 64) && tail[64..] == [FORTY] + rest
  {
    forall j | 0 <= j < 64 ensures d[j] == ([FORTY] + d)[j] {
      assert d[j] == tail[j];
    }
    ShiftedIsRepeat(d, FORTY, 64);
    assert tail[64..] == [d[63]] + rest;
  }

  lemma UniformRest(cs: seq<Command>)
    requires cs != [] && cs[0] == Data(Repeat(FORTY, 64))
    ensures IsUniform(cs) <==> IsUniform(cs[1..])
  {
    assert forall i :: 0 <= i < |cs[1..]| ==> cs[1..][i] == cs[i + 1];
    if IsUniform(cs[1..]) {
      forall i | 0 <= i < |cs| ensures cs[i] == Data(Repeat(FORTY, 64)) {
        assert i > 0 ==> cs[i] == cs[1..][i - 1];
      }
    }
  }

  lemma NotUniform(cs: seq<Command>)
    requires AreSerializable(cs) && cs != [] && |ScriptBytes(cs)| >= 64 && cs[0] != Data(ScriptBytes(cs)[..64])
    ensures !IsUniform(cs)
  {
    hide ScriptBytes;
    var d := Repeat(FORTY, 64);
    if cs[0] == Data(d) {
      PackedFirst(cs, d);
      StartsUniform(d, ScriptBytes(cs[1..]));
      assert false;
    }
  }

  lemma StartsUniform(d: Bytes, rest: Bytes)
    requires d == Repeat(FORTY, 64)
    ensures ([FORTY] + d + rest)[..64] == d
  {
  }

  lemma ShortIsNotUniform(cs: seq<Command>)
    requires AreSerializable(cs) && cs != [] && |ScriptBytes(cs)| < 64
    ensures !IsUniform(cs)
  {
  }

  /** A bare item in front gives the commands only for uniform pushes. */
  lemma BareIsMisread(accepts: Accepts, strict: bool, cs: seq<Command>, length: nat)
    requires AreSerializable(cs) && IsBare(ScriptBytes(cs), length)
    ensures Parse(accepts, strict, ScriptBytes(cs), length) == Ok(cs)
            <==> !strict && length == 64 && IsUniform(cs) && accepts(Repeat(FORTY, 64))
  {
    var s := ScriptBytes(cs);
    var d := Take(s, length);
    hide ParseFrom;
    if accepts(d) {
      BeforeIs(Data(d), cs, ParseFrom(accepts, strict, Drop(s, length)));
    }
    if cs[0] == Data(d) {
      BareFirst(cs, length);
      LateStep(cs);
      ReadLate(accepts, strict, cs[1..]);
      UniformRest(cs);
    } else if length == 64 && IsUniform(cs) {
      if |s| >= 64 {
        NotUniform(cs);
      } else {
        ShortIsNotUniform(cs);
      }
    }
  }

  /** Only a push of 64 bytes can be the first command and the bare item. */
  lemma BareFirst(cs: seq<Command>, length: nat)
    requires AreSerializable(cs) && IsBare(ScriptBytes(cs), length) && cs[0] == Data(Take(ScriptBytes(cs), length))
    ensures length == 64 && |ScriptBytes(cs)| >= 64
  {
    hide LittleEndian;
    var s := ScriptBytes(cs);
    var d := Take(s, length);
    assert |s| == |DataPack(d)| + |ScriptBytes(cs[1..])|;
    assert s[0] == DataPack(d)[0];
  }

  /** Parsing undoes serialising under any stated length exactly for the canonical lists that do not look
      like a bare item of that length, and without strictness for uniform pushes read as an item of
      64. */
  lemma ParseAtLengthIff(accepts: Accepts, strict: bool, cs: seq<Command>, length: nat)
    requires AreSerializable(cs)
    ensures Parse(accepts, strict, ScriptBytes(cs), length) == Ok(cs)
            <==> IsCanonical(accepts, cs)
                 && (!IsBare(ScriptBytes(cs), length) || (!strict && length == 64 && IsUniform(cs)))
  {
    hide ParseFrom, IsCanonical, IsBare, IsUniform;
    if IsBare(ScriptBytes(cs), length) {
      BareIsMisread(accepts, strict, cs, length);
      BareIsNotEmpty(cs, length);
      if IsUniform(cs) {
        UniformIsCanonical(accepts, cs);
      }
    } else {
      ParseSerializeIff(accepts, strict, cs);
      NotBareIsParsed(accepts, strict, ScriptBytes(cs), length);
    }
  }

  lemma NotBareIsParsed(accepts: Accepts, strict: bool, s: Bytes, length: nat)
    requires !IsBare(s, length)
    ensures Parse(accepts, strict, s, length) == ParseFrom(accepts, strict, s)
  {
  }

  lemma BareIsNotEmpty(cs: seq<Command>, length: nat)
    requires AreSerializable(cs) && IsBare(ScriptBytes(cs), length)
    ensures cs != []
  {
  }

  lemma UniformIsCanonical(accepts: Accepts, cs: seq<Command>)
    requires cs != [] && IsUniform(cs)
    ensures IsCanonical(accepts, cs) <==> accepts(Repeat(FORTY, 64))
  {
    assert cs[0] == Data(Repeat(FORTY, 64));
  }

  lemma {:induction false} UniformLength(cs: seq<Command>)
    requires AreSerializable(cs) && IsUniform(cs)
    ensures |ScriptBytes(cs)| == 65 * |cs|
  {
    if cs != [] {
      UniformRest(cs);
      UniformLength(cs[1..]);
    }
  }

  /** With the length of the script stated, as `parse_bytes` states it, with half of it, as
      `Script.parse` states it for bytes, and with twice of it, as it does for hexadecimal text: the
      script must not look like a bare item of that length. */
  lemma StatedLengths(accepts: Accepts, strict: bool, cs: seq<Command>, length: nat)
    requires AreSerializable(cs)
    requires var n := |ScriptBytes(cs)|;
             length == n || length == n / 2 || length == 2 * n
    ensures Parse(accepts, strict, ScriptBytes(cs), length) == Ok(cs)
            <==> IsCanonical(accepts, cs) && !IsBare(ScriptBytes(cs), length)
  {
    hide Parse, IsCanonical, IsBare, IsUniform, ScriptBytes;
    ParseAtLengthIff(accepts, strict, cs, length);
    if length == 64 && IsUniform(cs) {
      UniformLength(cs);
    }
  }

  /** `Script.parse` takes every script of 32 bytes given as hexadecimal text for one item, and every one
      of 128 or 129 bytes given as bytes for an item of 64 and the rest. */
  lemma TakenForItems(accepts: Accepts, strict: bool, s: Bytes)
    ensures |s| == 32 ==> Parse(accepts, strict, s, 2 * |s|) == if accepts(s) then Ok([Data(s)]) else Err
    ensures |s| / 2 == 64 ==>
              Parse(accepts, strict, s, |s| / 2)
              == if accepts(s[..64]) then Before([Data(s[..64])], ParseFrom(accepts, strict, s[64..])) else Err
  {
    if |s| == 32 {
      assert Take(s, 64) == s && Drop(s, 64) == [];
      ParseNothing(accepts, strict);
      assert [Data(s)] + [] == [Data(s)];
    }
  }
}
