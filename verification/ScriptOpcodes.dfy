/** What single opcodes do, by their numbers and byte by byte. */
module ScriptOpcodes {
  import opened Digits
  import opened ByteLayout
  import opened ScriptNum
  import opened ScriptFlow
  import opened ScriptMachine
  import opened Multisig
  import opened Sequences
  import opened Wrappers

  // ---------------------------------------------------------------- numbers

  /** The bytes of a string are those of the magnitude it denotes, from the low end, without the top bit of the last one,
      which is the sign. */
  lemma DecodedBytes(s: Bytes)
    ensures s == [] ==> DecodeNum(s) == 0
    ensures s != [] ==>
              && Abs(DecodeNum(s)) < Pow(256, |s|)
              && (forall i :: 0 <= i < |s| - 1 ==> ByteAt(Abs(DecodeNum(s)), i) == s[i])
              && ByteAt(Abs(DecodeNum(s)), |s| - 1) == s[|s| - 1] % 128
              && (DecodeNum(s) < 0 ==> s[|s| - 1] >= 128) && (DecodeNum(s) > 0 ==> s[|s| - 1] < 128)
  {
    if s != [] {
      var t: Bytes := s[..|s| - 1] + [s[|s| - 1] % 128];
      assert Abs(DecodeNum(s)) == ValLE(t, 256);
      assert forall i :: 0 <= i < |s| - 1 ==> t[i] == s[i];
      hide DecodeNum;
      BytesOfValue(t);
    }
    SignOf(s);
  }

  lemma BytesOfValue(t: Bytes)
    ensures ValLE(t, 256) < Pow(256, |t|) && forall i :: 0 <= i < |t| ==> ByteAt(ValLE(t, 256), i) == t[i]
  {
    FixOfValLE(t, 256);
    ValLEBound(t, 256);
    forall i | 0 <= i < |t|
      ensures ByteAt(ValLE(t, 256), i) == t[i]
    {
      FixLEDigit(ValLE(t, 256), |t|, 256, i);
    }
  }

  lemma SignOf(s: Bytes)
    ensures s == [] ==> DecodeNum(s) == 0
    ensures s != [] && DecodeNum(s) < 0 ==> s[|s| - 1] >= 128
    ensures s != [] && DecodeNum(s) > 0 ==> s[|s| - 1] < 128
  {
    hide ValLE;
  }

  // ---------------------------------------------------------------- constants

  lemma OneByteNumber(n: int)
    requires -1 <= n <= 16
    ensures EncodeNum(n) == if n == 0 then [] else if n == -1 then [0x81] else [n]
  {
    hide *;
    EncodeOfZero();
    if n != 0 {
      var s: Bytes := if n == -1 then [0x81] else [n];
      OneByteIs(s);
      EncodeDecodeIffMinimal(s);
    }
  }

  lemma OneByteIs(s: Bytes)
    requires |s| == 1
    ensures DecodeNum(s) == if s[0] >= 128 then 128 - s[0] else s[0] as int
    ensures IsMinimal(s) <==> s[0] % 128 != 0
  {
    var t: Bytes := s[..0] + [s[0] % 128];
    assert t == [s[0] % 128] && t[1..] == [];
    assert ValLE(t, 256) == s[0] % 128 + 256 * ValLE([], 256);
  }

  /** Opcode 0 pushes the empty string, 79 pushes 0x81, 81 to 96 push the bytes 1 to 16, and data push themselves. */
  lemma ConstantIsPushed(ops: OpTable, code: nat, k: seq<Command>, s: seq<Bytes>)
    ensures code == 0 ==> RunFlat(ops, [Op(code)] + k, s) == RunFlat(ops, k, s + [[]])
    ensures code == 79 ==> RunFlat(ops, [Op(code)] + k, s) == RunFlat(ops, k, s + [[0x81]])
    ensures 81 <= code <= 96 ==> RunFlat(ops, [Op(code)] + k, s) == RunFlat(ops, k, s + [[code - 80]])
    ensures forall d :: RunFlat(ops, [Data(d)] + k, s) == RunFlat(ops, k, s + [d])
  {
    hide EncodeNum;
    OneByteNumber(0);
    OneByteNumber(-1);
    if 81 <= code <= 96 {
      OneByteNumber(code - 80);
    }
    assert ([Op(code)] + k)[1..] == k;
    forall d
      ensures RunFlat(ops, [Data(d)] + k, s) == RunFlat(ops, k, s + [d])
    {
      assert ([Data(d)] + k)[1..] == k;
    }
  }

  /** Any other opcode but the two conditionals does what the table says, and what follows runs if it succeeds. */
  lemma OperationRuns(ops: OpTable, code: nat, k: seq<Command>, s: seq<Bytes>)
    requires code !in {0, 79, 99, 100} && !(81 <= code <= 96)
    ensures RunFlat(ops, [Op(code)] + k, s)
            == match ops(code, s)
               case Next(after) => RunFlat(ops, k, after)
               case Fail => Fail
               case Raise => Raise
    ensures RunFlat(ops, [], s) == Next(s)
  {
    assert ([Op(code)] + k)[1..] == k;
  }

  // ---------------------------------------------------------------- conditionals

  /** Opcode 99 goes on with what stands in front of opcode 103, and for a zero string with what stands behind it;
      opcode 100 the other way round. Both branches are any nested programs, and anything may follow. */
  lemma BranchTaken(ops: OpTable, thn: Prog, els: Prog, k: seq<Command>, s: seq<Bytes>, e: Bytes)
    requires WellFormed(thn) && WellFormed(els)
    ensures RunFlat(ops, [Op(99)] + Flatten(thn) + [Op(103)] + Flatten(els) + [Op(104)] + k, s + [e])
            == RunFlat(ops, (if IsZeroString(e) then Flatten(els) else Flatten(thn)) + k, s)
    ensures RunFlat(ops, [Op(100)] + Flatten(thn) + [Op(103)] + Flatten(els) + [Op(104)] + k, s + [e])
            == RunFlat(ops, (if IsZeroString(e) then Flatten(thn) else Flatten(els)) + k, s)
  {
    FalseIffZeroString(e);
    assert (s + [e])[..|s|] == s;
    BranchOf(ops, thn, els, k, s + [e], false);
    BranchOf(ops, thn, els, k, s + [e], true);
  }

  lemma BranchOf(ops: OpTable, thn: Prog, els: Prog, k: seq<Command>, s: seq<Bytes>, negated: bool)
    requires WellFormed(thn) && WellFormed(els) && s != []
    ensures RunFlat(ops, [Opening(negated)] + Flatten(thn) + [Op(103)] + Flatten(els) + [Op(104)] + k, s)
            == RunFlat(ops, (if Holds(s[|s| - 1], negated) then Flatten(thn) else Flatten(els)) + k, s[..|s| - 1])
  {
    hide *;
    var p := If(negated, thn, Else(els, NoElse), Done);
    TwoBranches(thn, els, k, negated);
    OneElseBody(els);
    BranchesAre(thn, Else(els, NoElse), k, negated);
    RunConditional(ops, p, k, s);
  }

  lemma BranchesAre(thn: Prog, elses: Elses, k: seq<Command>, negated: bool)
    requires WellFormed(thn) && WellFormedElses(elses)
    ensures WellFormed(If(negated, thn, elses, Done)) && Flatten(Done) + k == k
  {
  }

  lemma OneElseBody(els: Prog)
    ensures ElseBodies(Else(els, NoElse)) == Flatten(els) && ElseBodies(NoElse) == []
    ensures WellFormed(els) ==> WellFormedElses(Else(els, NoElse))
    ensures WellFormedElses(NoElse)
  {
    assert ElseBodies(NoElse) == [] && Flatten(els) + [] == Flatten(els);
  }

  lemma TwoBranches(thn: Prog, els: Prog, k: seq<Command>, negated: bool)
    ensures Flatten(If(negated, thn, Else(els, NoElse), Done)) + k
            == [Opening(negated)] + Flatten(thn) + [Op(103)] + Flatten(els) + [Op(104)] + k
  {
    var p := If(negated, thn, Else(els, NoElse), Done);
    FlattenIf(p, k);
    assert FlattenElses(Else(els, NoElse)) == [Op(103)] + Flatten(els);
    assert Flatten(Done) + k == k;
    JoinSix([Opening(negated)], Flatten(thn), [Op(103)], Flatten(els), [Op(104)], k);
  }

  lemma JoinSix<T>(a: seq<T>, b: seq<T>, c: seq<T>, d: seq<T>, e: seq<T>, k: seq<T>)
    ensures a + (b + ((c + d) + (e + k))) == a + b + c + d + e + k
  {
  }

  /** Without opcode 103, a string that does not hold skips to behind opcode 104. */
  lemma BranchSkipped(ops: OpTable, thn: Prog, k: seq<Command>, s: seq<Bytes>, e: Bytes)
    requires WellFormed(thn)
    ensures RunFlat(ops, [Op(99)] + Flatten(thn) + [Op(104)] + k, s + [e])
            == RunFlat(ops, (if IsZeroString(e) then [] else Flatten(thn)) + k, s)
    ensures RunFlat(ops, [Op(100)] + Flatten(thn) + [Op(104)] + k, s + [e])
            == RunFlat(ops, (if IsZeroString(e) then Flatten(thn) else []) + k, s)
  {
    FalseIffZeroString(e);
    assert (s + [e])[..|s|] == s;
    SkipOf(ops, thn, k, s + [e], false);
    SkipOf(ops, thn, k, s + [e], true);
  }

  lemma SkipOf(ops: OpTable, thn: Prog, k: seq<Command>, s: seq<Bytes>, negated: bool)
    requires WellFormed(thn) && s != []
    ensures RunFlat(ops, [Opening(negated)] + Flatten(thn) + [Op(104)] + k, s)
            == RunFlat(ops, (if Holds(s[|s| - 1], negated) then Flatten(thn) else []) + k, s[..|s| - 1])
  {
    hide *;
    var p := If(negated, thn, NoElse, Done);
    OneBranch(thn, k, negated);
    OneElseBody(thn);
    BranchesAre(thn, NoElse, k, negated);
    RunConditional(ops, p, k, s);
  }

  lemma OneBranch(thn: Prog, k: seq<Command>, negated: bool)
    ensures Flatten(If(negated, thn, NoElse, Done)) + k == [Opening(negated)] + Flatten(thn) + [Op(104)] + k
  {
    var p := If(negated, thn, NoElse, Done);
    FlattenIf(p, k);
    assert FlattenElses(NoElse) == [] && Flatten(Done) + k == k;
    JoinSix([Opening(negated)], Flatten(thn), [], [], [Op(104)], k);
    assert [Opening(negated)] + Flatten(thn) + [] + [] == [Opening(negated)] + Flatten(thn);
  }

  /** A list without the four opcodes, as a nested program. */
  function Straight(cs: seq<Command>): Prog {
    if cs == [] then Done else Do(cs[0], Straight(cs[1..]))
  }

  lemma {:induction false} StraightIs(cs: seq<Command>)
    requires forall i :: 0 <= i < |cs| ==> cs[i] !in {Op(99), Op(100), Op(103), Op(104)}
    ensures WellFormed(Straight(cs)) && Flatten(Straight(cs)) == cs
  {
    if cs != [] {
      StraightIs(cs[1..]);
    }
  }

  lemma {:induction false} NeverClosed(k: seq<Command>, depth: nat, b: Branches)
    requires depth >= 1 && Op(104) !in k
    ensures Scan(k, depth, b) == None
    decreases |k|
  {
    if k != [] {
      var put := b.Put([k[0]]);
      NeverClosed(k[1..], depth, if depth == 1 && k[0] == Op(103) then b.(inElse := true) else put);
      NeverClosed(k[1..], depth + 1, put);
    }
  }

  /** On an empty stack a conditional raises, and one that no opcode 104 closes makes the script false. For opcode 99 the
      second comes first. */
  lemma NoCondition(ops: OpTable, p: Prog, k: seq<Command>, s: seq<Bytes>)
    requires WellFormed(p) && p.If?
    ensures RunFlat(ops, Flatten(p) + k, []) == Raise
    ensures Op(104) !in k ==> RunFlat(ops, [Op(99)] + k, s) == Fail
    ensures Op(104) !in k ==> RunFlat(ops, [Op(100)] + k, s) == if s == [] then Raise else Fail
  {
    RunConditional(ops, p, k, []);
    if Op(104) !in k {
      NeverClosed(k, 1, NO_BRANCHES);
      assert ([Op(99)] + k)[1..] == k && ([Op(100)] + k)[1..] == k;
    }
  }

  /** OP_1 OP_IF OP_2 OP_ELSE OP_0 OP_ENDIF leaves 2. */
  lemma OneIfTwo(ops: OpTable)
    ensures RunFlat(ops, [Op(81), Op(99), Op(82), Op(103), Op(0), Op(104)], []) == Next([[2]])
  {
    hide *;
    var two, zero := [Op(82)], [Op(0)];
    var cond := [Op(99)] + two + [Op(103)] + zero + [Op(104)] + [];
    assert [Op(81), Op(99), Op(82), Op(103), Op(0), Op(104)] == [Op(81)] + cond;
    var none: seq<Bytes> := [];
    ConstantIsPushed(ops, 81, cond, none);
    assert none + [[81 - 80]] == [[1]];
    OneTakesFirst(ops, two, zero);
    ConstantIsPushed(ops, 82, [], none);
    assert none + [[82 - 80]] == [[2]];
    OperationRuns(ops, 200, [], [[2]]);
  }

  lemma OneIsTrue()
    ensures !IsZeroString([1])
  {
  }

  lemma OneTakesFirst(ops: OpTable, thn: seq<Command>, els: seq<Command>)
    requires |thn| == 1 && thn[0] !in {Op(99), Op(100), Op(103), Op(104)}
    requires |els| == 1 && els[0] !in {Op(99), Op(100), Op(103), Op(104)}
    ensures RunFlat(ops, [Op(99)] + thn + [Op(103)] + els + [Op(104)] + [], [[1]]) == RunFlat(ops, thn + [], [])
  {
    hide *;
    OneIsTrue();
    StraightIs(thn);
    StraightIs(els);
    var none: seq<Bytes> := [];
    assert none + [[1]] == [[1]];
    BranchTaken(ops, Straight(thn), Straight(els), [], none, [1]);
  }

  // ---------------------------------------------------------------- multisig on any stack

  /** `range(n)` has no elements for a negative number. */
  function Count(n: Bytes): nat {
    if DecodeNum(n) < 0 then 0 else DecodeNum(n)
  }

  lemma PopCountedAny(s: seq<Bytes>, xs: seq<Bytes>, n: Bytes)
    requires Count(n) == |xs|
    ensures PopCounted(s + xs + [n]) == Some((Reverse(xs), s))
  {
    hide DecodeNum;
    var all := s + xs + [n];
    assert all[..|all| - 1] == s + xs;
    assert (s + xs)[|s|..] == xs && (s + xs)[..|s|] == s;
  }

  /** Some key is left for a signature that does not parse, or that is not there because there are none; both are taken
      from the top. */
  ghost predicate RunsIntoError(parses: Bytes -> bool, v: (Bytes, Bytes) -> bool, sigs: seq<Bytes>, keys: seq<Bytes>) {
    && keys != []
    && (sigs == []
        || exists j :: 0 <= j < |sigs| && !parses(sigs[j]) && (forall i :: 0 <= i < j ==> parses(sigs[i]))
                       && Satisfies(v, sigs[..j], keys[..|keys| - 1]))
  }

  /** CHECKMULTISIG on any stack that holds as many keys and signatures as it announces: it raises only for the error
      above, takes one more item away if there is one, and pushes the byte 1 exactly when an assignment exists, else the
      empty string. */
  lemma MultisigAnswer(parses: Bytes -> bool, v: (Bytes, Bytes) -> bool,
                       under: seq<Bytes>, sigs: seq<Bytes>, m: Bytes, keys: seq<Bytes>, n: Bytes)
    requires Count(m) == |sigs| && Count(n) == |keys|
    ensures CheckMultisig(parses, v, under + sigs + [m] + keys + [n])
            == if RunsIntoError(parses, v, Reverse(sigs), Reverse(keys)) then None
               else Some((if under == [] then [] else under[..|under| - 1]) + [if Satisfies(v, sigs, keys) then [1] else []])
  {
    hide DecodeNum, CheckKeys, PopCounted, Satisfies, Count;
    PopCountedAny(under + sigs + [m], keys, n);
    PopCountedAny(under, sigs, m);
    CheckKeysMeaning(parses, v, Reverse(sigs), Reverse(keys));
    ReverseSatisfies(v, sigs, keys);
  }

  /** A stack that holds fewer makes it raise. */
  lemma MultisigNeedsItems(parses: Bytes -> bool, v: (Bytes, Bytes) -> bool, s: seq<Bytes>)
    requires var k := if s == [] then 0 else |s| - 1 - Count(s[|s| - 1]);
             k <= 0 || k - 1 < Count(s[k - 1])
    ensures CheckMultisig(parses, v, s) == None
  {
    hide DecodeNum, CheckKeys;
  }

  /** In `evaluate` it makes the script false when it raises, when no assignment exists, and when there is no redeem
      script to go on with. */
  lemma MultisigStepAnswer(parses: Bytes -> bool, v: (Bytes, Bytes) -> bool, redeemscript: Option<Bytes>,
                           under: seq<Bytes>, sigs: seq<Bytes>, m: Bytes, keys: seq<Bytes>, n: Bytes)
    requires Count(m) == |sigs| && Count(n) == |keys|
    ensures MultisigStep(parses, v, redeemscript, under + sigs + [m] + keys + [n])
            == if RunsIntoError(parses, v, Reverse(sigs), Reverse(keys)) || !Satisfies(v, sigs, keys) || redeemscript == None
               then Fail
               else Next((if under == [] then [] else under[..|under| - 1]) + [redeemscript.value])
  {
    hide DecodeNum, CheckMultisig, Satisfies, RunsIntoError, Count;
    MultisigAnswer(parses, v, under, sigs, m, keys, n);
  }
}
