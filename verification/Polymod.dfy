/** The checksum of Bech32 and Bech32m (BIP 173, section "Bech32", and BIP 350).
  *
  * `_bech32_polymod` is a linear feedback shift register over 30 bits. It is proved linear over
  * exclusive or for sequences of any length, its feedback is proved injective, and from the two it
  * follows that no change confined to six consecutive symbols goes unnoticed.
  */
module Polymod {

  /** A state of the register; a symbol is a state below 32. */
  type State = bv30

  function Xor(a: State, b: State): State {
    a ^ b
  }

  /** The table `generator`. */
  const GENERATOR: seq<State> := [0x3b6a57b2, 0x26508e6d, 0x1ea119fa, 0x3d4233dd, 0x2a1462b3]

  /** What the first `n` rounds of the inner loop add; bit `25 + i` of the state selects generator i. */
  function Taps(chk: State, n: nat): State
    requires n <= 5
  {
    match n
    case 0 => 0
    case 1 => (if (chk >> 25) & 1 != 0 then 0x3b6a57b2 else 0)
    case 2 => (if (chk >> 25) & 1 != 0 then 0x3b6a57b2 else 0) ^ (if (chk >> 26) & 1 != 0 then 0x26508e6d else 0)
    case 3 => (if (chk >> 25) & 1 != 0 then 0x3b6a57b2 else 0) ^ (if (chk >> 26) & 1 != 0 then 0x26508e6d else 0)
              ^ (if (chk >> 27) & 1 != 0 then 0x1ea119fa else 0)
    case 4 => (if (chk >> 25) & 1 != 0 then 0x3b6a57b2 else 0) ^ (if (chk >> 26) & 1 != 0 then 0x26508e6d else 0)
              ^ (if (chk >> 27) & 1 != 0 then 0x1ea119fa else 0) ^ (if (chk >> 28) & 1 != 0 then 0x3d4233dd else 0)
    case 5 => AllTaps(chk)
  }

  function AllTaps(chk: State): State {
    (if (chk >> 25) & 1 != 0 then 0x3b6a57b2 else 0) ^ (if (chk >> 26) & 1 != 0 then 0x26508e6d else 0)
    ^ (if (chk >> 27) & 1 != 0 then 0x1ea119fa else 0) ^ (if (chk >> 28) & 1 != 0 then 0x3d4233dd else 0)
    ^ (if (chk >> 29) & 1 != 0 then 0x2a1462b3 else 0)
  }

  /** `(chk & 0x1ffffff) << 5`. */
  function Shift(chk: State): State {
    (chk & 0x1ffffff) << 5
  }

  /** One value of the outer loop, leaving out the value itself. */
  function Feedback(chk: State): State {
    Xor(Shift(chk), AllTaps(chk))
  }

  /** The outer loop from a given state on. */
  function Feed(chk: State, symbols: seq<State>): State
    decreases |symbols|
  {
    if symbols == [] then chk else Feed(Xor(Feedback(chk), symbols[0]), symbols[1..])
  }

  predicate IsSymbols(values: seq<nat>) {
    forall i :: 0 <= i < |values| ==> values[i] < 32
  }

  function Symbol(v: nat): State
    requires v < 32
  {
    v as State
  }

  function Symbols(values: seq<nat>): (s: seq<State>)
    requires IsSymbols(values)
    ensures |s| == |values| && forall i :: 0 <= i < |s| ==> s[i] == Symbol(values[i])
  {
    seq(|values|, i requires 0 <= i < |values| => Symbol(values[i]))
  }

  function Checksum(values: seq<nat>): State
    requires IsSymbols(values)
  {
    Feed(1, Symbols(values))
  }

  // ---------------------------------------------------------------- the loops

  lemma TapsStep0(chk: State)
    ensures Taps(chk, 1) == Xor(Taps(chk, 0), if (chk >> 25) & 1 != 0 then 0x3b6a57b2 else 0)
  {
  }

  lemma TapsStep1(chk: State)
    ensures Taps(chk, 2) == Xor(Taps(chk, 1), if (chk >> 26) & 1 != 0 then 0x26508e6d else 0)
  {
  }

  lemma TapsStep2(chk: State)
    ensures Taps(chk, 3) == Xor(Taps(chk, 2), if (chk >> 27) & 1 != 0 then 0x1ea119fa else 0)
  {
  }

  lemma TapsStep3(chk: State)
    ensures Taps(chk, 4) == Xor(Taps(chk, 3), if (chk >> 28) & 1 != 0 then 0x3d4233dd else 0)
  {
  }

  lemma TapsStep4(chk: State)
    ensures Taps(chk, 5) == Xor(Taps(chk, 4), if (chk >> 29) & 1 != 0 then 0x2a1462b3 else 0)
  {
  }

  lemma TopBits(chk: State, i: nat)
    requires i < 5
    ensures i == 0 ==> ((chk >> 25) >> i) & 1 == (chk >> 25) & 1
    ensures i == 1 ==> ((chk >> 25) >> i) & 1 == (chk >> 26) & 1
    ensures i == 2 ==> ((chk >> 25) >> i) & 1 == (chk >> 27) & 1
    ensures i == 3 ==> ((chk >> 25) >> i) & 1 == (chk >> 28) & 1
    ensures i == 4 ==> ((chk >> 25) >> i) & 1 == (chk >> 29) & 1
  {
    if i == 0 {
    } else if i == 1 {
    } else if i == 2 {
    } else if i == 3 {
    } else {
    }
  }

  lemma TapsStep(chk: State, i: nat)
    requires i < 5
    ensures Taps(chk, i + 1) == Xor(Taps(chk, i), if ((chk >> 25) >> i) & 1 != 0 then GENERATOR[i] else 0)
  {
    hide Taps, Xor;
    TopBits(chk, i);
    if i == 0 {
      TapsStep0(chk);
    } else if i == 1 {
      TapsStep1(chk);
    } else if i == 2 {
      TapsStep2(chk);
    } else if i == 3 {
      TapsStep3(chk);
    } else {
      TapsStep4(chk);
    }
  }

  lemma XorAssociative(a: State, b: State, c: State)
    ensures Xor(Xor(a, b), c) == Xor(a, Xor(b, c))
  {
  }

  lemma XorCommutative(a: State, b: State)
    ensures Xor(a, b) == Xor(b, a)
  {
  }

  lemma XorOfZero(a: State)
    ensures Xor(a, 0) == a
  {
  }

  /** One value of the outer loop. */
  method Round(before: State, value: State) returns (chk: State)
    ensures chk == Xor(Feedback(before), value)
  {
    hide Xor, Shift, Taps, AllTaps;
    var top := before >> 25;
    var shifted := Shift(before);
    chk := Xor(shifted, value);
    NoTaps(before);
    XorOfZero(chk);
    for i := 0 to 5
      invariant chk == Xor(Xor(shifted, value), Taps(before, i))
    {
      TapsStep(before, i);
      var tap := if (top >> i) & 1 != 0 then GENERATOR[i] else 0;
      XorAssociative(Xor(shifted, value), Taps(before, i), tap);
      chk := Xor(chk, tap);
    }
    XorAssociative(shifted, value, AllTaps(before));
    XorCommutative(value, AllTaps(before));
    XorAssociative(shifted, AllTaps(before), value);
  }

  lemma NoTaps(chk: State)
    ensures Taps(chk, 0) == 0 && Taps(chk, 5) == AllTaps(chk)
  {
  }

  /** `_bech32_polymod`. */
  method PolymodLoop(values: seq<nat>) returns (chk: State)
    requires IsSymbols(values)
    ensures chk == Checksum(values)
  {
    hide Feedback, Xor, Symbol;
    chk := 1;
    assert Symbols(values)[0..] == Symbols(values);
    for k := 0 to |values|
      invariant Checksum(values) == Feed(chk, Symbols(values)[k..])
    {
      assert Symbols(values)[k..][1..] == Symbols(values)[k + 1..];
      chk := Round(chk, Symbol(values[k]));
    }
  }

  // ---------------------------------------------------------------- linearity

  lemma XorSwap(a: State, b: State, c: State, d: State)
    ensures Xor(Xor(a, b), Xor(c, d)) == Xor(Xor(a, c), Xor(b, d))
  {
    hide Xor;
    XorAssociative(a, b, Xor(c, d));
    XorAssociative(b, c, d);
    XorCommutative(b, c);
    XorAssociative(c, b, d);
    XorAssociative(a, c, Xor(b, d));
  }

  lemma ShiftLinear(a: State, b: State)
    ensures Shift(Xor(a, b)) == Xor(Shift(a), Shift(b))
  {
  }

  lemma AllTapsLinear(a: State, b: State)
    ensures AllTaps(Xor(a, b)) == Xor(AllTaps(a), AllTaps(b))
  {
  }

  lemma FeedbackLinear(a: State, b: State)
    ensures Feedback(Xor(a, b)) == Xor(Feedback(a), Feedback(b))
  {
    hide Xor, Shift, AllTaps;
    ShiftLinear(a, b);
    AllTapsLinear(a, b);
    XorSwap(Shift(a), Shift(b), AllTaps(a), AllTaps(b));
  }

  function XorAll(s: seq<State>, t: seq<State>): (r: seq<State>)
    requires |s| == |t|
    ensures |r| == |s| && forall i :: 0 <= i < |s| ==> r[i] == Xor(s[i], t[i])
  {
    seq(|s|, i requires 0 <= i < |s| => Xor(s[i], t[i]))
  }

  /** The checksum of an exclusive or is the exclusive or of the checksums, at every length. */
  lemma {:induction false} FeedLinear(a: State, b: State, s: seq<State>, t: seq<State>)
    requires |s| == |t|
    ensures Feed(Xor(a, b), XorAll(s, t)) == Xor(Feed(a, s), Feed(b, t))
    decreases |s|
  {
    hide Feedback, Xor;
    if s != [] {
      var x, y := s[0], t[0];
      FeedbackLinear(a, b);
      XorSwap(Feedback(a), Feedback(b), x, y);
      assert XorAll(s, t)[1..] == XorAll(s[1..], t[1..]);
      FeedLinear(Xor(Feedback(a), x), Xor(Feedback(b), y), s[1..], t[1..]);
    }
  }

  lemma {:induction false} FeedConcat(chk: State, s: seq<State>, t: seq<State>)
    ensures Feed(chk, s + t) == Feed(Feed(chk, s), t)
    decreases |s|
  {
    hide Feedback, Xor;
    if s == [] {
      assert s + t == t;
    } else {
      assert (s + t)[1..] == s[1..] + t;
      FeedConcat(Xor(Feedback(chk), s[0]), s[1..], t);
    }
  }

  // ---------------------------------------------------------------- error detection

  /** The zero word comes from the zero word only; without top bits a word is just shifted. */
  lemma FeedbackBits(a: State)
    ensures Feedback(a) == 0 ==> a == 0
    ensures a <= 0x1ffffff ==> Feedback(a) == a << 5
  {
  }

  lemma XorBack(a: State, b: State)
    ensures Xor(a, Xor(a, b)) == b
  {
  }

  lemma XorSelf(a: State)
    ensures Xor(a, a) == 0
  {
  }

  lemma XorZero(a: State, b: State)
    ensures Xor(a, b) == 0 <==> a == b
  {
    hide Xor;
    XorSelf(a);
    XorOfZero(a);
    XorBack(a, b);
  }

  /** The feedback loses no information. */
  lemma FeedbackInjective(a: State, b: State)
    requires Feedback(a) == Feedback(b)
    ensures a == b
  {
    hide Feedback, Xor;
    FeedbackLinear(a, b);
    XorZero(Feedback(a), Feedback(b));
    FeedbackBits(Xor(a, b));
    XorZero(a, b);
  }

  lemma XorCancel(a: State, b: State, x: State)
    ensures Xor(a, x) == Xor(b, x) <==> a == b
  {
  }

  /** States that differ keep differing while the same symbols follow. */
  lemma {:induction false} FeedInjective(a: State, b: State, s: seq<State>)
    requires Feed(a, s) == Feed(b, s)
    ensures a == b
    decreases |s|
  {
    hide Feedback, Xor;
    if s != [] {
      FeedInjective(Xor(Feedback(a), s[0]), Xor(Feedback(b), s[0]), s[1..]);
      XorCancel(Feedback(a), Feedback(b), s[0]);
      FeedbackInjective(a, b);
    }
  }

  /** A packed state: at most `n` symbols have been shifted in. */
  predicate Packed(a: State, n: nat) {
    match n
    case 0 => a == 0
    case 1 => a <= 0x1f
    case 2 => a <= 0x3ff
    case 3 => a <= 0x7fff
    case 4 => a <= 0xfffff
    case 5 => a <= 0x1ffffff
    case _ => true
  }

  /** Without feedback the register just packs the symbols, so it forgets none of them. */
  lemma PackStep(a: State, x: State, n: nat)
    requires n < 6 && Packed(a, n) && x <= 31
    ensures Packed(Xor(Feedback(a), x), n + 1)
    ensures Xor(Feedback(a), x) == 0 <==> a == 0 && x == 0
  {
    hide Feedback;
    FeedbackBits(a);
    if n == 0 {
    } else if n == 1 {
    } else if n == 2 {
    } else if n == 3 {
    } else if n == 4 {
    } else {
    }
  }

  /** From a packed state, symbols lead to the zero state exactly when the state and all of them are
      zero, as long as they fit. */
  lemma {:induction false} PackAll(a: State, s: seq<State>, n: nat)
    requires n + |s| <= 6 && Packed(a, n) && forall i :: 0 <= i < |s| ==> s[i] <= 31
    ensures Feed(a, s) == 0 <==> a == 0 && forall i :: 0 <= i < |s| ==> s[i] == 0
    decreases |s|
  {
    hide Feedback, Xor, Packed;
    if s != [] {
      PackStep(a, s[0], n);
      PackAll(Xor(Feedback(a), s[0]), s[1..], n + 1);
      assert forall i :: 1 <= i < |s| ==> s[i] == s[1..][i - 1];
    }
  }

  lemma SymbolXor(x: nat, y: nat)
    requires x < 32 && y < 32
    ensures Xor(Symbol(x), Symbol(y)) <= 31
    ensures Xor(Symbol(x), Symbol(y)) == 0 ==> x == y
  {
    SymbolSmall(x);
    SymbolSmall(y);
    var a, b := Symbol(x), Symbol(y);
    hide Symbol;
    SmallXor(a, b);
  }

  lemma SymbolSmall(x: nat)
    requires x < 32
    ensures Symbol(x) <= 31 && Symbol(x) as nat == x
  {
    SymbolBack(x);
    SymbolBound(x);
  }

  lemma SymbolBack(x: nat)
    requires x < 32
    ensures Symbol(x) as nat == x
  {
  }

  lemma SymbolBound(x: nat)
    requires x < 32
    ensures Symbol(x) <= 31
  {
  }

  lemma SmallXor(a: State, b: State)
    requires a <= 31 && b <= 31
    ensures Xor(a, b) <= 31 && (Xor(a, b) == 0 ==> a == b)
  {
  }

  /** Six symbols from the same state lead to different states unless they are the same. */
  lemma SixSymbols(c: State, s: seq<nat>, t: seq<nat>)
    requires |s| == |t| <= 6 && IsSymbols(s) && IsSymbols(t)
    requires Feed(c, Symbols(s)) == Feed(c, Symbols(t))
    ensures s == t
  {
    hide Feed, Xor, Symbol;
    var a, b := Symbols(s), Symbols(t);
    FeedLinear(c, c, a, b);
    XorZero(Feed(c, a), Feed(c, b));
    XorZero(c, c);
    assert Packed(0, 0);
    forall i | 0 <= i < |s| ensures XorAll(a, b)[i] <= 31 && (XorAll(a, b)[i] == 0 ==> s[i] == t[i]) {
      SymbolXor(s[i], t[i]);
    }
    PackAll(0, XorAll(a, b), 0);
  }

  lemma SymbolsConcat(s: seq<nat>, t: seq<nat>)
    requires IsSymbols(s) && IsSymbols(t)
    ensures IsSymbols(s + t) && Symbols(s + t) == Symbols(s) + Symbols(t)
  {
  }

  /** Two sequences that differ, but only inside at most six consecutive symbols, have different
      checksums. */
  lemma BurstChangesChecksum(p: seq<nat>, s: seq<nat>, t: seq<nat>, q: seq<nat>)
    requires IsSymbols(p) && IsSymbols(s) && IsSymbols(t) && IsSymbols(q)
    requires |s| == |t| <= 6 && s != t
    ensures IsSymbols(p + s + q) && IsSymbols(p + t + q)
    ensures Checksum(p + s + q) != Checksum(p + t + q)
  {
    hide Feed, Symbol;
    var c := Feed(1, Symbols(p));
    forall w | w == s || w == t
      ensures IsSymbols(w) && IsSymbols(p + w + q)
      ensures Checksum(p + w + q) == Feed(Feed(c, Symbols(w)), Symbols(q))
    {
      SymbolsConcat(p, w);
      SymbolsConcat(p + w, q);
      FeedConcat(1, Symbols(p + w), Symbols(q));
      FeedConcat(1, Symbols(p), Symbols(w));
    }
    if Checksum(p + s + q) == Checksum(p + t + q) {
      FeedInjective(Feed(c, Symbols(s)), Feed(c, Symbols(t)), Symbols(q));
      SixSymbols(c, s, t);
    }
  }
}
