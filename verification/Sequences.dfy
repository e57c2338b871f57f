/** Sequences and strings as Python slices and searches them. */
module Sequences {

  /** `s[::-1]`. */
  function Reverse<T>(s: seq<T>): (r: seq<T>)
    ensures |r| == |s| && forall i :: 0 <= i < |s| ==> r[i] == s[|s| - 1 - i]
  {
    seq(|s|, i requires 0 <= i < |s| => s[|s| - 1 - i])
  }

  lemma ReverseTwice<T>(s: seq<T>)
    ensures Reverse(Reverse(s)) == s
  {
  }

  lemma Associate<T>(a: seq<T>, b: seq<T>, c: seq<T>)
    ensures a + b + c == a + (b + c)
  {
  }

  /** `cs.index(c)` from a position on; the length of `cs` when it raises. */
  function IndexFrom(cs: string, c: char, i: nat): (r: nat)
    requires i <= |cs|
    ensures i <= r <= |cs|
    ensures r < |cs| ==> cs[r] == c
    ensures forall j :: i <= j < r ==> cs[j] != c
    decreases |cs| - i
  {
    if i == |cs| || cs[i] == c then i else IndexFrom(cs, c, i + 1)
  }

  /** `lower` of one character. */
  function LowerChar(c: char): char {
    if 'A' <= c <= 'Z' then ((c as int) + 32) as char else c
  }
}
