/** The string library calls the calculator uses on single characters:
    `str.count`, `str.rstrip` and the substring test `"**" in s`. */
module Text {

  /** `s.count(c)` */
  function Count(s: string, c: char): (n: nat)
    ensures n <= |s|
    ensures n == 0 <==> c !in s
  {
    if s == [] then 0 else (if s[0] == c then 1 else 0) + Count(s[1..], c)
  }

  lemma {:induction false} CountConcat(a: string, b: string, c: char)
    ensures Count(a + b, c) == Count(a, c) + Count(b, c)
  {
    if a != [] {
      assert (a + b)[1..] == a[1..] + b;
      CountConcat(a[1..], b, c);
    } else {
      assert a + b == b;
    }
  }

  /** The substring test `c + c in s`. */
  predicate HasPair(s: string, c: char)
    decreases |s|
  {
    |s| >= 2 && ((s[0] == c && s[1] == c) || HasPair(s[1..], c))
  }

  /** A pair at position `i`. */
  lemma {:induction false} PairAt(s: string, c: char, i: nat)
    requires i + 1 < |s| && s[i] == c && s[i + 1] == c
    ensures HasPair(s, c)
    decreases i
  {
    if i > 0 {
      PairAt(s[1..], c, i - 1);
    }
  }

  lemma {:induction false} PairNeedsTwo(s: string, c: char)
    requires HasPair(s, c)
    ensures Count(s, c) >= 2
    decreases |s|
  {
    if !(s[0] == c && s[1] == c) {
      PairNeedsTwo(s[1..], c);
    } else {
      assert s[1..][0] == c;
    }
  }

  /** `s.rstrip(c)` for a single character `c`. */
  function RStrip(s: string, c: char): (t: string)
    ensures |t| <= |s| && t == s[..|t|]
    ensures t == [] || t[|t| - 1] != c
    ensures forall i | |t| <= i < |s| :: s[i] == c
  {
    if s != [] && s[|s| - 1] == c then RStrip(s[..|s| - 1], c) else s
  }

  /** The length of the longest prefix of `s` made only of characters other than `stops`. */
  function RunAvoiding(s: string, stops: set<char>): (n: nat)
    ensures n <= |s|
    ensures forall i | 0 <= i < n :: s[i] !in stops
    ensures n < |s| ==> s[n] in stops
  {
    if s != [] && s[0] !in stops then 1 + RunAvoiding(s[1..], stops) else 0
  }

  /** Concatenation regrouped: a part of a sum written as one variable. */
  lemma Regroup(a: string, b: string, c: string, d: string, e: string, t: string)
    ensures a + (b + c + d) + e + t == a + b + c + d + e + t
    ensures a + (b + c + d) + t == a + b + c + d + t
    ensures a + (b + c + d) == a + b + c + d
  {
  }
}
