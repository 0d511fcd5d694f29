/**
  Explicit models of the .NET character and string primitives the validators
  call: char.IsWhiteSpace, char.IsDigit, char.IsLetter,
  string.IsNullOrWhiteSpace, string.Trim and string.Length.

  IsWhiteSpace is the complete .NET list. IsDigit and IsLetter agree with
  .NET on every character up to U+00FF (ASCII and Latin-1, which holds the
  German umlauts and ß) and answer false above it.
*/
module DotNetText {
  import opened Wrappers

  /** char.IsWhiteSpace: the Unicode space, line and paragraph separators
      plus the controls U+0009..U+000D and U+0085. */
  predicate IsWhiteSpace(c: char) {
    || ('\t' <= c <= '\r')
    || c == ' '
    || c == '\U{85}'
    || c == '\U{A0}'
    || c == '\U{1680}'
    || ('\U{2000}' <= c <= '\U{200A}')
    || c == '\U{2028}'
    || c == '\U{2029}'
    || c == '\U{202F}'
    || c == '\U{205F}'
    || c == '\U{3000}'
  }

  /** char.IsDigit (decimal digits); in Latin-1 only '0'..'9' are decimal digits. */
  predicate IsDigit(c: char) {
    '0' <= c <= '9'
  }

  /** char.IsLetter restricted to Latin-1: the ASCII letters, ª, µ, º and the
      letters U+00C0..U+00FF except × (U+00D7) and ÷ (U+00F7). */
  predicate IsLetter(c: char) {
    || ('A' <= c <= 'Z')
    || ('a' <= c <= 'z')
    || c == '\U{AA}'
    || c == '\U{B5}'
    || c == '\U{BA}'
    || ('\U{C0}' <= c <= '\U{D6}')
    || ('\U{D8}' <= c <= '\U{F6}')
    || ('\U{F8}' <= c <= '\U{FF}')
  }

  /** s.Any(char.IsDigit) */
  predicate ContainsDigit(s: string) {
    exists i :: 0 <= i < |s| && IsDigit(s[i])
  }

  /** s.Any(char.IsLetter) */
  predicate ContainsLetter(s: string) {
    exists i :: 0 <= i < |s| && IsLetter(s[i])
  }

  predicate AllWhiteSpace(s: string) {
    forall i :: 0 <= i < |s| ==> IsWhiteSpace(s[i])
  }

  /** string.IsNullOrWhiteSpace */
  predicate IsNullOrWhiteSpace(s: Option<string>) {
    s.None? || AllWhiteSpace(s.value)
  }

  /** Every character of s is one that `drop` removes. */
  predicate AllDropped(s: string, drop: char -> bool) {
    forall i :: 0 <= i < |s| ==> drop(s[i])
  }

  /** The number of characters satisfying `drop` at the front of s. */
  function LeadingCount(s: string, drop: char -> bool): (n: nat)
    ensures n <= |s|
    ensures forall k :: 0 <= k < n ==> drop(s[k])
    ensures n == |s| || !drop(s[n])
  {
    if s != [] && drop(s[0]) then 1 + LeadingCount(s[1..], drop) else 0
  }

  /** The number of white-space characters at the front of s. */
  function LeadingWhiteSpace(s: string): nat {
    LeadingCount(s, IsWhiteSpace)
  }

  /** Removes the trailing characters satisfying `drop`: what is left is a
      prefix of s that does not end with such a character, and everything
      removed satisfies `drop`. */
  function TrimEndBy(s: string, drop: char -> bool): (r: string)
    ensures |r| <= |s| && r == s[..|r|]
    ensures forall k :: |r| <= k < |s| ==> drop(s[k])
    ensures r == [] || !drop(r[|r| - 1])
  {
    if s != [] && drop(s[|s| - 1]) then
      TrimEndBy(s[..|s| - 1], drop)
    else
      s
  }

  /** Removes the characters satisfying `drop` at both ends, the leading
      ones first: what is left starts after the leading run of such
      characters, is followed only by such characters, and neither starts
      nor ends with one. */
  function TrimBy(s: string, drop: char -> bool): (r: string)
    ensures var i := LeadingCount(s, drop);
            && i + |r| <= |s|
            && r == s[i..i + |r|]
            && (forall k :: i + |r| <= k < |s| ==> drop(s[k]))
    ensures r == [] || (!drop(r[0]) && !drop(r[|r| - 1]))
  {
    if s == [] then []
    else if drop(s[0]) then
      var r := TrimBy(s[1..], drop);
      assert forall k :: 1 + LeadingCount(s[1..], drop) + |r| <= k < |s| ==> s[k] == s[1..][k - 1];
      r
    else
      TrimEndBy(s, drop)
  }

  /** string.Trim(): strips char.IsWhiteSpace characters at both ends. */
  function Trim(s: string): string {
    TrimBy(s, IsWhiteSpace)
  }

  /** Removing droppable characters from the end of a string that does not
      end with one leaves it as it is, and a droppable suffix is removed
      completely. */
  lemma {:induction false} TrimEndPadded(t: string, w: string, drop: char -> bool)
    requires AllDropped(w, drop)
    requires t == [] || !drop(t[|t| - 1])
    ensures TrimEndBy(t + w, drop) == t
    decreases |w|
  {
    if w != [] {
      assert (t + w)[..|t + w| - 1] == t + w[..|w| - 1];
      TrimEndPadded(t, w[..|w| - 1], drop);
    } else {
      assert t + w == t;
    }
  }

  /** TrimBy removes exactly the droppable padding around text that neither
      starts nor ends with a droppable character. */
  lemma {:induction false} TrimByPadded(w1: string, t: string, w2: string, drop: char -> bool)
    requires AllDropped(w1, drop) && AllDropped(w2, drop)
    requires t != [] && !drop(t[0]) && !drop(t[|t| - 1])
    ensures TrimBy(w1 + t + w2, drop) == t
    decreases |w1|
  {
    if w1 == [] {
      assert w1 + t + w2 == t + w2;
      TrimEndPadded(t, w2, drop);
    } else {
      assert (w1 + t + w2)[1..] == w1[1..] + t + w2;
      TrimByPadded(w1[1..], t, w2, drop);
    }
  }

  /** A character that `drop` does not remove survives TrimBy, at the
      position shifted by the number of characters removed in front. */
  lemma TrimByKeeps(s: string, drop: char -> bool, i: nat)
    requires i < |s| && !drop(s[i])
    ensures var a := LeadingCount(s, drop);
            a <= i < a + |TrimBy(s, drop)| && TrimBy(s, drop)[i - a] == s[i]
  {
    var a := LeadingCount(s, drop);
    var r := TrimBy(s, drop);
    KeptInSlice(s, a, |r|, drop, i);
  }

  /** A non-droppable character at i of s, with droppable characters before
      a and from a + n on, lies in s[a..a + n]. */
  lemma KeptInSlice(s: string, a: nat, n: nat, drop: char -> bool, i: nat)
    requires a + n <= |s| && i < |s| && !drop(s[i])
    requires forall k :: 0 <= k < a ==> drop(s[k])
    requires forall k :: a + n <= k < |s| ==> drop(s[k])
    ensures a <= i < a + n && s[a..a + n][i - a] == s[i]
  {
  }

  /** string.Length: the number of UTF-16 code units, so a character above
      U+FFFF (a surrogate pair) counts twice. */
  function Utf16Length(s: string): (n: nat)
    ensures |s| <= n <= 2 * |s|
  {
    if s == [] then 0
    else Utf16Length(s[..|s| - 1]) + (if s[|s| - 1] as int > 0xFFFF then 2 else 1)
  }

  predicate InBasicPlane(s: string) {
    forall i :: 0 <= i < |s| ==> s[i] as int <= 0xFFFF
  }

  /** On text without supplementary characters string.Length is the number of characters. */
  lemma {:induction false} Utf16LengthBasicPlane(s: string)
    requires InBasicPlane(s)
    ensures Utf16Length(s) == |s|
  {
    if s != [] {
      Utf16LengthBasicPlane(s[..|s| - 1]);
    }
  }
}
