/**
  The house-number pattern of EntryChecker.IsHouseNo,

      ^([0-9]*[-]?[a-zA-Z]*?)*$

  matched with RegexOptions.IgnoreCase.

  RegexIsMatch follows the shape of the expression: any number of groups,
  each some digits, an optional hyphen and some letters. The lazy `*?`
  changes which match is found first, not whether one exists, and IgnoreCase
  adds no character below U+0100 to [a-zA-Z]. Because a group of one
  character is always possible, the repetition collapses to a character
  class: IsMatch, the recogniser the validators use, only asks that every
  character be a digit, an ASCII letter or a hyphen. As for every `$`
  without RegexOptions.Multiline, a final line feed is also admitted.
*/
module HouseNoPattern {

  /** [0-9] */
  predicate IsAsciiDigit(c: char) {
    '0' <= c <= '9'
  }

  /** [a-zA-Z] */
  predicate IsAsciiLetter(c: char) {
    ('a' <= c <= 'z') || ('A' <= c <= 'Z')
  }

  predicate IsHouseNoChar(c: char) {
    IsAsciiDigit(c) || c == '-' || IsAsciiLetter(c)
  }

  // ---------------------------------------------------------------------
  // The regular expression, as a language

  /** g splits at a and b into [0-9]*, [-]? and [a-zA-Z]*?. */
  ghost predicate GroupAt(g: string, a: nat, b: nat) {
    && a <= b <= |g|
    && (forall i :: 0 <= i < a ==> IsAsciiDigit(g[i]))
    && (g[a..b] == [] || g[a..b] == "-")
    && (forall i :: b <= i < |g| ==> IsAsciiLetter(g[i]))
  }

  /** ([0-9]*[-]?[a-zA-Z]*?) */
  ghost predicate Group(g: string) {
    exists a: nat, b: nat :: GroupAt(g, a, b)
  }

  /** (...)* : an iteration that matches nothing adds nothing to the
      language, so only iterations that consume a character are counted. */
  ghost predicate Groups(s: string)
    decreases |s|
  {
    s == [] || exists k :: 0 < k <= |s| && Group(s[..k]) && Groups(s[k..])
  }

  /** Regex.IsMatch for the anchored expression. */
  ghost predicate RegexIsMatch(s: string) {
    Groups(s) || (|s| > 0 && s[|s| - 1] == '\n' && Groups(s[..|s| - 1]))
  }

  // ---------------------------------------------------------------------
  // The recogniser

  predicate AllHouseNoChars(s: string) {
    forall i :: 0 <= i < |s| ==> IsHouseNoChar(s[i])
  }

  predicate IsMatch(s: string) {
    AllHouseNoChars(s) || (|s| > 0 && s[|s| - 1] == '\n' && AllHouseNoChars(s[..|s| - 1]))
  }

  lemma GroupChars(g: string)
    requires Group(g)
    ensures AllHouseNoChars(g)
  {
    var a: nat, b: nat :| GroupAt(g, a, b);
    forall i | a <= i < b
      ensures g[i] == '-'
    {
      assert g[i] == g[a..b][i - a];
    }
  }

  lemma {:induction false} GroupsChars(s: string)
    requires Groups(s)
    ensures AllHouseNoChars(s)
    decreases |s|
  {
    if s != [] {
      var k :| 0 < k <= |s| && Group(s[..k]) && Groups(s[k..]);
      GroupChars(s[..k]);
      GroupsChars(s[k..]);
      forall i | 0 <= i < |s|
        ensures IsHouseNoChar(s[i])
      {
        if i < k {
          assert s[i] == s[..k][i];
        } else {
          assert s[i] == s[k..][i - k];
        }
      }
    }
  }

  /** Every character the class admits is a group on its own. */
  lemma SingleCharGroup(c: char)
    requires IsHouseNoChar(c)
    ensures Group([c])
  {
    if IsAsciiDigit(c) {
      assert GroupAt([c], 1, 1);
    } else if c == '-' {
      assert GroupAt([c], 0, 1);
    } else {
      assert GroupAt([c], 0, 0);
    }
  }

  lemma {:induction false} CharsGroups(s: string)
    requires AllHouseNoChars(s)
    ensures Groups(s)
    decreases |s|
  {
    if s != [] {
      SingleCharGroup(s[0]);
      assert s[..1] == [s[0]];
      assert AllHouseNoChars(s[1..]);
      CharsGroups(s[1..]);
    }
  }

  /** The repeated group describes exactly the strings over the class. */
  lemma GroupsIffAllHouseNoChars(s: string)
    ensures Groups(s) <==> AllHouseNoChars(s)
  {
    if Groups(s) {
      GroupsChars(s);
    }
    if AllHouseNoChars(s) {
      CharsGroups(s);
    }
  }

  /** The recogniser gives the same answer as Regex.IsMatch on every string. */
  lemma IsMatchIffRegexIsMatch(s: string)
    ensures IsMatch(s) <==> RegexIsMatch(s)
  {
    GroupsIffAllHouseNoChars(s);
    if |s| > 0 {
      GroupsIffAllHouseNoChars(s[..|s| - 1]);
    }
  }
}
