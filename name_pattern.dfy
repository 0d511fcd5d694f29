/**
  The name pattern of EntryChecker.IsName and EntryChecker.IsNameOrEmpty,

      ^([A-Za-zöüäÖÜÄ]+([ ]?[a-zöüäß]?['-]?[A-Za-zöüäÖÜÄ]+)*)$

  matched with RegexOptions.IgnoreCase.

  Two definitions are given. RegexIsMatch follows the shape of the regular
  expression: a word, then any number of groups, each an optional space, an
  optional infix letter, an optional apostrophe or hyphen and a word. IsMatch
  is a hand-written left-to-right scanner with six states, the recogniser
  the validators use. IsMatchIffRegexIsMatch proves that the two agree on
  every string.

  Character classes under IgnoreCase: [A-Za-zöüäÖÜÄ] already holds both cases
  of each of its letters; [a-zöüäß] gains the upper-case letters and so
  becomes the word letters plus ß (the capital ẞ, U+1E9E, is not modelled).

  In .NET, `$` without RegexOptions.Multiline also matches just before a
  final line feed, so "Anna\n" matches.
*/
module NamePattern {

  /** [A-Za-zöüäÖÜÄ] */
  predicate IsWordLetter(c: char) {
    || ('A' <= c <= 'Z')
    || ('a' <= c <= 'z')
    || c == 'ä' || c == 'ö' || c == 'ü'
    || c == 'Ä' || c == 'Ö' || c == 'Ü'
  }

  /** [a-zöüäß] under IgnoreCase */
  predicate IsInfixLetter(c: char) {
    IsWordLetter(c) || c == 'ß'
  }

  /** ['-] */
  predicate IsMark(c: char) {
    c == '\'' || c == '-'
  }

  // ---------------------------------------------------------------------
  // The regular expression, as a language

  /** [A-Za-zöüäÖÜÄ]+ */
  ghost predicate Word(w: string) {
    |w| > 0 && forall i :: 0 <= i < |w| ==> IsWordLetter(w[i])
  }

  /** [ ]? */
  ghost predicate OptionalSpace(x: string) {
    x == [] || x == [' ']
  }

  /** [a-zöüäß]? */
  ghost predicate OptionalInfix(x: string) {
    x == [] || (|x| == 1 && IsInfixLetter(x[0]))
  }

  /** ['-]? */
  ghost predicate OptionalMark(x: string) {
    x == [] || (|x| == 1 && IsMark(x[0]))
  }

  /** g splits at a, b and c into the four parts of one group. */
  ghost predicate GroupAt(g: string, a: nat, b: nat, c: nat) {
    && a <= b <= c <= |g|
    && OptionalSpace(g[..a])
    && OptionalInfix(g[a..b])
    && OptionalMark(g[b..c])
    && Word(g[c..])
  }

  /** ([ ]?[a-zöüäß]?['-]?[A-Za-zöüäÖÜÄ]+) */
  ghost predicate Group(g: string) {
    exists a: nat, b: nat, c: nat :: GroupAt(g, a, b, c)
  }

  /** (...)* : a group never matches the empty string, so every iteration
      consumes at least one character. */
  ghost predicate Groups(s: string)
    decreases |s|
  {
    s == [] || exists k :: 0 < k <= |s| && Group(s[..k]) && Groups(s[k..])
  }

  /** The whole expression between the anchors. */
  ghost predicate Pattern(s: string) {
    exists k :: 0 < k <= |s| && Word(s[..k]) && Groups(s[k..])
  }

  /** Regex.IsMatch for the anchored expression: `$` matches at the end or
      just before a final line feed. */
  ghost predicate RegexIsMatch(s: string) {
    Pattern(s) || (|s| > 0 && s[|s| - 1] == '\n' && Pattern(s[..|s| - 1]))
  }

  // ---------------------------------------------------------------------
  // The recogniser

  /** Start: nothing read; InWord: inside a word (the only accepting state);
      AfterSpace, AfterInfix, AfterMark: inside the separator of a group,
      after its space, its infix letter ß, or its apostrophe or hyphen. */
  datatype ScanState = Start | InWord | AfterSpace | AfterInfix | AfterMark | Failed

  function Step(q: ScanState, c: char): ScanState {
    match q
    case Start =>
      if IsWordLetter(c) then InWord else Failed
    case InWord =>
      if IsWordLetter(c) then InWord
      else if c == ' ' then AfterSpace
      else if c == 'ß' then AfterInfix
      else if IsMark(c) then AfterMark
      else Failed
    case AfterSpace =>
      if IsWordLetter(c) then InWord
      else if c == 'ß' then AfterInfix
      else if IsMark(c) then AfterMark
      else Failed
    case AfterInfix =>
      if IsWordLetter(c) then InWord
      else if IsMark(c) then AfterMark
      else Failed
    case AfterMark =>
      if IsWordLetter(c) then InWord else Failed
    case Failed =>
      Failed
  }

  /** The state reached from q after reading s; Failed is final. */
  function Scan(q: ScanState, s: string): ScanState
    decreases |s|
  {
    if s == [] || q == Failed then q else Scan(Step(q, s[0]), s[1..])
  }

  predicate Accepts(s: string) {
    Scan(Start, s) == InWord
  }

  /** The recogniser the validators use, with the same treatment of a final
      line feed as RegexIsMatch. */
  predicate IsMatch(s: string) {
    Accepts(s) || (|s| > 0 && s[|s| - 1] == '\n' && Accepts(s[..|s| - 1]))
  }

  // ---------------------------------------------------------------------
  // The recogniser agrees with the regular expression

  lemma {:induction false} ScanAppend(q: ScanState, a: string, b: string)
    ensures Scan(q, a + b) == Scan(Scan(q, a), b)
    decreases |a|
  {
    if a == [] {
      assert a + b == b;
    } else if q != Failed {
      assert (a + b)[1..] == a[1..] + b;
      ScanAppend(Step(q, a[0]), a[1..], b);
    }
  }

  /** A word read from any live state ends inside a word. */
  lemma {:induction false} ScanWord(q: ScanState, w: string)
    requires q != Failed && Word(w)
    ensures Scan(q, w) == InWord
    decreases |w|
  {
    if |w| > 1 {
      assert Word(w[1..]);
      ScanWord(InWord, w[1..]);
    }
  }

  /** The states in which the separator of a group may continue with an
      infix letter. */
  predicate BeforeInfix(q: ScanState) {
    q == InWord || q == AfterSpace
  }

  /** The states in which the separator of a group may continue with an
      apostrophe or hyphen. */
  predicate BeforeMark(q: ScanState) {
    q == InWord || q == AfterSpace || q == AfterInfix
  }

  lemma ScanOptionalSpace(x: string)
    requires OptionalSpace(x)
    ensures BeforeInfix(Scan(InWord, x))
  {
  }

  lemma ScanOptionalInfix(q: ScanState, x: string)
    requires BeforeInfix(q) && OptionalInfix(x)
    ensures BeforeMark(Scan(q, x))
  {
  }

  lemma ScanOptionalMark(q: ScanState, x: string)
    requires BeforeMark(q) && OptionalMark(x)
    ensures Scan(q, x) != Failed
  {
  }

  /** Reading one group from inside a word ends inside a word again. */
  lemma ScanGroup(g: string)
    requires Group(g)
    ensures Scan(InWord, g) == InWord
  {
    var a: nat, b: nat, c: nat :| GroupAt(g, a, b, c);
    ScanGroupAt(g, a, b, c);
  }

  lemma ScanGroupAt(g: string, a: nat, b: nat, c: nat)
    requires GroupAt(g, a, b, c)
    ensures Scan(InWord, g) == InWord
  {
    assert g == g[..a] + g[a..b] + g[b..c] + g[c..];
    ScanGroupParts(g[..a], g[a..b], g[b..c], g[c..]);
  }

  /** The four parts of a group read one after the other. */
  lemma ScanGroupParts(x: string, y: string, z: string, w: string)
    requires OptionalSpace(x) && OptionalInfix(y) && OptionalMark(z) && Word(w)
    ensures Scan(InWord, x + y + z + w) == InWord
  {
    assert x + y + z + w == x + (y + (z + w));
    ScanAppend(InWord, x, y + (z + w));
    ScanOptionalSpace(x);
    var q1 := Scan(InWord, x);
    ScanAppend(q1, y, z + w);
    ScanOptionalInfix(q1, y);
    var q2 := Scan(q1, y);
    ScanAppend(q2, z, w);
    ScanOptionalMark(q2, z);
    ScanWord(Scan(q2, z), w);
  }

  lemma {:induction false} ScanGroups(s: string)
    requires Groups(s)
    ensures Scan(InWord, s) == InWord
    decreases |s|
  {
    if s != [] {
      var k :| 0 < k <= |s| && Group(s[..k]) && Groups(s[k..]);
      assert s == s[..k] + s[k..];
      ScanAppend(InWord, s[..k], s[k..]);
      ScanGroup(s[..k]);
      ScanGroups(s[k..]);
    }
  }

  lemma PatternAccepted(s: string)
    requires Pattern(s)
    ensures Accepts(s)
  {
    var k :| 0 < k <= |s| && Word(s[..k]) && Groups(s[k..]);
    assert s == s[..k] + s[k..];
    ScanAppend(Start, s[..k], s[k..]);
    ScanWord(Start, s[..k]);
    ScanGroups(s[k..]);
  }

  /** Whenever the scanner is back inside a word after reading a non-empty
      s, s starts with a complete group (of at most four characters). */
  lemma FirstGroup(s: string) returns (k: nat)
    requires s != [] && Scan(InWord, s) == InWord
    ensures 0 < k <= |s| && Group(s[..k]) && Scan(InWord, s[k..]) == InWord
  {
    assert Scan(InWord, s) == Scan(Step(InWord, s[0]), s[1..]);
    if IsWordLetter(s[0]) {
      k := 1;
      assert GroupAt(s[..k], 0, 0, 0);
    } else if s[0] == ' ' {
      k := FirstGroupAfterSpace(s);
    } else if s[0] == 'ß' {
      assert Scan(AfterInfix, s[1..]) == Scan(Step(AfterInfix, s[1]), s[2..]);
      if IsWordLetter(s[1]) {
        k := 2;
        assert GroupAt(s[..k], 0, 1, 1);
      } else {
        assert Scan(AfterMark, s[2..]) == Scan(Step(AfterMark, s[2]), s[3..]);
        k := 3;
        assert GroupAt(s[..k], 0, 1, 2);
      }
    } else {
      assert Scan(AfterMark, s[1..]) == Scan(Step(AfterMark, s[1]), s[2..]);
      k := 2;
      assert GroupAt(s[..k], 0, 0, 1);
    }
  }

  /** FirstGroup for a group that starts with its space. */
  lemma FirstGroupAfterSpace(s: string) returns (k: nat)
    requires s != [] && s[0] == ' ' && Scan(InWord, s) == InWord
    ensures 0 < k <= |s| && Group(s[..k]) && Scan(InWord, s[k..]) == InWord
  {
    assert Scan(InWord, s) == Scan(Step(InWord, s[0]), s[1..]);
    assert Scan(AfterSpace, s[1..]) == Scan(Step(AfterSpace, s[1]), s[2..]);
    if IsWordLetter(s[1]) {
      k := 2;
      assert s[..k][..1] == [' '];
      assert GroupAt(s[..k], 1, 1, 1);
    } else if s[1] == 'ß' {
      assert Scan(AfterInfix, s[2..]) == Scan(Step(AfterInfix, s[2]), s[3..]);
      if IsWordLetter(s[2]) {
        k := 3;
        assert s[..k][..1] == [' '];
        assert GroupAt(s[..k], 1, 2, 2);
      } else {
        assert Scan(AfterMark, s[3..]) == Scan(Step(AfterMark, s[3]), s[4..]);
        k := 4;
        assert s[..k][..1] == [' '];
        assert GroupAt(s[..k], 1, 2, 3);
      }
    } else {
      assert Scan(AfterMark, s[2..]) == Scan(Step(AfterMark, s[2]), s[3..]);
      k := 3;
      assert s[..k][..1] == [' '];
      assert GroupAt(s[..k], 1, 1, 2);
    }
  }

  lemma {:induction false} GroupsFromInWord(s: string)
    requires Scan(InWord, s) == InWord
    ensures Groups(s)
    decreases |s|
  {
    if s != [] {
      var k := FirstGroup(s);
      GroupsFromInWord(s[k..]);
    }
  }

  lemma AcceptedPattern(s: string)
    requires Accepts(s)
    ensures Pattern(s)
  {
    assert Scan(Start, s) == Scan(Step(Start, s[0]), s[1..]);
    assert IsWordLetter(s[0]) && s[..1] == [s[0]];
    GroupsFromInWord(s[1..]);
    assert Word(s[..1]);
  }

  /** The scanner accepts exactly the strings the expression describes. */
  lemma AcceptsIffPattern(s: string)
    ensures Accepts(s) <==> Pattern(s)
  {
    if Accepts(s) {
      AcceptedPattern(s);
    }
    if Pattern(s) {
      PatternAccepted(s);
    }
  }

  /** The recogniser gives the same answer as Regex.IsMatch on every string. */
  lemma IsMatchIffRegexIsMatch(s: string)
    ensures IsMatch(s) <==> RegexIsMatch(s)
  {
    AcceptsIffPattern(s);
    if |s| > 0 {
      AcceptsIffPattern(s[..|s| - 1]);
    }
  }

  // ---------------------------------------------------------------------
  // What the pattern admits

  /** Any non-empty run of word letters is a name. */
  lemma WordMatches(s: string)
    requires Word(s)
    ensures IsMatch(s)
  {
    ScanWord(Start, s);
  }

  /** The scanner only reaches a word after a word letter. */
  lemma {:induction false} InWordAfterWordLetter(q: ScanState, s: string)
    requires s != [] && Scan(q, s) == InWord
    ensures IsWordLetter(s[|s| - 1])
    decreases |s|
  {
    if |s| > 1 && q != Failed {
      assert s[1..][|s| - 2] == s[|s| - 1];
      InWordAfterWordLetter(Step(q, s[0]), s[1..]);
    }
  }

  /** An accepted string is non-empty and starts and ends with a word letter. */
  lemma AcceptedEnds(s: string)
    requires Accepts(s)
    ensures s != [] && IsWordLetter(s[0]) && IsWordLetter(s[|s| - 1])
  {
    InWordAfterWordLetter(Start, s);
  }

  /** Two spaces in a row can never be read. */
  lemma AcceptedNoDoubleSpace(s: string, i: nat)
    requires Accepts(s) && i + 1 < |s|
    ensures !(s[i] == ' ' && s[i + 1] == ' ')
  {
    assert s == s[..i] + s[i..];
    ScanAppend(Start, s[..i], s[i..]);
    var q := Scan(Start, s[..i]);
    assert Scan(q, s[i..]) == Scan(Step(Step(q, s[i]), s[i + 1]), s[i + 2..]);
  }

  /** The characters a name may consist of. */
  predicate IsNameChar(c: char) {
    IsInfixLetter(c) || c == ' ' || IsMark(c)
  }

  lemma {:induction false} ScanAlphabet(q: ScanState, s: string)
    requires q != Failed && Scan(q, s) != Failed
    ensures forall i :: 0 <= i < |s| ==> IsNameChar(s[i])
    decreases |s|
  {
    if s != [] {
      ScanAlphabet(Step(q, s[0]), s[1..]);
      assert forall i :: 1 <= i < |s| ==> s[i] == s[1..][i - 1];
    }
  }

  /** What any string the recogniser accepts looks like: it starts with a
      word letter, ends with a word letter (before a final line feed, if
      any), and holds nothing but name characters. */
  lemma MatchShape(s: string)
    ensures IsMatch(s) ==> s != [] && IsWordLetter(s[0])
    ensures IsMatch(s) ==>
              || IsWordLetter(s[|s| - 1])
              || (|s| >= 2 && s[|s| - 1] == '\n' && IsWordLetter(s[|s| - 2]))
    ensures IsMatch(s) ==>
              forall i :: 0 <= i < |s| ==> IsNameChar(s[i]) || (i == |s| - 1 && s[i] == '\n')
  {
    if Accepts(s) {
      AcceptedEnds(s);
      ScanAlphabet(Start, s);
    } else if |s| > 0 && s[|s| - 1] == '\n' && Accepts(s[..|s| - 1]) {
      var body := s[..|s| - 1];
      AcceptedEnds(body);
      ScanAlphabet(Start, body);
      assert forall i :: 0 <= i < |body| ==> s[i] == body[i];
    }
  }

  /** No string the recogniser accepts holds two spaces in a row. */
  lemma MatchNoDoubleSpace(s: string, i: nat)
    ensures IsMatch(s) && i + 1 < |s| ==> !(s[i] == ' ' && s[i + 1] == ' ')
  {
    if Accepts(s) && i + 1 < |s| {
      AcceptedNoDoubleSpace(s, i);
    } else if |s| > 0 && s[|s| - 1] == '\n' && Accepts(s[..|s| - 1]) && i + 2 < |s| {
      AcceptedNoDoubleSpace(s[..|s| - 1], i);
    }
  }
}
