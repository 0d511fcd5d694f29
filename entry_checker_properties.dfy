/**
  What the EntryChecker validators promise, stated over the model in
  entry_checker.dfy and proved from the two pattern recognisers and the
  models of the .NET primitives.
*/
module EntryCheckerProperties {
  import opened Wrappers
  import opened DotNetText
  import opened DotNetInt32
  import NamePattern
  import HouseNoPattern
  import opened EntryChecker

  // ---------------------------------------------------------------------
  // Names

  /** A string the name recogniser accepts is not blank and holds no digit,
      so the two earlier checks of IsName can only change which alert a
      rejected name gets. */
  lemma NameMatchNotBlankNoDigit(s: string)
    ensures NamePattern.IsMatch(s) ==> !IsNullOrWhiteSpace(Some(s)) && !ContainsDigit(s)
  {
    NamePattern.MatchShape(s);
  }

  /** IsName accepts exactly the non-null strings that Regex.IsMatch accepts
      for the name pattern. */
  lemma IsNameAcceptsExactlyPattern(name: Option<string>, fieldType: string)
    ensures IsName(name, fieldType) == Accepted <==> name.Some? && NamePattern.RegexIsMatch(name.value)
  {
    if name.Some? {
      NamePattern.IsMatchIffRegexIsMatch(name.value);
      NameMatchNotBlankNoDigit(name.value);
    }
  }

  /** The order of IsName's checks: a missing name first, then a digit, then
      the pattern. A name with a digit gets the digit alert although the
      pattern would have refused it as well. */
  lemma IsNameCheckOrder(name: Option<string>, fieldType: string)
    ensures IsNullOrWhiteSpace(name) ==> IsName(name, fieldType) == Rejected(NameMissing(fieldType))
    ensures !IsNullOrWhiteSpace(name) && ContainsDigit(name.value) ==>
              && IsName(name, fieldType) == Rejected(NameHasDigit(fieldType))
              && !NamePattern.RegexIsMatch(name.value)
    ensures !IsNullOrWhiteSpace(name) && !ContainsDigit(name.value) && !NamePattern.RegexIsMatch(name.value) ==>
              IsName(name, fieldType) == Rejected(NameMalformed(fieldType))
  {
    if name.Some? {
      NamePattern.IsMatchIffRegexIsMatch(name.value);
      NameMatchNotBlankNoDigit(name.value);
    }
  }

  /** IsNameOrEmpty accepts every blank field and otherwise gives exactly
      IsName's verdict, alert included. */
  lemma IsNameOrEmptyAgrees(name: Option<string>, fieldType: string)
    ensures IsNameOrEmpty(name, fieldType) == if IsNullOrWhiteSpace(name) then Accepted else IsName(name, fieldType)
  {
  }

  /** Any non-empty run of the letters A-Z, a-z, ä, ö, ü, Ä, Ö, Ü is a name. */
  lemma LetterRunIsName(s: string, fieldType: string)
    requires NamePattern.Word(s)
    ensures IsName(Some(s), fieldType) == Accepted
  {
    NamePattern.WordMatches(s);
    NameMatchNotBlankNoDigit(s);
  }

  predicate IsSeparator(c: char) {
    c == ' ' || c == '\'' || c == '-'
  }

  /** A name never starts or ends with a space, an apostrophe or a hyphen. */
  lemma NameEdgesRejected(s: string, fieldType: string)
    requires s != [] && (IsSeparator(s[0]) || IsSeparator(s[|s| - 1]))
    ensures IsName(Some(s), fieldType) != Accepted
  {
    NamePattern.MatchShape(s);
  }

  /** A name never holds two spaces in a row. */
  lemma DoubleSpaceRejected(s: string, i: nat, fieldType: string)
    requires i + 1 < |s| && s[i] == ' ' && s[i + 1] == ' '
    ensures IsName(Some(s), fieldType) != Accepted
  {
    NamePattern.MatchNoDoubleSpace(s, i);
  }

  /** The pattern admits ß only inside a name, so a name ending in ß, such
      as "Strauß", is refused: with the malformed-name alert unless it also
      holds a digit. */
  lemma SharpSEndingRejected(s: string, fieldType: string)
    requires s != [] && s[|s| - 1] == 'ß'
    ensures IsName(Some(s), fieldType)
            == if ContainsDigit(s) then Rejected(NameHasDigit(fieldType)) else Rejected(NameMalformed(fieldType))
  {
    NamePattern.MatchShape(s);
    assert !IsWhiteSpace(s[|s| - 1]);
  }

  /** An accepted name consists of letters, ß, spaces, apostrophes and
      hyphens, apart from one line feed the `$` anchor lets through at the end. */
  lemma AcceptedNameCharacters(s: string, fieldType: string)
    requires IsName(Some(s), fieldType) == Accepted
    ensures forall i :: 0 <= i < |s| ==> NamePattern.IsNameChar(s[i]) || (i == |s| - 1 && s[i] == '\n')
  {
    NamePattern.MatchShape(s);
  }

  /** `$` matches before a final line feed: an accepted name followed by one
      line feed is still accepted, followed by two it is not. */
  lemma TrailingLineFeedAccepted(s: string, fieldType: string)
    requires IsName(Some(s), fieldType) == Accepted && s[|s| - 1] != '\n'
    ensures IsName(Some(s + "\n"), fieldType) == Accepted
    ensures IsName(Some(s + "\n\n"), fieldType) != Accepted
  {
    NamePattern.MatchShape(s);
    var s1 := s + "\n";
    var s2 := s + "\n\n";
    assert s1[..|s1| - 1] == s;
    assert s1[0] == s[0];
    assert forall i :: 0 <= i < |s| ==> s1[i] == s[i];
    NamePattern.MatchShape(s2);
    NamePattern.MatchShape(s1);
  }

  // ---------------------------------------------------------------------
  // Alert texts

  /** Which check an alert text belongs to, read off fixed positions of the
      text; the missing-name and malformed-name texts are one class. */
  function MessageClass(m: string): nat {
    if |m| < 18 then 0
    else if m[0] == 'D' then
      if m[2] == 'r' then 1         // "Der ... kann keine Zahl enthalten"
      else if m[4] == 'Z' then 2    // "Die Zahl muss positiv oder 0 sein"
      else if m[17] == 'k' then 3   // "Die Postleitzahl kann keinen Buchstaben enthalten"
      else 4                        // "Die Postleitzahl muss ... Stellen enthalten"
    else if m[3] == 'i' then 5      // "Es ist keine Hausnummer"
    else if m[13] == ' ' then 6     // "Es wurde kein ... eingetragen"
    else if m[15] == 'P' then 7     // "Es wurde keine Postleitzahl eingetragen"
    else if m[15] == 'H' then 8     // "Es wurde keine Hausnummer eingetragen"
    else if m[15] == 'Z' then 9     // "Es wurde keine Zahl eingetragen"
    else 10                         // "Es wurde keine ganze Zahl eingetragen"
  }

  function ErrorClass(e: EntryError): nat {
    match e
    case NameHasDigit(_) => 1
    case NumberNegative => 2
    case PostCodeHasLetter => 3
    case PostCodeWrongLength(_) => 4
    case HouseNoMalformed => 5
    case NameMissing(_) => 6
    case NameMalformed(_) => 6
    case PostCodeMissing => 7
    case HouseNoMissing => 8
    case NumberMissing => 9
    case NumberNotWhole => 10
  }

  /** The texts that carry the field name or the length. */
  lemma MessageClassOfParameterised(e: EntryError)
    requires e.NameMissing? || e.NameMalformed? || e.NameHasDigit? || e.PostCodeWrongLength?
    ensures MessageClass(Message(e)) == ErrorClass(e)
  {
    var m := Message(e);
    if e.NameHasDigit? {
      assert m[0] == 'D' && m[2] == 'r';
    } else if e.PostCodeWrongLength? {
      assert m[0] == 'D' && m[2] == 'e' && m[4] == 'P' && m[17] == 'm';
    } else {
      assert m[0] == 'E' && m[3] == 'w' && m[13] == ' ';
    }
  }

  /** The post-code texts without a parameter. */
  lemma MessageClassOfPostCode(e: EntryError)
    requires e.PostCodeMissing? || e.PostCodeHasLetter?
    ensures MessageClass(Message(e)) == ErrorClass(e)
  {
    var m := Message(e);
    if e.PostCodeMissing? {
      assert m[0] == 'E' && m[3] == 'w' && m[13] == 'e' && m[15] == 'P';
    } else {
      assert m[0] == 'D' && m[2] == 'e' && m[4] == 'P' && m[17] == 'k';
    }
  }

  /** The house-number texts. */
  lemma MessageClassOfHouseNo(e: EntryError)
    requires e.HouseNoMissing? || e.HouseNoMalformed?
    ensures MessageClass(Message(e)) == ErrorClass(e)
  {
    var m := Message(e);
    if e.HouseNoMissing? {
      assert m[0] == 'E' && m[3] == 'w' && m[13] == 'e' && m[15] == 'H';
    } else {
      assert m[0] == 'E' && m[3] == 'i';
    }
  }

  /** The number texts. */
  lemma MessageClassOfNumber(e: EntryError)
    requires e.NumberMissing? || e.NumberNotWhole? || e.NumberNegative?
    ensures MessageClass(Message(e)) == ErrorClass(e)
  {
    var m := Message(e);
    if e.NumberMissing? {
      assert m[0] == 'E' && m[3] == 'w' && m[13] == 'e' && m[15] == 'Z';
    } else if e.NumberNotWhole? {
      assert m[0] == 'E' && m[3] == 'w' && m[13] == 'e' && m[15] == 'g';
    } else {
      assert m[0] == 'D' && m[2] == 'e' && m[4] == 'Z';
    }
  }

  /** Reading the class off an alert text gives the class of its error. */
  lemma MessageClassOf(e: EntryError)
    ensures MessageClass(Message(e)) == ErrorClass(e)
  {
    if e.NameMissing? || e.NameMalformed? || e.NameHasDigit? || e.PostCodeWrongLength? {
      MessageClassOfParameterised(e);
    } else if e.PostCodeMissing? || e.PostCodeHasLetter? {
      MessageClassOfPostCode(e);
    } else if e.HouseNoMissing? || e.HouseNoMalformed? {
      MessageClassOfHouseNo(e);
    } else {
      MessageClassOfNumber(e);
    }
  }

  /** The alert text tells the user which check failed, with one exception
      the source builds in: a missing name and a name the pattern refuses
      give the same text. The field name and the expected post-code length
      can be read back from the text. */
  lemma MessageDeterminesError(e1: EntryError, e2: EntryError)
    requires Message(e1) == Message(e2)
    ensures e1 == e2 || (ErrorClass(e1) == ErrorClass(e2) == 6 && e1.fieldType == e2.fieldType)
  {
    MessageClassOf(e1);
    MessageClassOf(e2);
    var m := Message(e1);
    if ErrorClass(e1) == 6 {
      assert m[14..|m| - 12] == e1.fieldType;
      assert m[14..|m| - 12] == e2.fieldType;
    } else if ErrorClass(e1) == 1 {
      assert m[4..|m| - 26] == e1.fieldType;
      assert m[4..|m| - 26] == e2.fieldType;
    } else if ErrorClass(e1) == 4 {
      assert m[22..|m| - 18] == FormatInt(e1.length);
      assert m[22..|m| - 18] == FormatInt(e2.length);
      FormatIntInjective(e1.length, e2.length);
    }
  }

  // ---------------------------------------------------------------------
  // Fields that may be left empty

  /** For a blank field IsPostCode, IsHouseNo and IsPosIntOrZero return
      exactly CanBeEmpty, with their "missing" alert only when CanBeEmpty is
      false; with CanBeEmpty true no alert is raised. */
  lemma BlankOptionalFields(field: Option<string>, length: Int32, canBeEmpty: bool)
    requires IsNullOrWhiteSpace(field)
    ensures IsPostCode(field, length, canBeEmpty) == if canBeEmpty then Accepted else Rejected(PostCodeMissing)
    ensures IsHouseNo(field, canBeEmpty) == if canBeEmpty then Accepted else Rejected(HouseNoMissing)
    ensures IsPosIntOrZero(field, canBeEmpty) == if canBeEmpty then Accepted else Rejected(NumberMissing)
    ensures Observe(IsPostCode(field, length, canBeEmpty)).returned == canBeEmpty
    ensures Observe(IsHouseNo(field, canBeEmpty)).returned == canBeEmpty
    ensures Observe(IsPosIntOrZero(field, canBeEmpty)).returned == canBeEmpty
    ensures canBeEmpty ==> Observe(IsPostCode(field, length, canBeEmpty)).alerts == []
  {
  }

  // ---------------------------------------------------------------------
  // Post codes

  /** A non-blank post code is accepted exactly when it holds no letter and
      its length is `length`; the letter check comes first, so a post code
      with a letter gets the letter alert whatever its length. */
  lemma IsPostCodeNonBlank(s: string, length: Int32, canBeEmpty: bool)
    requires !IsNullOrWhiteSpace(Some(s))
    ensures IsPostCode(Some(s), length, canBeEmpty) == Accepted <==> !ContainsLetter(s) && Utf16Length(s) == length
    ensures ContainsLetter(s) ==> IsPostCode(Some(s), length, canBeEmpty) == Rejected(PostCodeHasLetter)
    ensures !ContainsLetter(s) && Utf16Length(s) != length ==>
              IsPostCode(Some(s), length, canBeEmpty) == Rejected(PostCodeWrongLength(length))
  {
  }

  /** Only letters are refused: any non-empty string of digits and hyphens,
      such as "12-45", is a post code of its own length. */
  lemma DigitsAndHyphensArePostCodes(s: string, canBeEmpty: bool)
    requires s != [] && |s| <= Int32Max
    requires forall i :: 0 <= i < |s| ==> IsDigit(s[i]) || s[i] == '-'
    ensures IsPostCode(Some(s), |s|, canBeEmpty) == Accepted
  {
    assert !IsWhiteSpace(s[0]);
    Utf16LengthBasicPlane(s);
  }

  /** The length is counted in UTF-16 code units: four digits and one emoji
      are six units, not five characters. */
  lemma SupplementaryCharCountsTwice()
    ensures IsPostCode(Some("1234\U{1F600}"), DefaultPostCodeLength, false)
            == Rejected(PostCodeWrongLength(DefaultPostCodeLength))
  {
    var s := "1234\U{1F600}";
    assert s[..4] == "1234";
    Utf16LengthBasicPlane("1234");
  }

  // ---------------------------------------------------------------------
  // House numbers

  /** A non-blank house number is accepted exactly when Regex.IsMatch
      accepts it for the house-number pattern, that is, when every character
      is an ASCII digit, an ASCII letter or a hyphen (a final line feed aside). */
  lemma IsHouseNoAcceptsCharClass(s: string, canBeEmpty: bool)
    requires !IsNullOrWhiteSpace(Some(s))
    ensures IsHouseNo(Some(s), canBeEmpty) == Accepted <==> HouseNoPattern.RegexIsMatch(s)
    ensures IsHouseNo(Some(s), canBeEmpty) == Accepted <==>
              || HouseNoPattern.AllHouseNoChars(s)
              || (s[|s| - 1] == '\n' && HouseNoPattern.AllHouseNoChars(s[..|s| - 1]))
    ensures IsHouseNo(Some(s), canBeEmpty) != Accepted ==> IsHouseNo(Some(s), canBeEmpty) == Rejected(HouseNoMalformed)
  {
    HouseNoPattern.IsMatchIffRegexIsMatch(s);
  }

  // ---------------------------------------------------------------------
  // Whole numbers

  /** What IsPosIntOrZero answers for the number n written out: numbers
      outside the 32-bit range are not whole numbers (even negative ones),
      other negative numbers are refused as negative, the rest accepted. */
  function NumberVerdict(n: int): Verdict {
    if n < Int32Min || n > Int32Max then Rejected(NumberNotWhole)
    else if n < 0 then Rejected(NumberNegative)
    else Accepted
  }

  /** IsPosIntOrZero on any number written as int.ToString() writes it,
      with ASCII white space around it. */
  lemma FormattedNumber(w1: string, n: int, w2: string, canBeEmpty: bool)
    requires AllDropped(w1, IsParseWhite) && AllDropped(w2, IsParseWhite)
    ensures IsPosIntOrZero(Some(w1 + FormatInt(n) + w2), canBeEmpty) == NumberVerdict(n)
  {
    var f := FormatInt(n);
    var s := w1 + f + w2;
    assert s[|w1| + |f| - 1] == f[|f| - 1];
    ParseFormatted(w1, n, w2);
  }

  /** A character other than white space, a digit or a sign makes the field
      no whole number. */
  lemma ForeignCharNotWhole(s: string, i: nat, canBeEmpty: bool)
    requires i < |s| && !IsWhiteSpace(s[i]) && !IsDigit(s[i]) && s[i] != '-' && s[i] != '+'
    ensures IsPosIntOrZero(Some(s), canBeEmpty) == Rejected(NumberNotWhole)
  {
    ForeignCharNotParsed(s, i);
  }

  /** int.TryParse allows less white space than string.IsNullOrWhiteSpace
      and string.Trim know: a number after a no-break space is not a whole
      number ... */
  lemma NoBreakSpaceBeforeNumber(n: nat, canBeEmpty: bool)
    ensures IsPosIntOrZero(Some("\U{A0}" + FormatInt(n)), canBeEmpty) == Rejected(NumberNotWhole)
  {
    var s := "\U{A0}" + FormatInt(n);
    assert IsDigit(s[|s| - 1]);
    ForeignCharNotParsed(s, 0);
  }

  /** ... yet the same field passed through CleanString first is one. */
  lemma CleanedNoBreakSpaceBeforeNumber(n: nat, canBeEmpty: bool)
    requires n <= Int32Max
    ensures IsPosIntOrZero(Some(CleanString("\U{A0}" + FormatInt(n))), canBeEmpty) == Accepted
  {
    var f := FormatInt(n);
    assert IsDigit(f[0]) && IsDigit(f[|f| - 1]);
    assert "\U{A0}" + f + "" == "\U{A0}" + f;
    CleanStringPadded("\U{A0}", f, "");
    assert "" + f + "" == f;
    FormattedNumber("", n, "", canBeEmpty);
  }

  // ---------------------------------------------------------------------
  // CleanString

  /** Cleaning a cleaned string changes nothing. */
  lemma CleanStringIdempotent(s: string)
    ensures CleanString(CleanString(s)) == CleanString(s)
  {
    var r := CleanString(s);
    if r != [] {
      assert [] + r + [] == r;
      TrimByPadded([], r, [], IsWhiteSpace);
    }
  }

  /** CleanString leaves nothing of a field exactly when the validators
      treat it as blank. */
  lemma CleanStringBlank(s: string)
    ensures CleanString(s) == [] <==> IsNullOrWhiteSpace(Some(s))
  {
  }

  /** CleanString undoes white-space padding around text that does not
      itself start or end with white space. */
  lemma CleanStringPadded(w1: string, t: string, w2: string)
    requires AllWhiteSpace(w1) && AllWhiteSpace(w2)
    requires t != [] && !IsWhiteSpace(t[0]) && !IsWhiteSpace(t[|t| - 1])
    ensures CleanString(w1 + t + w2) == t
  {
    TrimByPadded(w1, t, w2, IsWhiteSpace);
  }
}
