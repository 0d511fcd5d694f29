# EntryChecker form-field validators, modelled in Dafny

`Essentials.EntryChecker` is a static C# class whose methods check the text of
one form field each: a name (`IsName`, `IsNameOrEmpty`), a post code
(`IsPostCode`), a house number (`IsHouseNo`) and a non-negative whole number
(`IsPosIntOrZero`). `CleanString` trims a field. Each validator runs its checks
in a fixed order. At the first check that fails, it opens one alert dialog
with the title "Fehler", a German message and an "OK" button, and returns
false. When every check passes, it returns true and shows no alert.

The model has these parts:

- `EntryChecker` (entry_checker.dfy) holds the validators.
  - Each validator is a pure function. It returns `Accepted`, or `Rejected`
    with the `EntryError` that names the failed check.
  - `Message` gives each error its alert text.
  - `Observe` turns a verdict back into what the C# method does: the bool it
    returns and the alerts it opens.
  - A C# string that may be `null` is an `Option<string>`.
- `NamePattern` (name_pattern.dfy) is the name regular expression
  `^([A-Za-zöüäÖÜÄ]+([ ]?[a-zöüäß]?['-]?[A-Za-zöüäÖÜÄ]+)*)$` under
  `RegexOptions.IgnoreCase`. It is written twice:
  - as a language that follows the shape of the expression (`RegexIsMatch`);
  - as a six-state scanner (`IsMatch`), which the validators use.

  A lemma proves that the two agree on every string.
- `HouseNoPattern` (house_no_pattern.dfy) does the same for the house-number
  expression `^([0-9]*[-]?[a-zA-Z]*?)*$`. It proves that the repeated group
  collapses to the character class "ASCII digit, ASCII letter or hyphen".
- `DotNetText` and `DotNetInt32` are explicit models of the .NET primitives
  the validators call:
  - `char.IsWhiteSpace`, `char.IsDigit`, `char.IsLetter`;
  - `string.IsNullOrWhiteSpace`, `string.Trim`, `string.Length`;
  - `int.TryParse`, `int.ToString`.
- `EntryCheckerProperties` (entry_checker_properties.dfy) holds the
  properties of the validators. Each is proved from the pieces above.

Three behaviours of the code are easy to miss, and the model keeps all three:

- **A final line feed.** In .NET, `$` without `RegexOptions.Multiline` also
  matches just before a final line feed. So `IsName("Anna\n")` and
  `IsHouseNo("12a\n")` accept.
- **ß only inside a name.** The name expression admits ß only in the
  separator between two words. So a name ending in ß, such as "Strauß", is
  refused with the malformed-name alert.
- **Two different white-space rules.** `int.TryParse` skips only ASCII white
  space, while `string.IsNullOrWhiteSpace` and `string.Trim` know all Unicode
  white space. So a number after a no-break space is "no whole number", but
  the same field is accepted after `CleanString`.

Also, the missing-name check and the malformed-name check show the same text.
This is the only pair of checks that shares a text.

## Model

| member | source | states |
|---|---|---|
| EntryChecker.Observe | EntryChecker.cs:8-147 | a validator returns true exactly when the verdict is accepted; it returns false exactly when it opens an alert, never opens more than one, and a rejection opens the alert for its error, so an accepted input opens none |
| EntryChecker.Message | EntryChecker.cs:12-142 | definition, no contract: the alert text of each error, with the field name and the expected length spliced in |
| EntryChecker.AlertFor | EntryChecker.cs:12-142 | definition, no contract: the dialog with title "Fehler", the error's text and the button "OK" |
| EntryChecker.IsName | EntryChecker.cs:8-35 | a rejected name carries one of the three name errors, for the given field name |
| EntryChecker.IsNameOrEmpty | EntryChecker.cs:36-61 | a rejected optional name carries the digit error or the malformed-name error, never the missing error |
| EntryChecker.IsPostCode | EntryChecker.cs:63-91 | a rejected post code carries the missing, letter or wrong-length error, the last with the requested length |
| EntryChecker.IsHouseNo | EntryChecker.cs:93-119 | a rejected house number carries the missing or malformed error |
| EntryChecker.IsPosIntOrZero | EntryChecker.cs:121-147 | a rejected number carries the missing, not-whole or negative error |
| EntryChecker.CleanString | EntryChecker.cs:177-180 | the result is the text after its leading white space and before its trailing white space, and neither starts nor ends with white space |
| EntryCheckerProperties.NameMatchNotBlankNoDigit | EntryChecker.cs:10-32 | a string the name pattern accepts is neither blank nor holds a digit, so the two earlier checks only decide which alert a rejected name gets |
| EntryCheckerProperties.IsNameAcceptsExactlyPattern | EntryChecker.cs:8-35 | IsName accepts exactly the non-null strings that Regex.IsMatch accepts for the name expression |
| EntryCheckerProperties.IsNameCheckOrder | EntryChecker.cs:10-32 | a blank or null name gets the missing error; a name with a digit gets the digit error, although the pattern refuses it too; any other name the pattern refuses gets the malformed error |
| EntryCheckerProperties.IsNameOrEmptyAgrees | EntryChecker.cs:36-61 | IsNameOrEmpty accepts every blank field and otherwise returns exactly IsName's verdict and error |
| EntryCheckerProperties.LetterRunIsName | EntryChecker.cs:24-27 | every non-empty run of A-Z, a-z, ä, ö, ü, Ä, Ö, Ü is accepted as a name |
| EntryCheckerProperties.NameEdgesRejected | EntryChecker.cs:24-27 | a name that starts or ends with a space, apostrophe or hyphen is refused |
| EntryCheckerProperties.DoubleSpaceRejected | EntryChecker.cs:24-27 | a name holding two spaces in a row is refused |
| EntryCheckerProperties.SharpSEndingRejected | EntryChecker.cs:17-32 | a name ending in ß is refused, with the digit error if it holds a digit and the malformed error otherwise |
| EntryCheckerProperties.AcceptedNameCharacters | EntryChecker.cs:24-27 | an accepted name holds only letters, ß, spaces, apostrophes and hyphens, apart from one final line feed |
| EntryCheckerProperties.TrailingLineFeedAccepted | EntryChecker.cs:24-27 | an accepted name followed by one line feed is still accepted; followed by two, it is not |
| EntryCheckerProperties.MessageClassOf | EntryChecker.cs:12-142 | the kind of check can be read off fixed positions of every alert text |
| EntryCheckerProperties.MessageDeterminesError | EntryChecker.cs:12-142 | two errors with the same alert text are equal, field name and length included, except that the missing-name and malformed-name texts coincide |
| EntryCheckerProperties.BlankOptionalFields | EntryChecker.cs:65-131 | for a blank or null field, IsPostCode, IsHouseNo and IsPosIntOrZero return exactly CanBeEmpty, with the missing alert only when CanBeEmpty is false |
| EntryCheckerProperties.IsPostCodeNonBlank | EntryChecker.cs:75-90 | a non-blank post code is accepted exactly when it holds no letter and its length is `length`; a letter wins over a wrong length |
| EntryCheckerProperties.DigitsAndHyphensArePostCodes | EntryChecker.cs:75-90 | any non-empty string of digits and hyphens is a post code of its own length |
| EntryCheckerProperties.SupplementaryCharCountsTwice | EntryChecker.cs:82-87 | the length counts UTF-16 code units: four digits and an emoji are refused as a five-digit post code |
| EntryCheckerProperties.IsHouseNoAcceptsCharClass | EntryChecker.cs:107-118 | a non-blank house number is accepted exactly when Regex.IsMatch accepts it, that is, exactly when all its characters (a final line feed aside) are ASCII digits, ASCII letters or hyphens; otherwise it gets the malformed error |
| EntryCheckerProperties.FormattedNumber | EntryChecker.cs:133-146 | any integer written out, with ASCII white space around it, is refused as not whole outside the 32-bit range, refused as negative below 0, and accepted otherwise |
| EntryCheckerProperties.ForeignCharNotWhole | EntryChecker.cs:133-138 | a field holding a character other than white space, a digit or a sign is not a whole number |
| EntryCheckerProperties.NoBreakSpaceBeforeNumber | EntryChecker.cs:123-138 | a number after a no-break space passes the blank check but is refused as not whole |
| EntryCheckerProperties.CleanedNoBreakSpaceBeforeNumber | EntryChecker.cs:177-180 | the same field, passed through CleanString, is accepted |
| EntryCheckerProperties.CleanStringIdempotent | EntryChecker.cs:177-180 | cleaning a cleaned string changes nothing |
| EntryCheckerProperties.CleanStringBlank | EntryChecker.cs:177-180 | CleanString leaves nothing exactly when the field counts as blank for the validators |
| EntryCheckerProperties.CleanStringPadded | EntryChecker.cs:177-180 | CleanString removes exactly the white-space padding around text that neither starts nor ends with white space |
| NamePattern.RegexIsMatch | EntryChecker.cs:24-27 | definition, no contract: the anchored expression as a language (a word, then groups of optional space, optional infix letter, optional mark and a word), plus the final line-feed rule of `$` |
| NamePattern.IsMatch | EntryChecker.cs:24-27 | definition, no contract: the six-state scanner, with the same final line-feed rule |
| NamePattern.IsMatchIffRegexIsMatch | EntryChecker.cs:24-27 | the scanner and the regular expression, line-feed rule included, agree on every string |
| NamePattern.AcceptsIffPattern | EntryChecker.cs:24-25 | the scanner accepts exactly the strings the anchored expression describes |
| NamePattern.WordMatches | EntryChecker.cs:24-27 | a single word matches the pattern |
| NamePattern.MatchShape | EntryChecker.cs:24-27 | a match starts with a word letter, ends with one (before a final line feed, if any), and holds only name characters |
| NamePattern.MatchNoDoubleSpace | EntryChecker.cs:24-27 | no match holds two spaces in a row |
| HouseNoPattern.RegexIsMatch | EntryChecker.cs:107-110 | definition, no contract: the anchored expression as a language of repeated digits-hyphen-letters groups, plus the final line-feed rule of `$` |
| HouseNoPattern.IsMatch | EntryChecker.cs:107-110 | definition, no contract: every character a digit, ASCII letter or hyphen, a final line feed aside |
| HouseNoPattern.GroupsIffAllHouseNoChars | EntryChecker.cs:107-108 | the repeated group describes exactly the strings over digits, ASCII letters and hyphens |
| HouseNoPattern.IsMatchIffRegexIsMatch | EntryChecker.cs:107-110 | the character-class recogniser and the regular expression, line-feed rule included, agree on every string |
| DotNetText.IsWhiteSpace | EntryChecker.cs:10 | definition, no contract: char.IsWhiteSpace, the full .NET list |
| DotNetText.IsNullOrWhiteSpace | EntryChecker.cs:10 | definition, no contract: null, or every character white space |
| DotNetText.IsDigit | EntryChecker.cs:17 | definition, no contract: char.IsDigit on Latin-1, the ASCII digits |
| DotNetText.ContainsDigit | EntryChecker.cs:17 | definition, no contract: `Any(char.IsDigit)` |
| DotNetText.IsLetter | EntryChecker.cs:75 | definition, no contract: char.IsLetter on Latin-1 |
| DotNetText.ContainsLetter | EntryChecker.cs:75 | definition, no contract: `Any(char.IsLetter)` |
| DotNetText.Trim | EntryChecker.cs:179 | definition, no contract: TrimBy with char.IsWhiteSpace; its properties are those of TrimBy |
| DotNetText.TrimBy | EntryChecker.cs:179 | trimming keeps the part after the leading run of trimmed characters, with only trimmed characters after it, and the result neither starts nor ends with one |
| DotNetText.TrimByPadded | EntryChecker.cs:179 | trimming removes exactly the padding around text that does not itself start or end with a trimmed character |
| DotNetText.TrimByKeeps | EntryChecker.cs:179 | a character that is not trimmed survives, shifted by the length of the leading run |
| DotNetText.Utf16Length | EntryChecker.cs:82 | string.Length lies between the number of characters and twice that number |
| DotNetText.Utf16LengthBasicPlane | EntryChecker.cs:82 | without characters above U+FFFF, string.Length is the number of characters |
| DotNetInt32.TryParseInt32 | EntryChecker.cs:133 | definition, no contract: strip ASCII white space, then an optional sign and one or more ASCII digits whose value lies in the 32-bit range |
| DotNetInt32.FormatInt | EntryChecker.cs:85 | definition, no contract: int.ToString, a '-' for negative values and the decimal digits without leading zeros |
| DotNetInt32.ParseFormatted | EntryChecker.cs:133 | int.TryParse reads back what int.ToString writes, with ASCII white space around it, and refuses values outside the 32-bit range |
| DotNetInt32.FormatIntInjective | EntryChecker.cs:85 | int.ToString never writes two different numbers the same way |
| DotNetInt32.ForeignCharNotParsed | EntryChecker.cs:133 | int.TryParse refuses any text holding a character that is neither ASCII white space, a sign nor a digit |

## Left out

- `IsPosDoubleOrZero` (EntryChecker.cs:149-175) is not modelled, because it depends on floating-point parsing with `double.TryParse`.
- FileExtensions.cs is not part of this model. It is file-system I/O plumbing around `File`, `Directory`, `Path` and `Stream`.
- The alert dialog itself is not modelled: `DisplayAlert` is asynchronous UI and is not awaited. The model records the alert as a value (`Alert`, `Call`).
- The regex engine is not modelled in general. Each of the two expressions is modelled as the language it describes, including its `$` rule. Backtracking order and the laziness of `*?` do not change whether a match exists.
- `DotNetText.IsDigit` and `DotNetText.IsLetter` agree with .NET on U+0000..U+00FF and answer false above U+00FF. .NET also counts, for example, Arabic-Indic digits and Greek letters.
- `NamePattern.IsInfixLetter`, `NamePattern.IsWordLetter` and `HouseNoPattern.IsAsciiLetter` do not model case folding outside Latin-1 under `IgnoreCase`. This leaves out the capital ẞ (U+1E9E), the Kelvin sign (U+212A, which .NET matches against `k` and so lets into `[a-zA-Z]`) and culture-specific rules such as the Turkish dotted and dotless i.
- The time a match takes is not modelled. Both expressions nest quantifiers, the source sets no match timeout, and a long input that fails can make the backtracking engine take exponential time; the model decides every input.
- A C# string may hold unpaired surrogate code units, which a Dafny `char` cannot hold. Every lemma about all strings therefore ranges over well-formed UTF-16 text only.
- `DotNetInt32.TryParseInt32` models the invariant-culture integer style: ASCII white space, one optional `+` or `-`, then ASCII digits. It leaves out culture-specific sign symbols and the trailing NUL characters .NET tolerates.
- `EntryChecker.CleanString` takes a non-null string. In C#, `CleanString(null)` throws a NullReferenceException.
- `EntryChecker.IsName` takes the field name as a string. In C#, a null `type` concatenates as the empty string, which is the same as passing "".
