/**
  The form-field validators of the static class Essentials.EntryChecker.

  Each C# validator takes the text of one form field, runs its checks in a
  fixed order, and at the first check that fails opens one alert dialog
  (title "Fehler", button "OK") and returns false; when every check passes
  it returns true without an alert. Here a validator returns a Verdict:
  Accepted, or Rejected with the EntryError that names the failed check.
  Observe turns a verdict back into what the C# method does: its return
  value and the alerts it shows. A C# string that may be null is an
  Option<string>.
*/
module EntryChecker {
  import opened Wrappers
  import opened DotNetText
  import opened DotNetInt32
  import NamePattern
  import HouseNoPattern

  /** The check that failed. The name errors carry the field's display name
      (the `type` parameter), the post-code length error the expected length. */
  datatype EntryError =
    | NameMissing(fieldType: string)
    | NameHasDigit(fieldType: string)
    | NameMalformed(fieldType: string)
    | PostCodeMissing
    | PostCodeHasLetter
    | PostCodeWrongLength(length: Int32)
    | HouseNoMissing
    | HouseNoMalformed
    | NumberMissing
    | NumberNotWhole
    | NumberNegative

  datatype Verdict = Accepted | Rejected(error: EntryError)

  /** The default of IsPostCode's `length` parameter. The `CanBeEmpty`
      parameters default to false, and the `type` parameter of the name
      validators to "Name". */
  const DefaultPostCodeLength: Int32 := 5

  // ---------------------------------------------------------------------
  // The alerts

  /** The message text of the alert raised for each error. */
  function Message(e: EntryError): string {
    match e
    case NameMissing(t) => "Es wurde kein " + t + " eingetragen"
    case NameHasDigit(t) => "Der " + t + " kann keine Zahl enthalten"
    case NameMalformed(t) => "Es wurde kein " + t + " eingetragen"
    case PostCodeMissing => "Es wurde keine Postleitzahl eingetragen"
    case PostCodeHasLetter => "Die Postleitzahl" + " kann keinen Buchstaben enthalten"
    case PostCodeWrongLength(n) => "Die Postleitzahl muss " + FormatInt(n) + " Stellen enthalten"
    case HouseNoMissing => "Es wurde keine Hausnummer eingetragen"
    case HouseNoMalformed => "Es ist keine Hausnummer"
    case NumberMissing => "Es wurde keine Zahl eingetragen"
    case NumberNotWhole => "Es wurde keine ganze Zahl eingetragen"
    case NumberNegative => "Die Zahl muss positiv oder 0 sein"
  }

  /** DisplayAlert(title, message, cancel) */
  datatype Alert = Alert(title: string, message: string, cancel: string)

  function AlertFor(e: EntryError): Alert {
    Alert("Fehler", Message(e), "OK")
  }

  /** What one call of a C# validator does: the bool it returns and the
      alerts it opens, in order. */
  datatype Call = Call(returned: bool, alerts: seq<Alert>)

  /** A validator returns false exactly when it opens an alert, and it never
      opens more than one. */
  function Observe(v: Verdict): (c: Call)
    ensures c.returned <==> v.Accepted?
    ensures c.returned <==> c.alerts == []
    ensures !c.returned <==> |c.alerts| == 1
    ensures v.Rejected? ==> c.alerts == [AlertFor(v.error)]
  {
    match v
    case Accepted => Call(true, [])
    case Rejected(e) => Call(false, [AlertFor(e)])
  }

  // ---------------------------------------------------------------------
  // The validators

  /** IsName(name, type): blank, then digits, then the name pattern. */
  function IsName(name: Option<string>, fieldType: string): (v: Verdict)
    ensures v.Rejected? ==>
              v.error in {NameMissing(fieldType), NameHasDigit(fieldType), NameMalformed(fieldType)}
  {
    if IsNullOrWhiteSpace(name) then Rejected(NameMissing(fieldType))
    else if ContainsDigit(name.value) then Rejected(NameHasDigit(fieldType))
    else if !NamePattern.IsMatch(name.value) then Rejected(NameMalformed(fieldType))
    else Accepted
  }

  /** IsNameOrEmpty(name, type): like IsName, but a blank field is fine.
      The C# method repeats IsName's checks rather than calling it. */
  function IsNameOrEmpty(name: Option<string>, fieldType: string): (v: Verdict)
    ensures v.Rejected? ==> v.error in {NameHasDigit(fieldType), NameMalformed(fieldType)}
  {
    if IsNullOrWhiteSpace(name) then Accepted
    else if ContainsDigit(name.value) then Rejected(NameHasDigit(fieldType))
    else if !NamePattern.IsMatch(name.value) then Rejected(NameMalformed(fieldType))
    else Accepted
  }

  /** IsPostCode(postCode, length, CanBeEmpty): blank, then letters, then
      the length in UTF-16 code units. */
  function IsPostCode(postCode: Option<string>, length: Int32, canBeEmpty: bool): (v: Verdict)
    ensures v.Rejected? ==> v.error in {PostCodeMissing, PostCodeHasLetter, PostCodeWrongLength(length)}
  {
    if IsNullOrWhiteSpace(postCode) then
      if canBeEmpty then Accepted else Rejected(PostCodeMissing)
    else if ContainsLetter(postCode.value) then Rejected(PostCodeHasLetter)
    else if Utf16Length(postCode.value) != length then Rejected(PostCodeWrongLength(length))
    else Accepted
  }

  /** IsHouseNo(houseNo, CanBeEmpty): blank, then the house-number pattern. */
  function IsHouseNo(houseNo: Option<string>, canBeEmpty: bool): (v: Verdict)
    ensures v.Rejected? ==> v.error in {HouseNoMissing, HouseNoMalformed}
  {
    if IsNullOrWhiteSpace(houseNo) then
      if canBeEmpty then Accepted else Rejected(HouseNoMissing)
    else if !HouseNoPattern.IsMatch(houseNo.value) then Rejected(HouseNoMalformed)
    else Accepted
  }

  /** IsPosIntOrZero(number, CanBeEmpty): blank, then int.TryParse, then the sign. */
  function IsPosIntOrZero(number: Option<string>, canBeEmpty: bool): (v: Verdict)
    ensures v.Rejected? ==> v.error in {NumberMissing, NumberNotWhole, NumberNegative}
  {
    if IsNullOrWhiteSpace(number) then
      if canBeEmpty then Accepted else Rejected(NumberMissing)
    else
      match TryParseInt32(number.value)
      case None => Rejected(NumberNotWhole)
      case Some(n) => if n < 0 then Rejected(NumberNegative) else Accepted
  }

  /** CleanString(text) is text.Trim(): r is what follows the leading white
      space of text, up to trailing white space, and neither starts nor ends
      with white space. */
  function CleanString(text: string): (r: string)
    ensures var i := LeadingWhiteSpace(text);
            && i + |r| <= |text|
            && r == text[i..i + |r|]
            && (forall k :: i + |r| <= k < |text| ==> IsWhiteSpace(text[k]))
    ensures r == [] || (!IsWhiteSpace(r[0]) && !IsWhiteSpace(r[|r| - 1]))
  {
    Trim(text)
  }
}
