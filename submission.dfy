/**
 * The submit handler of the contact form, apart from the request itself:
 * the order in which trimmed fields are checked, the honeypot that aborts
 * silently, the status each outcome shows, the text shown for a refused
 * or failed request, and the field names under which selected photos go
 * into the multipart payload.
 */
module Submission {
  import opened Wrappers
  import opened Text
  import opened Feedback
  import opened Validators
  import opened Uploads

  /** The raw values of the form's fields; `honeypot` is `None` when the form has no control named `gotcha`. */
  datatype Fields = Fields(name: string, phone: string, email: string, message: string, honeypot: Option<string>)

  /** The three validation checks, in the order the handler runs them. */
  datatype Check = RequiredFields | PhoneNumber | EmailAddress

  function Rank(c: Check): nat {
    match c
    case RequiredFields => 0
    case PhoneNumber => 1
    case EmailAddress => 2
  }

  /** Every check the trimmed field values fail, each judged on its own. */
  function FailuresOf(name: string, phone: string, email: string, message: string): set<Check> {
    (if name == [] || phone == [] || message == [] then {RequiredFields} else {})
    + (if !ValidatePhone(phone) then {PhoneNumber} else {})
    + (if !ValidateEmail(email) then {EmailAddress} else {})
  }

  function Failures(f: Fields): set<Check> {
    FailuresOf(Trim(f.name), Trim(f.phone), Trim(f.email), Trim(f.message))
  }

  /** A honeypot counts as filled when it exists and holds any text at all, untrimmed. */
  predicate HoneypotFilled(honeypot: Option<string>) {
    honeypot.Some? && honeypot.value != []
  }

  datatype Outcome = Invalid(failed: Check) | SilentAbort | Send

  /**
   * The submit handler's decision: it trims every field, then the first
   * failed check in order reports; with no failure a filled honeypot ends
   * the submission quietly; only then is the message sent.
   */
  function Decide(f: Fields): Outcome {
    var name, phone, email, message := Trim(f.name), Trim(f.phone), Trim(f.email), Trim(f.message);
    if name == [] || phone == [] || message == [] then Invalid(RequiredFields)
    else if !ValidatePhone(phone) then Invalid(PhoneNumber)
    else if email != [] && !ValidateEmail(email) then Invalid(EmailAddress)
    else if HoneypotFilled(f.honeypot) then SilentAbort
    else Send
  }

  /**
   * The decision reports a failure exactly when some check fails, and then
   * the earliest failed check; the honeypot only matters once all pass.
   */
  lemma DecideReportsFirstFailure(f: Fields)
    ensures Decide(f).Invalid? <==> Failures(f) != {}
    ensures Decide(f).Invalid? ==> Decide(f).failed in Failures(f)
    ensures Decide(f).Invalid? ==> forall c :: c in Failures(f) ==> Rank(Decide(f).failed) <= Rank(c)
    ensures Decide(f) == SilentAbort <==> Failures(f) == {} && HoneypotFilled(f.honeypot)
    ensures Decide(f) == Send <==> Failures(f) == {} && !HoneypotFilled(f.honeypot)
  {
  }

  /** A message is only sent with a name, a message, ten digits in the phone field and a well-formed or blank e-mail. */
  lemma SendMeansValid(f: Fields)
    requires Decide(f) == Send
    ensures !AllSpace(f.name) && !AllSpace(f.message)
    ensures |DigitsOnly(f.phone)| >= MinPhoneDigits
    ensures AllSpace(f.email) || MatchesEmailPattern(Trim(f.email))
    ensures !HoneypotFilled(f.honeypot)
  {
    TrimEmptyIff(f.name);
    TrimEmptyIff(f.message);
    TrimEmptyIff(f.email);
    DigitsOnlyAroundSpace(f.phone);
    var email := Trim(f.email);
    assert ValidateEmail(email);
    ValidateEmailMatchesPattern(email);
  }

  /** A field of nothing but white space counts as missing, whatever else is filled in. */
  lemma BlankRequiredFieldRejected(f: Fields)
    requires AllSpace(f.name) || AllSpace(f.phone) || AllSpace(f.message)
    ensures Decide(f) == Invalid(RequiredFields)
  {
    TrimEmptyIff(f.name);
    TrimEmptyIff(f.phone);
    TrimEmptyIff(f.message);
  }

  /** A blank e-mail field is the same as no e-mail: the address is optional. */
  lemma BlankEmailIsOptional(f: Fields)
    requires AllSpace(f.email)
    ensures Decide(f) == Decide(f.(email := []))
  {
    TrimEmptyIff(f.email);
    var g := f.(email := []);
    assert Trim(f.email) == [] && Trim(g.email) == [];
    assert Trim(g.name) == Trim(f.name) && Trim(g.phone) == Trim(f.phone) && Trim(g.message) == Trim(f.message);
  }

  /** The honeypot is only consulted once every check has passed. */
  lemma HoneypotIgnoredWhenInvalid(f: Fields, honeypot: Option<string>)
    requires Failures(f) != {}
    ensures Decide(f.(honeypot := honeypot)) == Decide(f)
  {
    assert Failures(f.(honeypot := honeypot)) == Failures(f);
  }

  const SendingText := "Sending your message..."
  const ThanksText := "Thank you! We will contact you shortly."
  const FallbackText := "There was a problem sending your message. Please try again."
  const NetworkErrorText := "Network error. Please check your connection and try again."

  /** The status the handler sets for an outcome; the honeypot sets none. */
  function OutcomeStatus(o: Outcome): (st: Option<Status>)
    ensures st.None? <==> o == SilentAbort
    ensures o.Invalid? ==> st.Some? && st.value.tone == ErrorTone
    ensures o == Send ==> st == Some(Status(SendingText, OkTone))
  {
    match o
    case Invalid(RequiredFields) => Some(Status("Please fill in all required fields (Name, Phone, Message).", ErrorTone))
    case Invalid(PhoneNumber) => Some(Status("Please enter a valid phone number (at least 10 digits).", ErrorTone))
    case Invalid(EmailAddress) => Some(Status("Please enter a valid email address.", ErrorTone))
    case SilentAbort => None
    case Send => Some(Status(SendingText, OkTone))
  }

  /**
   * The JSON body of a refused request as far as the page reads it: no usable
   * `errors` list (absent, null, or a body that is not JSON), a list whose
   * entries may lack a `message`, or a value on which reading the list throws.
   */
  datatype ErrorBody = NoErrorList | ErrorList(messages: seq<Option<string>>) | ThrowingErrorList

  /** What came back from the form endpoint: a 2xx answer, another answer, or no answer. */
  datatype Response = Accepted | Refused(body: ErrorBody) | NetworkFailure

  /** The text one server error contributes to the join: a missing `message` joins as the empty string. */
  function MessageText(m: Option<string>): string {
    if m.Some? then m.value else []
  }

  /** `errors.map(e => e.message)`, entry by entry from the front of the list. */
  function MessageTexts(messages: seq<Option<string>>): (r: seq<string>)
    ensures |r| == |messages|
    ensures forall k :: 0 <= k < |r| ==> r[k] == MessageText(messages[k])
  {
    if messages == [] then [] else [MessageText(messages[0])] + MessageTexts(messages[1..])
  }

  /** The status once the request has settled. */
  function ResponseStatus(r: Response): (st: Status)
    ensures st.tone == OkTone <==> r.Accepted?
    ensures st.text != []
  {
    match r
    case Accepted => Status(ThanksText, OkTone)
    case Refused(NoErrorList) => Status(FallbackText, ErrorTone)
    case Refused(ErrorList(messages)) =>
      var joined := Join(MessageTexts(messages), ", ");
      Status(if joined == [] then FallbackText else joined, ErrorTone)
    case Refused(ThrowingErrorList) => Status(NetworkErrorText, ErrorTone)
    case NetworkFailure => Status(NetworkErrorText, ErrorTone)
  }

  /**
   * The server's messages are shown, joined by ", ", unless there are none
   * or only one empty one; then the fallback text is shown.
   */
  lemma RefusalText(messages: seq<Option<string>>)
    ensures var texts := MessageTexts(messages);
      var st := ResponseStatus(Refused(ErrorList(messages)));
      if texts == [] || (|texts| == 1 && texts[0] == []) then st.text == FallbackText
      else st.text == Join(texts, ", ")
  {
    JoinEmptyIff(MessageTexts(messages), ", ");
  }

  lemma RefusalExample()
    ensures ResponseStatus(Refused(ErrorList([Some("Bad phone")]))).text == "Bad phone"
    ensures ResponseStatus(Refused(ErrorList([]))).text == FallbackText
  {
    assert MessageTexts([Some("Bad phone")]) == ["Bad phone"];
  }

  /** One payload entry: the multipart field name and the file under it. */
  datatype Entry = Entry(field: string, file: FileInfo)

  const PhotoPrefix := "photo-"

  /** The selected photos appended to the payload as `photo-1`, `photo-2`, ... in selection order. */
  function PhotoEntries(files: seq<FileInfo>): (r: seq<Entry>)
    ensures |r| == |files|
    ensures forall k :: 0 <= k < |r| ==> r[k].file == files[k]
  {
    seq(|files|, k requires 0 <= k < |files| => Entry(PhotoPrefix + Decimal(k + 1), files[k]))
  }

  /** Each field name reads back as its one-based position, so no two photos share a name. */
  lemma PhotoFieldNames(files: seq<FileInfo>, i: nat, j: nat)
    requires i < |files| && j < |files|
    ensures var r := PhotoEntries(files);
      && |r[i].field| > |PhotoPrefix| && r[i].field[..|PhotoPrefix|] == PhotoPrefix
      && (forall k :: |PhotoPrefix| <= k < |r[i].field| ==> IsDigitChar(r[i].field[k]))
      && DecimalValue(r[i].field[|PhotoPrefix|..]) == i + 1
      && (i != j ==> r[i].field != r[j].field)
  {
    var r := PhotoEntries(files);
    assert r[i].field[|PhotoPrefix|..] == Decimal(i + 1);
    assert r[j].field[|PhotoPrefix|..] == Decimal(j + 1);
    DecimalRoundTrip(i + 1);
    DecimalRoundTrip(j + 1);
  }
}
