/**
 The quote form's submit handler (upload.js, section 6). A fixed chain of
 guards decides whether anything is sent: honeypot, rate limit, required
 fields, length caps, email shape, phone shape. Only when every guard
 passes is a request composed from the trimmed fields, the message and a
 summary of the attached files. The network call itself is not modelled:
 its outcome (ok or not) and the clock reading taken then are inputs.
 */
module QuoteForm {
  import opened Js
  import opened Attachments

  /** One minute between successful submissions. */
  const RateLimitMs: int := 60000
  const NameCap: nat := 100
  const EmailCap: nat := 254
  const PhoneCap: nat := 20
  const MessageCap: nat := 2000

  /** The raw values of the form's controls when it is submitted:
      the hidden `website-url` trap, `nombre`, `email`, `telefono`,
      `servicio` and `mensaje`. */
  datatype Fields = Fields(
    honeypot: string,
    nombre: string,
    email: string,
    telefono: string,
    servicio: string,
    mensaje: string)

  /* ---------------------------------------------------------------- */
  /* Patterns                                                         */
  /* ---------------------------------------------------------------- */

  /** A character of the class `[^\s@]`. */
  predicate Plain(c: char) {
    !IsSpace(c) && c != '@'
  }

  predicate AllPlain(s: string) {
    forall k :: 0 <= k < |s| ==> Plain(s[k])
  }

  /** `s` matches `^[^\s@]+@[^\s@]+\.[^\s@]+$` with the `@` at `i` and the
      escaped dot at `j`. */
  predicate EmailSplit(s: string, i: int, j: int) {
    && 0 < i && i + 1 < j && j + 1 < |s|
    && s[i] == '@' && s[j] == '.'
    && AllPlain(s[..i]) && AllPlain(s[i + 1..j]) && AllPlain(s[j + 1..])
  }

  /** The email pattern of upload.js:180: some choice of the two split
      points matches. */
  function EmailPattern(s: string): (b: bool)
    ensures b ==> 5 <= |s| && '@' in s
  {
    exists i, j | 0 <= i < |s| && 0 <= j < |s| :: EmailSplit(s, i, j)
  }

  /** The same pattern described without split points: no white space,
      exactly one `@`, something before it, and after it a `.` with
      characters on both sides. */
  predicate EmailShape(s: string) {
    && (forall k :: 0 <= k < |s| ==> !IsSpace(s[k]))
    && exists a | 0 < a < |s| ::
         && s[a] == '@'
         && (forall k :: 0 <= k < |s| && k != a ==> s[k] != '@')
         && exists d | a + 1 < d < |s| - 1 :: s[d] == '.'
  }

  lemma EmailSplitIsShape(s: string, i: int, j: int)
    requires EmailSplit(s, i, j)
    ensures EmailShape(s)
  {
    forall k | 0 <= k < |s|
      ensures !IsSpace(s[k])
      ensures k != i ==> s[k] != '@'
    {
      if k < i {
        assert s[k] == s[..i][k];
      } else if i < k < j {
        assert s[k] == s[i + 1..j][k - i - 1];
      } else if j < k {
        assert s[k] == s[j + 1..][k - j - 1];
      }
    }
    assert s[j] == '.';
  }

  lemma EmailShapeHasSplit(s: string)
    requires EmailShape(s)
    ensures EmailPattern(s)
  {
    var a :| 0 < a < |s| && s[a] == '@' && (forall k :: 0 <= k < |s| && k != a ==> s[k] != '@')
              && exists d | a + 1 < d < |s| - 1 :: s[d] == '.';
    var d :| a + 1 < d < |s| - 1 && s[d] == '.';
    var local, host, top := s[..a], s[a + 1..d], s[d + 1..];
    forall k | 0 <= k < |local| ensures Plain(local[k]) {
      assert local[k] == s[k];
    }
    forall k | 0 <= k < |host| ensures Plain(host[k]) {
      assert host[k] == s[a + 1 + k];
    }
    forall k | 0 <= k < |top| ensures Plain(top[k]) {
      assert top[k] == s[d + 1 + k];
    }
    assert EmailSplit(s, a, d);
  }

  /** The regular expression and its description in words agree. */
  lemma EmailPatternIsShape(s: string)
    ensures EmailPattern(s) <==> EmailShape(s)
  {
    if EmailPattern(s) {
      var i, j :| 0 <= i < |s| && 0 <= j < |s| && EmailSplit(s, i, j);
      EmailSplitIsShape(s, i, j);
    }
    if EmailShape(s) {
      EmailShapeHasSplit(s);
    }
  }

  /** An address without a dot after the `@` is refused. */
  lemma TruncatedAddressRefused()
    ensures !EmailPattern("ana@")
  {
    EmailPatternIsShape("ana@");
  }

  /** A character of the class `[\d\s\-\(\)]`. */
  predicate PhoneChar(c: char) {
    IsDigit(c) || IsSpace(c) || c == '-' || c == '(' || c == ')'
  }

  predicate PhoneRun(s: string) {
    7 <= |s| <= 20 && forall k :: 0 <= k < |s| ==> PhoneChar(s[k])
  }

  /** The phone pattern of upload.js:192, `^[\+]?[\d\s\-\(\)]{7,20}$`: an
      optional leading `+`, then 7 to 20 phone characters. */
  function PhonePattern(s: string): (b: bool)
    ensures b ==> 7 <= |s| <= PhoneCap + 1
  {
    PhoneRun(s) || (s != [] && s[0] == '+' && PhoneRun(s[1..]))
  }

  /** The optional `+` is taken whenever the number starts with one, since
      `+` is not a phone character: the pattern holds exactly when what
      follows a leading `+`, or the whole number without one, is a run of
      7 to 20 phone characters. */
  lemma PhonePatternIsShape(s: string)
    ensures PhonePattern(s) <==> PhoneRun(if s != [] && s[0] == '+' then s[1..] else s)
  {
  }

  /** An accepted phone number has 7 to 21 characters, and 21 only with
      the leading `+`. */
  lemma PhonePatternLength(s: string)
    ensures PhonePattern(s) ==> 7 <= |s| <= PhoneCap + 1
    ensures PhonePattern(s) && |s| == PhoneCap + 1 ==> s[0] == '+'
  {
  }

  /* ---------------------------------------------------------------- */
  /* Guards                                                           */
  /* ---------------------------------------------------------------- */

  /** The checks of the handler. */
  datatype Guard = Honeypot | RateLimit | Required | Lengths | EmailFormat | PhoneFormat

  /** A guard's position in the order the handler runs them
      (upload.js:147-200). */
  function Rank(g: Guard): nat {
    match g
    case Honeypot => 0
    case RateLimit => 1
    case Required => 2
    case Lengths => 3
    case EmailFormat => 4
    case PhoneFormat => 5
  }

  /** The honeypot field, hidden from people, was left empty. */
  predicate NotBot(f: Fields) {
    f.honeypot == ""
  }

  /** A minute has passed since the last successful send. */
  predicate RateAllows(now: int, last: int) {
    now - last >= RateLimitMs
  }

  /** Name, email and service are filled in; name and email count only
      after trimming, the service choice is not trimmed. */
  predicate RequiredFilled(f: Fields) {
    Trim(f.nombre) != "" && Trim(f.email) != "" && f.servicio != ""
  }

  /** The trimmed name and email are within their caps. */
  predicate WithinCaps(f: Fields) {
    |Trim(f.nombre)| <= NameCap && |Trim(f.email)| <= EmailCap
  }

  predicate EmailAccepted(f: Fields) {
    EmailPattern(Trim(f.email))
  }

  /** An empty phone is not checked. */
  predicate PhoneAccepted(f: Fields) {
    Trim(f.telefono) == "" || PhonePattern(Trim(f.telefono))
  }

  /** Whether guard `g` lets the submission through, given the clock
      reading `now` and the time `last` of the last successful send. */
  predicate Passes(g: Guard, f: Fields, now: int, last: int) {
    match g
    case Honeypot => NotBot(f)
    case RateLimit => RateAllows(now, last)
    case Required => RequiredFilled(f)
    case Lengths => WithinCaps(f)
    case EmailFormat => EmailAccepted(f)
    case PhoneFormat => PhoneAccepted(f)
  }

  /** The chain of early returns in the handler: the first guard, in
      order, that refuses the submission, if any. */
  function FirstFailing(f: Fields, now: int, last: int): (r: Option<Guard>)
    ensures r.None? <==> forall g :: Passes(g, f, now, last)
    ensures r.Some? ==> && !Passes(r.value, f, now, last)
                        && forall g :: Rank(g) < Rank(r.value) ==> Passes(g, f, now, last)
  {
    if !NotBot(f) then assert !Passes(Honeypot, f, now, last); Some(Honeypot)
    else if !RateAllows(now, last) then assert !Passes(RateLimit, f, now, last); Some(RateLimit)
    else if !RequiredFilled(f) then assert !Passes(Required, f, now, last); Some(Required)
    else if !WithinCaps(f) then assert !Passes(Lengths, f, now, last); Some(Lengths)
    else if !EmailAccepted(f) then assert !Passes(EmailFormat, f, now, last); Some(EmailFormat)
    else if !PhoneAccepted(f) then assert !Passes(PhoneFormat, f, now, last); Some(PhoneFormat)
    else None
  }

  /** Why a submission stopped, and what the user sees: nothing for the
      honeypot, a banner for the rate limit and the length caps, a shaking
      control for the rest. */
  datatype Rejection =
    | Bot
    | TooSoon(secondsLeft: int)
    | MissingFields
    | TooLong
    | BadEmail
    | BadPhone

  function GuardOf(r: Rejection): Guard {
    match r
    case Bot => Honeypot
    case TooSoon(_) => RateLimit
    case MissingFields => Required
    case TooLong => Lengths
    case BadEmail => EmailFormat
    case BadPhone => PhoneFormat
  }

  /** `Math.ceil((60000 - (now - last)) / 1000)`: the whole seconds still to
      wait, rounded up. */
  function SecondsLeft(now: int, last: int): (s: int)
    requires now - last < RateLimitMs
    ensures s >= 1
    ensures (s - 1) * 1000 < RateLimitMs - (now - last) <= s * 1000
  {
    (RateLimitMs - (now - last) + 999) / 1000
  }

  /** Ten seconds after the last send, fifty seconds remain. */
  lemma TenSecondsElapsed(last: int)
    ensures SecondsLeft(last + 10000, last) == 50
  {
  }

  /** The request the form backend receives. */
  datatype Request = Request(
    nombre: string,
    email: string,
    telefono: string,
    servicio: string,
    mensaje: string)

  datatype Decision = Reject(reason: Rejection) | Send(request: Request)

  /** What a failing guard reports. */
  function RejectionBy(g: Guard, now: int, last: int): (r: Rejection)
    requires g == RateLimit ==> now - last < RateLimitMs
    ensures GuardOf(r) == g
  {
    match g
    case Honeypot => Bot
    case RateLimit => TooSoon(SecondsLeft(now, last))
    case Required => MissingFields
    case Lengths => TooLong
    case EmailFormat => BadEmail
    case PhoneFormat => BadPhone
  }

  /** The submit handler up to the network call (upload.js:144-223): the
      first guard that fails decides the rejection; a request is built only
      when every guard passes. */
  function Decide(f: Fields, now: int, last: int, files: seq<FileInfo>): (d: Decision)
    ensures d.Send? <==> forall g :: Passes(g, f, now, last)
    ensures d.Reject? ==> && !Passes(GuardOf(d.reason), f, now, last)
                          && forall g :: Rank(g) < Rank(GuardOf(d.reason)) ==> Passes(g, f, now, last)
    ensures d.Reject? && d.reason.TooSoon? ==>
              (d.reason.secondsLeft - 1) * 1000 < RateLimitMs - (now - last) <= d.reason.secondsLeft * 1000
  {
    match FirstFailing(f, now, last)
    case None => Send(BuildRequest(f, files))
    case Some(g) => Reject(RejectionBy(g, now, last))
  }

  /** The guard example: a name, a service, and an email with nothing
      after the `@` is stopped at the email check, so nothing is sent. */
  lemma IncompleteEmailStopsSubmission(now: int, last: int, files: seq<FileInfo>)
    requires now - last >= RateLimitMs
    ensures Decide(Fields("", "Ana", "ana@", "", "corte", ""), now, last, files) == Reject(BadEmail)
  {
    IncompleteEmailGuards(now, last);
  }

  /** The first guard that example fails is the email check. */
  lemma IncompleteEmailGuards(now: int, last: int)
    requires now - last >= RateLimitMs
    ensures FirstFailing(Fields("", "Ana", "ana@", "", "corte", ""), now, last) == Some(EmailFormat)
  {
    var f := Fields("", "Ana", "ana@", "", "corte", "");
    IncompleteEmailTrims();
    TruncatedAddressRefused();
    assert RequiredFilled(f);
    assert WithinCaps(f);
    assert !EmailAccepted(f);
  }

  lemma IncompleteEmailTrims()
    ensures Trim("Ana") == "Ana"
    ensures Trim("ana@") == "ana@"
  {
    TrimOfUnspaced("Ana");
    TrimOfUnspaced("ana@");
  }

  /** Within a minute of the last send, a submission that is not a bot's
      is told how many whole seconds remain, rounded up. */
  lemma RateLimitReportsWait(f: Fields, now: int, last: int, files: seq<FileInfo>)
    requires f.honeypot == ""
    requires now - last < RateLimitMs
    ensures var d := Decide(f, now, last, files);
            && d.Reject? && d.reason.TooSoon?
            && (d.reason.secondsLeft - 1) * 1000 < RateLimitMs - (now - last) <= d.reason.secondsLeft * 1000
  {
    assert FirstFailing(f, now, last) == Some(RateLimit);
  }

  /* ---------------------------------------------------------------- */
  /* Composing the request                                            */
  /* ---------------------------------------------------------------- */

  const FilesHeading: string := "\n\nArchivos adjuntos ("
  const FilesNote: string := "\n(El cliente debe enviar los archivos por WhatsApp o email)"

  /** `${f.name} (${formatSize(f.size)})`. */
  function FileEntry(file: FileInfo): string {
    file.name + " (" + FormatSize(file.size) + ")"
  }

  function FileEntries(files: seq<FileInfo>): (r: seq<string>)
    ensures |r| == |files|
    ensures forall i :: 0 <= i < |files| ==> r[i] == FileEntry(files[i])
  {
    seq(|files|, i requires 0 <= i < |files| => FileEntry(files[i]))
  }

  /** The user's own text: trimmed, then cut to 2000 characters. */
  function MessageText(raw: string): (t: string)
    ensures |t| <= MessageCap && t <= Trim(raw)
    ensures |Trim(raw)| <= MessageCap ==> t == Trim(raw)
    ensures CutFrom(t, Trim(raw), MessageCap)
  {
    Take(Trim(raw), MessageCap)
  }

  /** The summary appended for attached files: none without files;
      otherwise a heading with their count, one `name (size)` entry each
      separated by commas, and a note that the files travel separately. */
  function FilesSummary(files: seq<FileInfo>): (s: string)
    ensures s == [] <==> files == []
  {
    if files == [] then [] else FilesHeading + Decimal(|files|) + FilesList(files)
  }

  /** What follows the count: the entries and the closing note. */
  function FilesList(files: seq<FileInfo>): string {
    "): " + Join(FileEntries(files), ", ") + FilesNote
  }

  /** upload.js:208-215: the message text followed by the files summary. */
  function ComposeMessage(raw: string, files: seq<FileInfo>): (m: string)
    ensures MessageText(raw) <= m
    ensures files == [] <==> m == MessageText(raw)
  {
    MessageText(raw) + FilesSummary(files)
  }

  /** The summary lists every attached file's entry. */
  lemma SummaryListsEveryFile(files: seq<FileInfo>, i: nat)
    requires i < |files|
    ensures exists p :: OccursAt(FilesSummary(files), FileEntry(files[i]), p)
  {
    var entries := FileEntries(files);
    var head := FilesHeading + Decimal(|files|);
    JoinFramedContainsPart(head, "): ", entries, ", ", FilesNote, i);
    assert FilesSummary(files) == head + FilesList(files);
  }

  /** Every attached file's entry appears in the message. */
  lemma EveryFileListed(raw: string, files: seq<FileInfo>, i: nat)
    requires i < |files|
    ensures exists p :: OccursAt(ComposeMessage(raw, files), FileEntry(files[i]), p)
  {
    SummaryListsEveryFile(files, i);
    var p :| OccursAt(FilesSummary(files), FileEntry(files[i]), p);
    OccursAfter(MessageText(raw), FilesSummary(files), FileEntry(files[i]), p);
    assert ComposeMessage(raw, files) == MessageText(raw) + FilesSummary(files);
    assert OccursAt(ComposeMessage(raw, files), FileEntry(files[i]), |MessageText(raw)| + p);
  }

  /** The count printed after the summary's heading reads back as the
      number of attached files. */
  lemma FileCountReadsBack(files: seq<FileInfo>)
    requires files != []
    ensures var s := FilesSummary(files);
            var count := Decimal(|files|);
            && |FilesHeading| + |count| <= |s|
            && s[..|FilesHeading|] == FilesHeading
            && AllDigits(s[|FilesHeading|..|FilesHeading| + |count|])
            && DigitsValue(s[|FilesHeading|..|FilesHeading| + |count|]) == |files|
  {
    var count := Decimal(|files|);
    var s := FilesSummary(files);
    var x1 := FilesHeading + count;
    assert s == x1 + FilesList(files);
    PrefixSlice(s, x1, 0, |FilesHeading|);
    PrefixSlice(s, x1, |FilesHeading|, |x1|);
    assert x1[..|FilesHeading|] == FilesHeading;
    assert x1[|FilesHeading|..|x1|] == count;
    DecimalRoundTrip(|files|);
  }

  /** upload.js:218-223 as written: name and email cut to their caps, the
      phone cut to 20 characters, the service as chosen, the composed
      message. */
  function BuildRequest(f: Fields, files: seq<FileInfo>): (q: Request)
    ensures CutFrom(q.nombre, Trim(f.nombre), NameCap)
    ensures CutFrom(q.email, Trim(f.email), EmailCap)
    ensures CutFrom(q.telefono, Trim(f.telefono), PhoneCap)
    ensures q.servicio == f.servicio
    ensures q.mensaje == ComposeMessage(f.mensaje, files)
  {
    Request(
      Take(Trim(f.nombre), NameCap),
      Take(Trim(f.email), EmailCap),
      Take(Trim(f.telefono), PhoneCap),
      f.servicio,
      ComposeMessage(f.mensaje, files))
  }

  /** What a sent request carries: once the guards pass, name and email go
      out exactly as trimmed (the length check already bounds them), the
      phone as its first 20 characters, the service as chosen and the
      composed message. */
  lemma SentRequest(f: Fields, now: int, last: int, files: seq<FileInfo>)
    ensures var d := Decide(f, now, last, files);
            d.Send? ==> && d.request.nombre == Trim(f.nombre)
                        && d.request.email == Trim(f.email)
                        && d.request.telefono == Take(Trim(f.telefono), PhoneCap)
                        && d.request.servicio == f.servicio
                        && d.request.mensaje == ComposeMessage(f.mensaje, files)
  {
    if Decide(f, now, last, files).Send? {
      assert Passes(Lengths, f, now, last);
    }
  }

  /** The input that shows the phone being cut: `+` and twenty digits pass
      the pattern, and only the first twenty characters are sent. */
  lemma AcceptedPhoneIsCut()
    ensures var phone := "+12345678901234567890";
            && PhonePattern(phone)
            && Take(phone, PhoneCap) == "+1234567890123456789"
            && Take(phone, PhoneCap) != phone
  {
    var phone := "+12345678901234567890";
    assert PhoneRun(phone[1..]);
  }

  /** The longest phone the pattern admits: a `+` and twenty characters. */
  const PhoneSendCap: nat := PhoneCap + 1

  /** The request with the phone cap matched to the pattern, so that a
      number that passed validation is sent whole. */
  function BuildRequestKeepingPhone(f: Fields, files: seq<FileInfo>): (q: Request)
    ensures CutFrom(q.nombre, Trim(f.nombre), NameCap)
    ensures CutFrom(q.email, Trim(f.email), EmailCap)
    ensures CutFrom(q.telefono, Trim(f.telefono), PhoneSendCap)
    ensures Trim(f.telefono) == "" || PhonePattern(Trim(f.telefono)) ==> q.telefono == Trim(f.telefono)
    ensures q.servicio == f.servicio
    ensures q.mensaje == ComposeMessage(f.mensaje, files)
  {
    var telefono := Trim(f.telefono);
    PhonePatternLength(telefono);
    Request(
      Take(Trim(f.nombre), NameCap),
      Take(Trim(f.email), EmailCap),
      Take(telefono, PhoneSendCap),
      f.servicio,
      ComposeMessage(f.mensaje, files))
  }

  /* ---------------------------------------------------------------- */
  /* The form across submissions                                      */
  /* ---------------------------------------------------------------- */

  /** The error banner's messages, by cause. */
  datatype Banner = WaitBanner(seconds: int) | TooLongBanner | OversizeBanner | SendFailedBanner

  /** What the handler keeps and shows between events: the time of the
      last successful send (a page-wide variable that starts at 0),
      whether a request is in flight (the submit button is then disabled
      and shows its loading label), whether the form or the success panel
      is visible, whether the success panel carries the note about sending
      files separately, and the error banner. */
  datatype Form = Form(
    lastSubmit: int,
    sending: bool,
    formShown: bool,
    successShown: bool,
    filesNote: bool,
    banner: Option<Banner>)

  /** The form at page load: shown, idle, no banner, and `lastSubmitTime`
      at 0. */
  const InitialForm: Form := Form(0, false, true, false, false, None)

  /** The banner a rejection raises; the others only shake controls or,
      for the honeypot, show nothing. */
  function BannerFor(r: Rejection): Option<Banner> {
    match r
    case TooSoon(s) => Some(WaitBanner(s))
    case TooLong => Some(TooLongBanner)
    case _ => None
  }

  datatype SubmitOutcome = SubmitOutcome(form: Form, request: Option<Request>)

  /** A submit event. While a request is in flight the disabled button
      delivers none. A rejection changes nothing but the banner, and only
      for the two causes that raise one; a send hides the banner and marks
      the form as sending. */
  function OnSubmit(st: Form, f: Fields, now: int, files: seq<FileInfo>): (o: SubmitOutcome)
    ensures st.sending ==> o == SubmitOutcome(st, None)
    ensures o.request.Some? <==> !st.sending && forall g :: Passes(g, f, now, st.lastSubmit)
    ensures o.request.Some? ==> && o.request.value == BuildRequest(f, files)
                                && o.form == st.(sending := true, banner := None)
    ensures f.honeypot != "" ==> o == SubmitOutcome(st, None)
    ensures o.request.None? ==> o.form == st.(banner := o.form.banner)
    ensures o.form.lastSubmit == st.lastSubmit
    ensures o.form.successShown == st.successShown && o.form.formShown == st.formShown
    ensures !st.sending && Decide(f, now, st.lastSubmit, files).Reject? ==>
              o.form.banner == match BannerFor(Decide(f, now, st.lastSubmit, files).reason)
                               case Some(b) => Some(b)
                               case None => st.banner
  {
    if st.sending then SubmitOutcome(st, None)
    else
      match Decide(f, now, st.lastSubmit, files)
      case Send(q) => SubmitOutcome(st.(sending := true, banner := None), Some(q))
      case Reject(r) =>
        match BannerFor(r)
        case Some(b) => SubmitOutcome(st.(banner := Some(b)), None)
        case None => SubmitOutcome(st, None)
  }

  /** The response to a sent request (upload.js:232-256), read at clock
      value `at`, with `hasFiles` telling whether files are listed then.
      Success hides the form, shows the success panel and starts the rate
      limit; failure raises the banner and shows no success; either way the
      button is enabled again. */
  function OnResponse(st: Form, ok: bool, at: int, hasFiles: bool): (r: Form)
    ensures !r.sending
    ensures ok ==> && r.lastSubmit == at && !r.formShown && r.successShown
                   && (r.filesNote <==> st.filesNote || hasFiles) && r.banner == st.banner
    ensures !ok ==> && r.lastSubmit == st.lastSubmit
                    && r.formShown == st.formShown && r.successShown == st.successShown
                    && r.filesNote == st.filesNote
                    && r.banner == Some(SendFailedBanner)
  {
    if ok then
      st.(lastSubmit := at, sending := false, formShown := false, successShown := true,
          filesNote := st.filesNote || hasFiles)
    else
      st.(sending := false, banner := Some(SendFailedBanner))
  }

  /** The oversize error of `addFiles` uses the same banner. */
  function OnFilesAdded(st: Form, added: AddResult): (r: Form)
    ensures added.oversize ==> r == st.(banner := Some(OversizeBanner))
    ensures !added.oversize ==> r == st
  {
    if added.oversize then st.(banner := Some(OversizeBanner)) else st
  }

  /** Within a minute of the last successful send, a submission that is
      not a bot's sends nothing and raises the wait banner with the whole
      seconds still to wait. */
  lemma SubmitTooSoonShowsWait(st: Form, g: Fields, now: int, files: seq<FileInfo>)
    requires !st.sending && g.honeypot == ""
    requires now - st.lastSubmit < RateLimitMs
    ensures var o := OnSubmit(st, g, now, files);
            && o.request.None?
            && o.form.banner.Some? && o.form.banner.value.WaitBanner?
            && (o.form.banner.value.seconds - 1) * 1000 < RateLimitMs - (now - st.lastSubmit)
            && RateLimitMs - (now - st.lastSubmit) <= o.form.banner.value.seconds * 1000
  {
    RateLimitReportsWait(g, now, st.lastSubmit, files);
    var d := Decide(g, now, st.lastSubmit, files);
    assert BannerFor(d.reason) == Some(WaitBanner(d.reason.secondsLeft));
  }

  /** A second submission less than a minute after a successful one is
      turned away with a wait of at least the remaining seconds: sent at
      `t0`, answered at `t1 >= t0`, tried again ten seconds after `t0`, the
      user is asked to wait at least 50 seconds and nothing is sent. */
  lemma SecondSubmissionTenSecondsLater(
    st: Form, f: Fields, g: Fields, t0: int, t1: int, files: seq<FileInfo>)
    requires t0 <= t1
    requires g.honeypot == ""
    ensures var first := OnSubmit(st, f, t0, files);
            var answered := OnResponse(first.form, true, t1, files != []);
            var again := OnSubmit(answered, g, t0 + 10000, files);
            first.request.Some? ==>
            && again.request.None?
            && again.form.banner.Some?
            && again.form.banner.value.WaitBanner?
            && again.form.banner.value.seconds >= 50
  {
    var answered := OnResponse(OnSubmit(st, f, t0, files).form, true, t1, files != []);
    SubmitTooSoonShowsWait(answered, g, t0 + 10000, files);
  }

  /** Because `lastSubmitTime` starts at 0, the rate limit never holds back
      the first submission once the clock reads a minute past the epoch:
      it is sent exactly when the other five guards pass. */
  lemma FirstSubmissionNotRateLimited(f: Fields, now: int, files: seq<FileInfo>)
    requires now >= RateLimitMs
    ensures OnSubmit(InitialForm, f, now, files).request.Some?
            <==> forall g | g != RateLimit :: Passes(g, f, now, InitialForm.lastSubmit)
  {
    assert Passes(RateLimit, f, now, InitialForm.lastSubmit);
  }
}
