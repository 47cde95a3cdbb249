/**
 * The login and request-parsing logic of controllers/email_controllers.go:
 * the OTP store behind LoginHandler (send a code, verify it once before it
 * expires), the login e-mail pattern, the UID query parameter, and the
 * recipient and follow-up values GeneratePDF derives from its request. The
 * clock, the random draw, the mail send, the session store and the sender
 * name lookup are inputs.
 */
module EmailControllers {
  import opened Wrappers
  import opened Ascii
  import Decimal
  import SenderName
  import PdfMail

  /* ---------- login e-mail: ^[a-z0-9._%+\-]+@[a-z0-9.\-]+\.[a-z]{2,}$ ---------- */

  predicate LocalChar(c: char) {
    IsLower(c) || IsDigit(c) || c == '.' || c == '_' || c == '%' || c == '+' || c == '-'
  }

  predicate DomainChar(c: char) {
    IsLower(c) || IsDigit(c) || c == '.' || c == '-'
  }

  predicate Every(t: string, p: char -> bool) {
    forall i :: 0 <= i < |t| ==> p(t[i])
  }

  /** What the pattern accepts: local part, '@', domain, '.', and two or more lower-case letters. */
  ghost predicate LoginPattern(s: string) {
    exists a, d :: 0 < a && a + 1 < d && d + 3 <= |s| && s[a] == '@' && s[d] == '.'
      && Every(s[..a], LocalChar) && Every(s[a + 1..d], DomainChar) && Every(s[d + 1..], IsLower)
  }

  /** The index of the last '.', if any. */
  function LastDot(r: string): (k: Option<nat>)
    ensures k.Some? ==> k.value < |r| && r[k.value] == '.' && '.' !in r[k.value + 1..]
    ensures k.None? ==> '.' !in r
  {
    if r == [] then None
    else if r[|r| - 1] == '.' then Some(|r| - 1)
    else
      var k := LastDot(r[..|r| - 1]);
      assert r == r[..|r| - 1] + [r[|r| - 1]];
      if k.Some? then
        assert r[k.value + 1..] == r[..|r| - 1][k.value + 1..] + [r[|r| - 1]];
        k
      else k
  }

  /**
   * The check as a scan: a local part up to the first '@', then the domain
   * split at its last '.', because the final letters cannot hold a '.'.
   */
  predicate ValidLoginEmail(s: string) {
    var a := IndexOf(s, '@');
    0 < a < |s| && Every(s[..a], LocalChar)
    && var r := s[a + 1..];
       var d := LastDot(r);
       d.Some? && 0 < d.value && Every(r[..d.value], DomainChar) && |r| - d.value - 1 >= 2 && Every(r[d.value + 1..], IsLower)
  }

  /** The scan accepts exactly the strings the pattern matches. */
  lemma ValidLoginEmailIsPattern(s: string)
    ensures ValidLoginEmail(s) <==> LoginPattern(s)
  {
    if ValidLoginEmail(s) {
      ScanMatchesLogin(s);
    }
    if LoginPattern(s) {
      var a, d :| 0 < a && a + 1 < d && d + 3 <= |s| && s[a] == '@' && s[d] == '.'
        && Every(s[..a], LocalChar) && Every(s[a + 1..d], DomainChar) && Every(s[d + 1..], IsLower);
      PatternScansLogin(s, a, d);
    }
  }

  lemma {:induction false} ScanMatchesLogin(s: string)
    requires ValidLoginEmail(s)
    ensures LoginPattern(s)
  {
    var a := IndexOf(s, '@');
    var r := s[a + 1..];
    var e := LastDot(r).value;
    var d := a + 1 + e;
    assert s[d] == '.';
    assert s[a + 1..d] == r[..e];
    assert s[d + 1..] == r[e + 1..];
  }

  lemma {:induction false} PatternScansLogin(s: string, a: nat, d: nat)
    requires 0 < a && a + 1 < d && d + 3 <= |s| && s[a] == '@' && s[d] == '.'
    requires Every(s[..a], LocalChar) && Every(s[a + 1..d], DomainChar) && Every(s[d + 1..], IsLower)
    ensures ValidLoginEmail(s)
  {
    NoneOutside(s[..a], '@', LocalChar);
    IndexOfIs(s, '@', a);
    var r := s[a + 1..];
    var e := d - a - 1;
    assert r[..e] == s[a + 1..d];
    assert r[e + 1..] == s[d + 1..];
    NoneOutside(s[d + 1..], '.', IsLower);
    LastDotIs(r, e);
  }

  /** A character that p rejects does not occur in a string whose every character p accepts. */
  lemma NoneOutside(t: string, c: char, p: char -> bool)
    requires Every(t, p) && !p(c)
    ensures c !in t
  {
    forall i | 0 <= i < |t| ensures t[i] != c {
      assert p(t[i]);
    }
  }

  /** The last '.' is at e when r[e] is one and none follows it. */
  lemma LastDotIs(r: string, e: nat)
    requires e < |r| && r[e] == '.' && '.' !in r[e + 1..]
    ensures LastDot(r) == Some(e)
  {
    assert r[e] in r;
  }

  /* ---------- the OTP store ---------- */

  /** A stored code and the instant (in seconds) after which it is refused. */
  datatype Pending = Pending(otp: string, expiration: int)

  /**
   * What LoginHandler answers: the login page with its data, the redirect to
   * the dashboard with the new session's values, or a 400.
   */
  datatype LoginResult =
    | Page(email: string, showOtp: bool, errorMessage: string)
    | Dashboard(user: string, fromName: string)
    | BadRequest(message: string)

  const OtpLifetime: int := 600

  /** The transitions of the store, as a function of the entries before the request. */
  function SendOtpStep(entries: map<string, Pending>, email: string, draw: nat, now: int, sendError: Option<string>): (map<string, Pending>, LoginResult)
    requires draw < 1000000
  {
    if email == "" || !ValidLoginEmail(email) then (entries, Page("", false, "Invalid or empty email."))
    else
      var entries' := entries[email := Pending(SenderName.GenerateOTP(draw), now + OtpLifetime)];
      if sendError.Some? then (entries', Page("", false, "Failed to send OTP: " + sendError.value))
      else (entries', Page(email, true, ""))
  }

  /**
   * `fromName` is what FetchFromNameByEmail answered; `sessionSaves` whether
   * the session store accepted the new session.
   */
  function VerifyOtpStep(entries: map<string, Pending>, email: string, otp: string, now: int,
                         fromName: Result<string, string>, sessionSaves: bool): (map<string, Pending>, LoginResult)
  {
    if email !in entries then (entries, Page(email, false, "Invalid email or OTP session expired."))
    else if now > entries[email].expiration then (entries - {email}, Page(email, false, "OTP has expired. Please request a new one."))
    else if otp != entries[email].otp then (entries, Page(email, true, "Invalid OTP. Please try again."))
    else
      var name := if fromName.Failure? || fromName.value == "" then email else fromName.value;
      if !sessionSaves then (entries - {email}, Page("", false, "Failed to create session. Please try again."))
      else (entries - {email}, Dashboard(email, name))
  }

  /** The package-level otpStore. */
  class OtpStore {
    var entries: map<string, Pending>

    constructor ()
      ensures entries == map[]
    {
      entries := map[];
    }

    /** The "sendotp" action. */
    method SendOtp(email: string, draw: nat, now: int, sendError: Option<string>) returns (r: LoginResult)
      requires draw < 1000000
      modifies this
      ensures (entries, r) == SendOtpStep(old(entries), email, draw, now, sendError)
    {
      if email == "" || !ValidLoginEmail(email) {
        return Page("", false, "Invalid or empty email.");
      }
      var otp := SenderName.GenerateOTP(draw);
      var expiration := now + OtpLifetime;
      entries := entries[email := Pending(otp, expiration)];
      if sendError.Some? {
        return Page("", false, "Failed to send OTP: " + sendError.value);
      }
      return Page(email, true, "");
    }

    /** The "verifyotp" action. */
    method VerifyOtp(email: string, otp: string, now: int, fromName: Result<string, string>, sessionSaves: bool)
      returns (r: LoginResult)
      modifies this
      ensures (entries, r) == VerifyOtpStep(old(entries), email, otp, now, fromName, sessionSaves)
    {
      if email !in entries {
        return Page(email, false, "Invalid email or OTP session expired.");
      }
      var stored := entries[email];
      if now > stored.expiration {
        entries := entries - {email};
        return Page(email, false, "OTP has expired. Please request a new one.");
      }
      if otp != stored.otp {
        return Page(email, true, "Invalid OTP. Please try again.");
      }
      var name := email;
      if fromName.Success? && fromName.value != "" {
        name := fromName.value;
      }
      entries := entries - {email};
      if !sessionSaves {
        return Page("", false, "Failed to create session. Please try again.");
      }
      return Dashboard(email, name);
    }

    /**
     * A POST to the login page: an unparsable form is a 400 page, then the
     * "action" field chooses sending or verifying a code; any other action
     * is a 400. `form` is None when the form does not parse.
     */
    method Login(form: Option<LoginForm>, draw: nat, now: int, sendError: Option<string>,
                 fromName: Result<string, string>, sessionSaves: bool) returns (r: LoginResult)
      requires draw < 1000000
      modifies this
      ensures (entries, r) == LoginStep(old(entries), form, draw, now, sendError, fromName, sessionSaves)
    {
      if form.None? {
        return BadRequest("Failed to process form data.");
      }
      var f := form.value;
      if f.action == "sendotp" {
        r := SendOtp(f.email, draw, now, sendError);
      } else if f.action == "verifyotp" {
        r := VerifyOtp(f.email, f.otp, now, fromName, sessionSaves);
      } else {
        r := BadRequest("Invalid action");
      }
    }
  }

  /** The posted form fields LoginHandler reads. */
  datatype LoginForm = LoginForm(action: string, email: string, otp: string)

  function LoginStep(entries: map<string, Pending>, form: Option<LoginForm>, draw: nat, now: int, sendError: Option<string>,
                     fromName: Result<string, string>, sessionSaves: bool): (map<string, Pending>, LoginResult)
    requires draw < 1000000
  {
    if form.None? then (entries, BadRequest("Failed to process form data."))
    else if form.value.action == "sendotp" then SendOtpStep(entries, form.value.email, draw, now, sendError)
    else if form.value.action == "verifyotp" then
      VerifyOtpStep(entries, form.value.email, form.value.otp, now, fromName, sessionSaves)
    else (entries, BadRequest("Invalid action"))
  }

  /** Only a verified code opens a session: no other request leads to the dashboard. */
  lemma DashboardOnlyAfterVerify(entries: map<string, Pending>, form: Option<LoginForm>, draw: nat, now: int,
                                 sendError: Option<string>, fromName: Result<string, string>, sessionSaves: bool)
    requires draw < 1000000
    ensures LoginStep(entries, form, draw, now, sendError, fromName, sessionSaves).1.Dashboard? <==>
      form.Some? && form.value.action == "verifyotp" && form.value.email in entries
      && now <= entries[form.value.email].expiration && form.value.otp == entries[form.value.email].otp && sessionSaves
    ensures form.None? || form.value.action !in {"sendotp", "verifyotp"} ==>
      LoginStep(entries, form, draw, now, sendError, fromName, sessionSaves).0 == entries
  {
    if form.Some? && form.value.action == "verifyotp" {
      VerifyOtpLogsInOnlyWithCode(entries, form.value.email, form.value.otp, now, fromName, sessionSaves);
    }
  }

  /** A rejected address leaves the store alone; an accepted one replaces any earlier code, even when sending fails. */
  lemma SendOtpStores(entries: map<string, Pending>, email: string, draw: nat, now: int, sendError: Option<string>)
    requires draw < 1000000
    ensures !LoginPattern(email) ==> SendOtpStep(entries, email, draw, now, sendError).0 == entries
    ensures LoginPattern(email) ==>
      var e := SendOtpStep(entries, email, draw, now, sendError).0;
      email in e && e[email].expiration == now + OtpLifetime && |e[email].otp| == 6
      && Decimal.AllDigits(e[email].otp) && Decimal.Value(e[email].otp) == draw
      && forall x :: x in entries && x != email ==> x in e && e[x] == entries[x]
  {
    ValidLoginEmailIsPattern(email);
  }

  /** Only the stored code, before its expiry, logs in; and then the code is gone. */
  lemma VerifyOtpLogsInOnlyWithCode(entries: map<string, Pending>, email: string, otp: string, now: int,
                                    fromName: Result<string, string>, sessionSaves: bool)
    ensures VerifyOtpStep(entries, email, otp, now, fromName, sessionSaves).1.Dashboard? <==>
      email in entries && now <= entries[email].expiration && otp == entries[email].otp && sessionSaves
    ensures VerifyOtpStep(entries, email, otp, now, fromName, sessionSaves).1.Dashboard? ==>
      email !in VerifyOtpStep(entries, email, otp, now, fromName, sessionSaves).0
  {
  }

  /** An expired code is refused even when it is right, and the entry is removed. */
  lemma ExpiredCodeRefused(entries: map<string, Pending>, email: string, now: int, fromName: Result<string, string>, sessionSaves: bool)
    requires email in entries && now > entries[email].expiration
    ensures var (e, r) := VerifyOtpStep(entries, email, entries[email].otp, now, fromName, sessionSaves);
      r.Page? && r.errorMessage == "OTP has expired. Please request a new one." && e == entries - {email}
  {
  }

  /** A wrong code before expiry keeps the entry, so the user can try again. */
  lemma WrongCodeKeepsEntry(entries: map<string, Pending>, email: string, otp: string, now: int,
                            fromName: Result<string, string>, sessionSaves: bool)
    requires email in entries && now <= entries[email].expiration && otp != entries[email].otp
    ensures var (e, r) := VerifyOtpStep(entries, email, otp, now, fromName, sessionSaves);
      e == entries && r == Page(email, true, "Invalid OTP. Please try again.")
  {
  }

  /** A code logs in at most once: verifying it again finds no entry. */
  lemma {:induction false} CodeIsSingleUse(entries: map<string, Pending>, email: string, otp: string, now: int, later: int,
                          fromName: Result<string, string>, sessionSaves: bool)
    requires VerifyOtpStep(entries, email, otp, now, fromName, sessionSaves).1.Dashboard?
    ensures var e := VerifyOtpStep(entries, email, otp, now, fromName, sessionSaves).0;
      VerifyOtpStep(e, email, otp, later, fromName, sessionSaves) == (e, Page(email, false, "Invalid email or OTP session expired."))
  {
    VerifyOtpLogsInOnlyWithCode(entries, email, otp, now, fromName, sessionSaves);
  }

  /** The session's sender name is the looked-up name, or the address when the lookup fails or finds nothing. */
  lemma SessionName(entries: map<string, Pending>, email: string, otp: string, now: int,
                    fromName: Result<string, string>, sessionSaves: bool)
    requires VerifyOtpStep(entries, email, otp, now, fromName, sessionSaves).1.Dashboard?
    ensures var r := VerifyOtpStep(entries, email, otp, now, fromName, sessionSaves).1;
      r.user == email && (email != "" ==> r.fromName != "")
      && r.fromName == (if fromName.Success? && fromName.value != "" then fromName.value else email)
  {
  }

  /* ---------- query parameters ---------- */

  datatype UidParam = MissingUid | InvalidUid(error: Decimal.ParseError) | Uid(value: nat)

  /** GetPlainTextEmailBody's uid: required, then strconv.ParseUint(uid, 10, 32). */
  function ParseUid(uid: string): (r: UidParam)
    ensures r == MissingUid <==> uid == ""
    ensures r.Uid? <==> uid != "" && Decimal.AllDigits(uid) && Decimal.Value(uid) <= Decimal.MaxUint32
    ensures r.Uid? ==> r.value == Decimal.Value(uid)
  {
    if uid == "" then MissingUid
    else match Decimal.ParseUint32(uid)
      case Failure(e) => InvalidUid(e)
      case Success(v) => Uid(v)
  }

  /** GetAttachment's email_id: strconv.ParseUint(email_id, 10, 32), an empty value included. */
  function ParseEmailId(emailId: string): (r: Option<nat>)
    ensures r.Some? <==> emailId != "" && Decimal.AllDigits(emailId) && Decimal.Value(emailId) <= Decimal.MaxUint32
    ensures r.Some? ==> r.value == Decimal.Value(emailId)
  {
    match Decimal.ParseUint32(emailId)
    case Failure(_) => None
    case Success(v) => Some(v)
  }

  /** Every 32-bit UID, written in decimal, is accepted as itself. */
  lemma ParseUidOfItoa(n: nat)
    requires n <= Decimal.MaxUint32
    ensures ParseUid(Decimal.Itoa(n)) == Uid(n)
    ensures ParseEmailId(Decimal.Itoa(n)) == Some(n)
  {
    Decimal.ParseItoa(n);
  }

  /* ---------- GeneratePDF ---------- */

  /** The JSON body of POST /generate-pdf. */
  datatype PdfRequest = PdfRequest(mobile: string, doctorName: string, opdNotes: string, prescription: string,
                                   opdDate: string, followupDate: string, followupTime: string, createdOn: string)

  const PatientDomain: string := "@reportsofme.com"

  /** The recipient is the raw mobile number at the fixed domain. */
  function PdfRecipient(r: PdfRequest): string {
    r.mobile + PatientDomain
  }

  /** The follow-up date and time, joined by a space and trimmed. */
  function FollowUp(r: PdfRequest): string {
    TrimSpace(r.followupDate + " " + r.followupTime)
  }

  /** The visit record passed on; the creation stamp is the formatted clock. */
  function OpdOf(r: PdfRequest, now: string): PdfMail.Opd {
    PdfMail.Opd(TrimSpace(r.mobile), TrimSpace(r.doctorName), TrimSpace(r.opdDate), TrimSpace(r.opdNotes),
                TrimSpace(r.prescription), FollowUp(r), now)
  }

  /** The follow-up is blank exactly when both the date and the time are blank. */
  lemma FollowUpBlank(r: PdfRequest)
    ensures FollowUp(r) == "" <==> AllSpace(r.followupDate) && AllSpace(r.followupTime)
  {
    var j := r.followupDate + " " + r.followupTime;
    TrimSpaceEmpty(j);
    AllSpaceAppend(r.followupDate + " ", r.followupTime);
    AllSpaceAppend(r.followupDate, " ");
    assert AllSpace(" ");
  }

  /** The PDF recipient is an address whose local part is the mobile number as sent. */
  lemma PdfRecipientShape(r: PdfRequest)
    ensures '@' !in r.mobile ==> IndexOf(PdfRecipient(r), '@') == |r.mobile|
    ensures PdfRecipient(r)[..|r.mobile|] == r.mobile
  {
    var e := PdfRecipient(r);
    assert e[|r.mobile|] == '@';
    if '@' !in r.mobile {
      assert e[..|r.mobile|] == r.mobile;
    }
  }

  datatype PdfReply = PdfReply(status: nat, message: string)

  /**
   * GeneratePDF: a body that does not bind is a 400, a missing session value
   * a 401; otherwise the service's error is a 500 carrying its text, a panic
   * in the service is the empty 500 of gin's recovery middleware, and
   * anything else, a skipped follow-up included, a 200.
   */
  function GeneratePdfReply(body: Option<PdfRequest>, loggedInEmail: Option<string>, fromName: Option<string>,
                            now: string, w: PdfMail.World, keys: seq<string>): (r: PdfReply)
    requires body.Some? ==> forall j :: 0 <= j < |keys| ==> keys[j] in PdfMail.Replacements(OpdOf(body.value, now))
    ensures r.status in {200, 400, 401, 500}
    ensures r.status == 400 <==> body.None?
    ensures r.status == 401 <==> body.Some? && (loggedInEmail.None? || fromName.None?)
    ensures r.status == 500 <==>
      (body.Some? && loggedInEmail.Some? && fromName.Some?
       && var g := PdfMail.Generate(OpdOf(body.value, now), PdfRecipient(body.value), loggedInEmail.value, fromName.value, w, keys);
          g.Failed? || g.Panicked?)
    ensures r.status == 500 ==>
      var g := PdfMail.Generate(OpdOf(body.value, now), PdfRecipient(body.value), loggedInEmail.value, fromName.value, w, keys);
      r.message == (if g.Failed? then g.reason else "")
  {
    if body.None? then PdfReply(400, "Invalid request body")
    else if loggedInEmail.None? then PdfReply(401, "Unauthorized: logged-in email not found")
    else if fromName.None? then PdfReply(401, "Unauthorized: fromName not found")
    else match PdfMail.Generate(OpdOf(body.value, now), PdfRecipient(body.value), loggedInEmail.value, fromName.value, w, keys)
      case Failed(reason) => PdfReply(500, reason)
      case Panicked => PdfReply(500, "")
      case _ => PdfReply(200, "\U{2705} PDF generated and emailed successfully!")
  }

  /** A blank follow-up date and time are answered with the success reply although no mail is sent. */
  lemma BlankFollowUpReportsSuccess(body: PdfRequest, loggedInEmail: string, fromName: string, now: string,
                                    w: PdfMail.World, keys: seq<string>)
    requires forall j :: 0 <= j < |keys| ==> keys[j] in PdfMail.Replacements(OpdOf(body, now))
    requires AllSpace(body.followupDate) && AllSpace(body.followupTime) && w.template.Success?
    ensures PdfMail.Generate(OpdOf(body, now), PdfRecipient(body), loggedInEmail, fromName, w, keys) == PdfMail.Skipped
    ensures GeneratePdfReply(Some(body), Some(loggedInEmail), Some(fromName), now, w, keys).status == 200
  {
    FollowUpBlank(body);
  }

  /** A message the SMTP server refuses is answered 500 with the server's answer in the error text. */
  lemma SendRefusedIs500(body: PdfRequest, loggedInEmail: string, fromName: string, now: string,
                         w: PdfMail.World, keys: seq<string>)
    requires forall j :: 0 <= j < |keys| ==> keys[j] in PdfMail.Replacements(OpdOf(body, now))
    requires w.template.Success? && FollowUp(body) != ""
    requires w.writeError.None? && w.compileError.None? && w.pdf.Some? && w.pdf.value != [] && w.readError.None?
    requires w.config.err.None? && w.config.config.Some? && w.emailBody.Success? && w.sendError.Some?
    ensures GeneratePdfReply(Some(body), Some(loggedInEmail), Some(fromName), now, w, keys)
      == PdfReply(500, PdfMail.SendPrefix + ("failed to send email: " + w.sendError.value))
  {
    var o := OpdOf(body, now);
    var to := PdfRecipient(body);
    PdfMail.DeliverFailures(o, to, loggedInEmail, fromName, w);
    assert PdfMail.Generate(o, to, loggedInEmail, fromName, w, keys)
      == PdfMail.Failed(PdfMail.SendPrefix + ("failed to send email: " + w.sendError.value));
  }
}
