/**
 * The new-patient registration mail (services/sendEmailAddPatient.go): the
 * recipient completed with the configured domain, the patient fields
 * trimmed, the default sender name, and the header block and HTML body in
 * their fixed order. The Date header's text (time formatting) is an input;
 * the SMTP send itself is I/O and is not part of this model.
 */
module RegistrationMail {
  import opened Wrappers
  import opened Ascii
  import SmtpConfig

  /** models.PatientDataModel */
  datatype PatientData = PatientData(
    patientName: string, email: string, mobile: string, dob: string,
    gender: string, doctorId: string, doctorName: string)

  /** The message handed to the SMTP server and its single recipient. */
  datatype Mail = Mail(to: string, message: string)

  /**
   * How SendEmailNewPatientRegistration gets on before the send: the mail is
   * ready, the loader's error is returned, or a nil configuration with no
   * error is dereferenced and the call panics.
   */
  datatype Composed = Ready(mail: Mail) | Failed(reason: string) | Panicked

  const DefaultSender: string := "Doctor"
  const Subject: string := "New Patient Registration"

  /** A bare mobile number (no '@', at least ten characters) gets the domain appended. */
  function Recipient(recipientEmail: string, domain: string): (r: string)
    ensures '@' !in recipientEmail && |recipientEmail| >= 10 ==> r == recipientEmail + domain
    ensures '@' in recipientEmail || |recipientEmail| < 10 ==> r == recipientEmail
  {
    if '@' !in recipientEmail && |recipientEmail| >= 10 then recipientEmail + domain else recipientEmail
  }

  /** The recipient is only ever extended, and an address that already has '@' is kept. */
  lemma RecipientExtends(recipientEmail: string, domain: string)
    ensures Recipient(recipientEmail, domain)[..|recipientEmail|] == recipientEmail
    ensures '@' in domain && |recipientEmail| >= 10 ==> '@' in Recipient(recipientEmail, domain)
    ensures '@' in domain ==> Recipient(Recipient(recipientEmail, domain), domain) == Recipient(recipientEmail, domain)
  {
    var r := Recipient(recipientEmail, domain);
    if '@' in domain && r != recipientEmail {
      assert r == recipientEmail + domain;
      var k :| 0 <= k < |domain| && domain[k] == '@';
      assert r[|recipientEmail| + k] == '@';
    }
  }

  /** The fields the message uses, each with white space trimmed; DoctorName is dropped. */
  function Trimmed(p: PatientData): PatientData {
    PatientData(TrimSpace(p.patientName), TrimSpace(p.email), TrimSpace(p.mobile),
                TrimSpace(p.dob), TrimSpace(p.gender), TrimSpace(p.doctorId), "")
  }

  predicate FieldTrimmed(s: string) {
    s == [] || (!IsSpace(s[0]) && !IsSpace(s[|s| - 1]))
  }

  /** A trimmed field has no surrounding white space, so trimming it again changes nothing. */
  lemma TrimmedField(s: string)
    ensures FieldTrimmed(TrimSpace(s))
    ensures TrimSpace(TrimSpace(s)) == TrimSpace(s)
  {
    TrimSpaceOfTrimmed(TrimSpace(s));
  }

  /** Every field the message shows is trimmed, so trimming the record again changes nothing. */
  lemma TrimmedIdempotent(p: PatientData)
    ensures var t := Trimmed(p);
      FieldTrimmed(t.patientName) && FieldTrimmed(t.email) && FieldTrimmed(t.mobile)
      && FieldTrimmed(t.dob) && FieldTrimmed(t.gender) && FieldTrimmed(t.doctorId)
    ensures Trimmed(Trimmed(p)) == Trimmed(p)
  {
    TrimmedField(p.patientName);
    TrimmedField(p.email);
    TrimmedField(p.mobile);
    TrimmedField(p.dob);
    TrimmedField(p.gender);
    TrimmedField(p.doctorId);
  }

  /** An empty sender name becomes "Doctor"; any other is kept. */
  function SenderName(fromName: string): (r: string)
    ensures r != []
    ensures fromName != [] ==> r == fromName
    ensures fromName == [] ==> r == DefaultSender
  {
    if fromName == [] then DefaultSender else fromName
  }

  /** One "<p>Label: value</p>" line of the body. */
  function Line(key: string, value: string): string {
    "\n                <p>" + key + ": " + value + "</p>"
  }

  /** The fixed opening of the HTML body, up to the patient fields. */
  const Greeting: string :=
    "\n        <html>\n            <body>\n                <p>Hello,</p>"
    + "\n                <p>We are pleased to inform you that your registration is complete.</p>"
    + "\n                <p><strong>Patient Information:</strong></p>"

  /** The fixed close of the HTML body. */
  const Closing: string := "\n            </body>\n        </html>"

  /** The HTML body: a fixed greeting, then Name, Email, Mobile, DOB and Gender in that order. */
  function Body(t: PatientData): string {
    Greeting
    + Line("Name", t.patientName) + Line("Email", t.email) + Line("Mobile", t.mobile)
    + Line("DOB", t.dob) + Line("Gender", t.gender)
    + Closing
  }

  const MimeVersion: string := "MIME-Version: 1.0"
  const ContentType: string := "Content-Type: text/html; charset=\"utf-8\""

  /** The header lines, in order, each ended by CRLF. */
  function Headers(fromName: string, doctorId: string, to: string, date: string): seq<string> {
    [ "From: \"" + fromName + "\" <" + doctorId + ">",
      "To: " + to,
      "Subject: " + Subject,
      "Date: " + date,
      MimeVersion,
      ContentType ]
  }

  function JoinLines(lines: seq<string>): (r: string)
    ensures |lines| > 0 ==> |r| >= |lines[0]| + 2
    ensures |lines| > 0 ==> r[..|lines[0]| + 2] == lines[0] + "\r\n"
  {
    if lines == [] then "" else lines[0] + "\r\n" + JoinLines(lines[1..])
  }

  /**
   * The message SendEmailNewPatientRegistration sends, given the SMTP
   * configuration loader's answer: its error is wrapped and returned before
   * anything else; a nil configuration without an error panics at the first
   * field read (the domain for a bare mobile, the sender otherwise).
   */
  function Compose(p: PatientData, recipientEmail: string, fromName: string, config: SmtpConfig.Loaded, date: string): (r: Composed)
    ensures r.Failed? <==> config.err.Some?
    ensures r.Failed? ==> r.reason == "failed to load SMTP config: " + config.err.value
    ensures r.Panicked? <==> config.err.None? && config.config.None?
    ensures r.Ready? ==> r.mail.to == Recipient(recipientEmail, config.config.value.domain)
  {
    if config.err.Some? then Failed("failed to load SMTP config: " + config.err.value)
    else if config.config.None? then Panicked
    else
      var to := Recipient(recipientEmail, config.config.value.domain);
      var t := Trimmed(p);
      Ready(Mail(to, JoinLines(Headers(SenderName(fromName), t.doctorId, to, date)) + "\r\n" + Body(t)))
  }

  /**
   * The message opens with the From line naming the (defaulted) sender and the
   * trimmed doctor id.
   */
  lemma {:induction false} ComposeFromLine(p: PatientData, recipientEmail: string, fromName: string, c: SmtpConfig.Config, date: string)
    ensures var m := Compose(p, recipientEmail, fromName, SmtpConfig.Loaded(Some(c), None), date).mail.message;
      var from := "From: \"" + SenderName(fromName) + "\" <" + TrimSpace(p.doctorId) + ">" + "\r\n";
      |m| >= |from| && m[..|from|] == from
  {
    var t := Trimmed(p);
    var hs := Headers(SenderName(fromName), t.doctorId, Recipient(recipientEmail, c.domain), date);
    var from := hs[0] + "\r\n";
    PrefixOfAppends(JoinLines(hs), "\r\n", Body(t), from);
  }

  lemma PrefixOfAppends<T>(a: seq<T>, b: seq<T>, c: seq<T>, p: seq<T>)
    requires |p| <= |a| && a[..|p|] == p
    ensures |a + b + c| >= |p| && (a + b + c)[..|p|] == p
  {
    assert (a + b + c)[..|p|] == a[..|p|];
  }

  /**
   * The whole message: the six header lines From, To, Subject, Date,
   * MIME-Version and Content-Type, each ended by CRLF, an empty line, then the
   * HTML body with Name, Email, Mobile, DOB and Gender in that order, every
   * value trimmed.
   */
  lemma {:induction false} ComposeLayout(p: PatientData, recipientEmail: string, fromName: string, c: SmtpConfig.Config, date: string)
    ensures var m := Compose(p, recipientEmail, fromName, SmtpConfig.Loaded(Some(c), None), date).mail.message;
      var t := Trimmed(p);
      m == ("From: \"" + SenderName(fromName) + "\" <" + TrimSpace(p.doctorId) + ">" + "\r\n")
           + ("To: " + Recipient(recipientEmail, c.domain) + "\r\n")
           + ("Subject: " + Subject + "\r\n")
           + ("Date: " + date + "\r\n")
           + (MimeVersion + "\r\n")
           + (ContentType + "\r\n")
           + "\r\n"
           + (Greeting + Line("Name", TrimSpace(p.patientName)) + Line("Email", TrimSpace(p.email))
              + Line("Mobile", TrimSpace(p.mobile)) + Line("DOB", TrimSpace(p.dob)) + Line("Gender", TrimSpace(p.gender))
              + Closing)
  {
    var t := Trimmed(p);
    var hs := Headers(SenderName(fromName), t.doctorId, Recipient(recipientEmail, c.domain), date);
    JoinSix(hs[0], hs[1], hs[2], hs[3], hs[4], hs[5]);
    assert hs == [hs[0], hs[1], hs[2], hs[3], hs[4], hs[5]];
    Unnest(hs[0] + "\r\n", hs[1] + "\r\n", hs[2] + "\r\n", hs[3] + "\r\n", hs[4] + "\r\n", hs[5] + "\r\n", "\r\n", Body(t));
  }

  /** Six lines joined: each followed by its CRLF. */
  lemma JoinSix(a: string, b: string, c: string, d: string, e: string, f: string)
    ensures JoinLines([a, b, c, d, e, f])
      == (a + "\r\n") + ((b + "\r\n") + ((c + "\r\n") + ((d + "\r\n") + ((e + "\r\n") + ((f + "\r\n") + "")))))
  {
    JoinLinesCons(f, []);
    JoinLinesCons(e, [f]);
    JoinLinesCons(d, [e, f]);
    JoinLinesCons(c, [d, e, f]);
    JoinLinesCons(b, [c, d, e, f]);
    JoinLinesCons(a, [b, c, d, e, f]);
  }

  lemma JoinLinesCons(l: string, rest: seq<string>)
    ensures JoinLines([l] + rest) == (l + "\r\n") + JoinLines(rest)
  {
    assert ([l] + rest)[1..] == rest;
  }

  lemma Unnest<T>(l0: seq<T>, l1: seq<T>, l2: seq<T>, l3: seq<T>, l4: seq<T>, l5: seq<T>, nl: seq<T>, body: seq<T>)
    ensures l0 + (l1 + (l2 + (l3 + (l4 + (l5 + []))))) + nl + body == l0 + l1 + l2 + l3 + l4 + l5 + nl + body
  {
    assert l5 + [] == l5;
  }

}
