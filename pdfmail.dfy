/**
 * The OPD (out-patient visit) PDF mail (services/generateAndSendPdf.go, and
 * the older SendEmailWithAttachment in services/email_services.go): the
 * follow-up guard, the placeholder replacement in the Typst template, the
 * space-free file names, and the multipart/mixed message whose PDF part is
 * base64 text wrapped at 76 characters and closed by the boundary's close
 * delimiter (sections 5.1.1 of RFC 2046 and 6.8 of RFC 2045). Rendering the
 * HTML body, compiling the PDF, the file system and the SMTP send are I/O:
 * their results are inputs.
 */
module PdfMail {
  import opened Wrappers
  import opened Ascii
  import Seqs
  import Base64
  import SmtpConfig

  const Boundary: string := "boundary-opd-email-12345"
  const LineWidth: nat := 76
  const SubjectWidth: nat := 30

  /* ---------- truncate ---------- */

  /** truncate(s, max): s itself when it fits, else its first max characters. */
  function Truncate(s: string, max: nat): (r: string)
    ensures |r| == (if |s| <= max then |s| else max)
    ensures r == s[..|r|]
  {
    if |s| <= max then s else s[..max]
  }

  /** Truncating to a width a string already fits changes nothing, and truncating twice is truncating once. */
  lemma TruncateIdempotent(s: string, max: nat)
    ensures Truncate(Truncate(s, max), max) == Truncate(s, max)
    ensures |s| <= max ==> Truncate(s, max) == s
  {
  }

  /* ---------- the 76-column wrap ---------- */

  /** The slices encoded[i:end] the wrap loop emits, for i = 0, 76, 152, ... */
  function Chunks(s: string): seq<string>
    decreases |s|
  {
    if s == [] then []
    else if |s| <= LineWidth then [s]
    else [s[..LineWidth]] + Chunks(s[LineWidth..])
  }

  function Crlf(line: string): string {
    line + "\r\n"
  }

  function Id(line: string): string {
    line
  }

  /** The lines as written, each followed by CRLF. */
  function Framed(lines: seq<string>): string {
    Seqs.FlatMap(Crlf, lines)
  }

  /** The lines joined without separators. */
  function Concat(lines: seq<string>): string {
    Seqs.FlatMap(Id, lines)
  }

  /**
   * The wrap loses and adds nothing: the lines join back into the encoded
   * text, each has 1 to 76 characters, every line but the last has exactly 76,
   * and there are ceil(n / 76) of them.
   */
  lemma {:induction false} ChunksShape(s: string)
    ensures Concat(Chunks(s)) == s
    ensures forall k :: 0 <= k < |Chunks(s)| ==> 0 < |Chunks(s)[k]| <= LineWidth
    ensures forall k :: 0 <= k < |Chunks(s)| - 1 ==> |Chunks(s)[k]| == LineWidth
    ensures |Chunks(s)| == (|s| + LineWidth - 1) / LineWidth
    decreases |s|
  {
    if s != [] && |s| > LineWidth {
      var c := Chunks(s);
      var rest := Chunks(s[LineWidth..]);
      ChunksShape(s[LineWidth..]);
      assert c == [s[..LineWidth]] + rest;
      assert c[1..] == rest;
      assert Concat(c) == s[..LineWidth] + Concat(rest);
      assert s == s[..LineWidth] + s[LineWidth..];
      forall k | 0 <= k < |c|
        ensures 0 < |c[k]| <= LineWidth && (k < |c| - 1 ==> |c[k]| == LineWidth)
      {
        if k > 0 {
          assert c[k] == rest[k - 1];
        }
      }
    } else if s != [] {
      Seqs.FlatMapSingle(Id, s);
    }
  }

  /** What is left of the encoded text from offset i on. */
  function Rest(s: string, i: nat): string {
    if i < |s| then s[i..] else []
  }

  lemma ChunkStep(s: string, i: nat)
    requires i < |s|
    ensures var end := if i + LineWidth > |s| then |s| else i + LineWidth;
      Chunks(s[i..]) == [s[i..end]] + Chunks(Rest(s, i + LineWidth))
  {
    var t := s[i..];
    if |t| > LineWidth {
      assert t[..LineWidth] == s[i..i + LineWidth];
      assert t[LineWidth..] == s[i + LineWidth..];
    } else {
      assert Chunks(t) == [t];
      assert Rest(s, i + LineWidth) == [];
      assert s[i..|s|] == t;
    }
  }

  /** The strings.Builder loop: one slice of at most 76 characters and a CRLF per step. */
  method WrapLines(encoded: string) returns (out: string)
    ensures out == Framed(Chunks(encoded))
  {
    out := "";
    var i := 0;
    assert Rest(encoded, 0) == encoded;
    while i < |encoded|
      invariant 0 <= i
      invariant out + Framed(Chunks(Rest(encoded, i))) == Framed(Chunks(encoded))
      decreases |encoded| - i
    {
      var end := i + LineWidth;
      if end > |encoded| {
        end := |encoded|;
      }
      ChunkStep(encoded, i);
      var line := encoded[i..end];
      FrameStep(out, line, Chunks(Rest(encoded, i + LineWidth)), Framed(Chunks(encoded)));
      out := out + (line + "\r\n");
      i := i + LineWidth;
    }
  }

  /** Writing the first line and its CRLF leaves the framing of the rest to write. */
  lemma FrameStep(out: string, line: string, rest: seq<string>, whole: string)
    requires out + Framed([line] + rest) == whole
    ensures out + (line + "\r\n") + Framed(rest) == whole
  {
    assert ([line] + rest)[0] == line && ([line] + rest)[1..] == rest;
    assert Framed([line] + rest) == line + "\r\n" + Framed(rest);
  }

  /** Besides CRLFs, the wrapped text holds only characters of the text it wraps. */
  lemma {:induction false} FramedChars(s: string)
    ensures forall c :: c in Framed(Chunks(s)) ==> c in s || c == '\r' || c == '\n'
    decreases |s|
  {
    var c := Chunks(s);
    if s != [] {
      var line := if |s| <= LineWidth then s else s[..LineWidth];
      var rest := if |s| <= LineWidth then [] else Chunks(s[LineWidth..]);
      assert c == [line] + rest;
      assert c[0] == line && c[1..] == rest;
      assert Framed(c) == line + "\r\n" + Framed(rest);
      if |s| > LineWidth {
        FramedChars(s[LineWidth..]);
        assert forall x :: x in s[LineWidth..] ==> x in s;
      }
      assert forall x :: x in line ==> x in s;
    }
  }

  /**
   * The attachment text holds only base64 characters and CRLFs; without a
   * '-' no line of it can be taken for a boundary delimiter.
   */
  lemma AttachmentTextClean(attachment: seq<Base64.Byte>)
    ensures forall c :: c in Framed(Chunks(Base64.Encode(attachment))) ==>
      Base64.IsEncodingChar(c) || c == '\r' || c == '\n'
    ensures '-' !in Framed(Chunks(Base64.Encode(attachment)))
  {
    FramedChars(Base64.Encode(attachment));
  }

  /** A reader that joins the attachment lines and decodes them gets the PDF's bytes back. */
  lemma AttachmentRoundTrip(attachment: seq<Base64.Byte>)
    ensures Base64.Decode(Concat(Chunks(Base64.Encode(attachment)))) == Some(attachment)
  {
    ChunksShape(Base64.Encode(attachment));
    Base64.DecodeEncode(attachment);
  }

  /* ---------- the message ---------- */

  /** The current SendEmailWithAttachment, or the older one in services/email_services.go. */
  datatype Version = Current | Legacy

  /** The Subject header: the first 30 characters of the raw notes; the older version uses its subject argument. */
  function SubjectOf(v: Version, subject: string, opdNotes: string): string {
    match v
    case Current => Truncate(opdNotes, SubjectWidth)
    case Legacy => subject
  }

  /** The header block, the HTML part and the PDF part's headers: everything before the base64 lines. */
  function Head(fromName: string, loggedInEmail: string, recipient: string, subjectLine: string, date: string,
                emailBody: string, filename: string): string {
    TopHeaders(fromName, loggedInEmail, recipient, subjectLine, date) + HtmlPart(emailBody) + PdfPartFields(filename) + "\r\n"
  }

  function TopHeaders(fromName: string, loggedInEmail: string, recipient: string, subjectLine: string, date: string): string {
    "From: \"" + fromName + "\" <" + loggedInEmail + ">\r\n"
    + "To: " + recipient + "\r\n"
    + "Subject: " + subjectLine + "\r\n"
    + "Date: " + date + "\r\n"
    + "MIME-Version: 1.0\r\n"
    + "Content-Type: multipart/mixed; boundary=" + Boundary + "\r\n"
  }

  function HtmlPart(emailBody: string): string {
    "\r\n--" + Boundary + "\r\n"
    + "Content-Type: text/html; charset=\"utf-8\"\r\n"
    + "Content-Transfer-Encoding: 7bit\r\n\r\n"
    + emailBody + "\r\n"
  }

  function PdfPartFields(filename: string): string {
    "\r\n--" + Boundary + "\r\n"
    + "Content-Type: application/pdf; name=\"" + filename + "\"\r\n"
    + "Content-Disposition: attachment; filename=\"" + filename + "\"\r\n"
    + "Content-Transfer-Encoding: base64\r\n"
  }

  /** The close delimiter that ends the multipart body. */
  function Close(): string {
    "--" + Boundary + "--\r\n"
  }

  function MessageText(v: Version, fromName: string, loggedInEmail: string, recipient: string, subject: string,
                       opdNotes: string, date: string, emailBody: string, filename: string,
                       attachment: seq<Base64.Byte>): string {
    Head(fromName, loggedInEmail, recipient, SubjectOf(v, subject, opdNotes), date, emailBody, filename)
    + Framed(Chunks(Base64.Encode(attachment))) + Close()
  }

  /** The message as SendEmailWithAttachment writes it into its builder. */
  method BuildMessage(v: Version, fromName: string, loggedInEmail: string, recipient: string, subject: string,
                      opdNotes: string, date: string, emailBody: string, filename: string,
                      attachment: seq<Base64.Byte>) returns (msg: string)
    ensures msg == MessageText(v, fromName, loggedInEmail, recipient, subject, opdNotes, date, emailBody, filename, attachment)
  {
    var subjectLine := if v.Current? then Truncate(opdNotes, SubjectWidth) else subject;
    msg := Head(fromName, loggedInEmail, recipient, subjectLine, date, emailBody, filename);
    var encoded := Base64.Encode(attachment);
    var lines := WrapLines(encoded);
    msg := msg + lines;
    msg := msg + "--" + Boundary + "--\r\n";
  }

  /**
   * The message ends with the close delimiter: a CRLF, "--", the boundary and
   * "--", and the base64 lines before it contain no '-'.
   */
  lemma MessageCloses(v: Version, fromName: string, loggedInEmail: string, recipient: string, subject: string,
                      opdNotes: string, date: string, emailBody: string, filename: string, attachment: seq<Base64.Byte>)
    ensures var m := MessageText(v, fromName, loggedInEmail, recipient, subject, opdNotes, date, emailBody, filename, attachment);
      var tail := "\r\n--" + Boundary + "--\r\n";
      |m| >= |tail| && m[|m| - |tail|..] == tail
  {
    var t := TopHeaders(fromName, loggedInEmail, recipient, SubjectOf(v, subject, opdNotes), date);
    EndsWithCrlf(t + HtmlPart(emailBody) + PdfPartFields(filename), "\r\n");
    ClosesAfter(Head(fromName, loggedInEmail, recipient, SubjectOf(v, subject, opdNotes), date, emailBody, filename),
                Chunks(Base64.Encode(attachment)));
  }

  lemma ClosesAfter(h: string, lines: seq<string>)
    requires |h| >= 2 && h[|h| - 2..] == "\r\n"
    ensures var m := h + Framed(lines) + Close();
      var tail := "\r\n--" + Boundary + "--\r\n";
      |m| >= |tail| && m[|m| - |tail|..] == tail
  {
    var body := Framed(lines);
    var pre := h + body;
    if lines == [] {
      assert pre == h;
    } else {
      FramedEndsWithCrlf(lines);
      SuffixOfAppend(h, body, "\r\n");
    }
    SuffixExtend(pre, "\r\n", Close());
    assert "\r\n" + Close() == "\r\n--" + Boundary + "--\r\n";
  }

  /** What ends b ends a + b. */
  lemma SuffixOfAppend<T>(a: seq<T>, b: seq<T>, x: seq<T>)
    requires |b| >= |x| && b[|b| - |x|..] == x
    ensures |a + b| >= |x| && (a + b)[|a + b| - |x|..] == x
  {
    assert (a + b)[|a + b| - |x|..] == b[|b| - |x|..];
  }

  /** When a ends with x, a + b ends with x + b. */
  lemma SuffixExtend<T>(a: seq<T>, x: seq<T>, b: seq<T>)
    requires |a| >= |x| && a[|a| - |x|..] == x
    ensures |a + b| >= |x + b| && (a + b)[|a + b| - |x + b|..] == x + b
  {
    assert (a + b)[|a + b| - |x + b|..] == a[|a| - |x|..] + b;
  }

  lemma EndsWithCrlf(a: string, b: string)
    ensures |a + b| >= |b| && (a + b)[|a + b| - |b|..] == b
  {
  }

  lemma {:induction false} FramedEndsWithCrlf(lines: seq<string>)
    requires lines != []
    ensures |Framed(lines)| >= 2 && Framed(lines)[|Framed(lines)| - 2..] == "\r\n"
    decreases |lines|
  {
    var f := Framed(lines);
    assert f == lines[0] + "\r\n" + Framed(lines[1..]);
    if |lines| > 1 {
      FramedEndsWithCrlf(lines[1..]);
      var g := Framed(lines[1..]);
      assert f[|f| - 2..] == g[|g| - 2..];
    }
  }

  /** The current Subject is at most 30 characters and a prefix of the notes; the older one is the subject as given. */
  lemma SubjectLine(subject: string, opdNotes: string)
    ensures |SubjectOf(Current, subject, opdNotes)| <= SubjectWidth
    ensures opdNotes[..|SubjectOf(Current, subject, opdNotes)|] == SubjectOf(Current, subject, opdNotes)
    ensures |opdNotes| <= SubjectWidth ==> SubjectOf(Current, subject, opdNotes) == opdNotes
    ensures SubjectOf(Legacy, subject, opdNotes) == subject
  {
  }

  /* ---------- placeholders and file names ---------- */

  /** strings.ReplaceAll for a non-empty pattern: occurrences left to right, without overlaps. */
  function ReplaceAll(s: string, pattern: string, replacement: string): string
    requires pattern != []
    decreases |s|
  {
    if |s| < |pattern| then s
    else if s[..|pattern|] == pattern then replacement + ReplaceAll(s[|pattern|..], pattern, replacement)
    else [s[0]] + ReplaceAll(s[1..], pattern, replacement)
  }

  /** A string without the pattern is left as it is. */
  lemma {:induction false} ReplaceAllAbsent(s: string, pattern: string, replacement: string)
    requires pattern != [] && !Contains(s, pattern)
    ensures ReplaceAll(s, pattern, replacement) == s
    decreases |s|
  {
    if |s| >= |pattern| {
      assert !MatchAt(s, pattern, 0);
      assert !Contains(s[1..], pattern) by {
        forall i | 0 <= i <= |s[1..]| - |pattern|
          ensures !MatchAt(s[1..], pattern, i)
        {
          assert s[1..][i..i + |pattern|] == s[i + 1..i + 1 + |pattern|];
          assert !MatchAt(s, pattern, i + 1);
        }
      }
      ReplaceAllAbsent(s[1..], pattern, replacement);
    }
  }

  /** Replacing one character by another works position by position. */
  lemma {:induction false} ReplaceCharPointwise(s: string, a: char, b: char)
    ensures |ReplaceAll(s, [a], [b])| == |s|
    ensures forall i :: 0 <= i < |s| ==> ReplaceAll(s, [a], [b])[i] == (if s[i] == a then b else s[i])
    decreases |s|
  {
    if s != [] {
      ReplaceCharPointwise(s[1..], a, b);
      var r := ReplaceAll(s, [a], [b]);
      assert r == [if s[0] == a then b else s[0]] + ReplaceAll(s[1..], [a], [b]);
    }
  }

  /** The seven template keys and the visit's values for them. */
  datatype Opd = Opd(patientName: string, doctorName: string, opdDate: string, opdNotes: string,
                     prescription: string, followupDate: string, createdOn: string)

  /** The placeholders of the template and their values; every placeholder starts with '#'. */
  function Replacements(o: Opd): (rs: map<string, string>)
    ensures forall k :: k in rs ==> |k| > 1 && k[0] == '#'
  {
    map["#patientname" := o.patientName, "#drname" := o.doctorName, "#opddate" := o.opdDate,
        "#opdnotes" := o.opdNotes, "#prescription" := o.prescription, "#followupdate" := o.followupDate,
        "#createdon" := o.createdOn]
  }

  /** The replacement loop, visiting the keys in the order given (Go's map order is unspecified). */
  function ReplaceEach(content: string, rs: map<string, string>, keys: seq<string>): string
    requires forall j :: 0 <= j < |keys| ==> keys[j] in rs && keys[j] != []
    decreases |keys|
  {
    if keys == [] then content else ReplaceEach(ReplaceAll(content, keys[0], rs[keys[0]]), rs, keys[1..])
  }

  method ReplacePlaceholders(content: string, rs: map<string, string>, keys: seq<string>) returns (out: string)
    requires forall j :: 0 <= j < |keys| ==> keys[j] in rs && keys[j] != []
    ensures out == ReplaceEach(content, rs, keys)
  {
    out := content;
    var i := 0;
    while i < |keys|
      invariant 0 <= i <= |keys|
      invariant ReplaceEach(out, rs, keys[i..]) == ReplaceEach(content, rs, keys)
    {
      assert keys[i..][1..] == keys[i + 1..];
      out := ReplaceAll(out, keys[i], rs[keys[i]]);
      i := i + 1;
    }
  }

  /** A template that mentions none of the keys comes out unchanged, in whatever order the keys are visited. */
  lemma {:induction false} NoPlaceholderUnchanged(content: string, rs: map<string, string>, keys: seq<string>)
    requires forall j :: 0 <= j < |keys| ==> keys[j] in rs && keys[j] != []
    requires forall j :: 0 <= j < |keys| ==> !Contains(content, keys[j])
    ensures ReplaceEach(content, rs, keys) == content
    decreases |keys|
  {
    if keys != [] {
      ReplaceAllAbsent(content, keys[0], rs[keys[0]]);
      NoPlaceholderUnchanged(content, rs, keys[1..]);
    }
  }

  /** The patient's name with every space replaced by '_'. */
  function SafeName(name: string): (r: string)
    ensures |r| == |name|
    ensures forall i :: 0 <= i < |name| ==> r[i] == (if name[i] == ' ' then '_' else name[i])
  {
    ReplaceCharPointwise(name, ' ', '_');
    ReplaceAll(name, " ", "_")
  }

  function PdfFileName(name: string): string {
    "OPD_" + SafeName(name) + ".pdf"
  }

  /** The PDF's file name is OPD_<name>.pdf with no space left in it. */
  lemma PdfFileNameHasNoSpace(name: string)
    ensures ' ' !in PdfFileName(name)
    ensures |PdfFileName(name)| == |name| + 8
  {
    var s := SafeName(name);
    assert ' ' !in s by {
      forall i | 0 <= i < |s|
        ensures s[i] != ' '
      {
      }
    }
  }

  /* ---------- GeneratePDFAndSendEmail ---------- */

  /**
   * How GeneratePDFAndSendEmail ends: skipped, an error, the mail handed to
   * the SMTP server, or a nil-pointer panic when the configuration loader
   * answers with neither settings nor an error.
   */
  datatype Outcome = Skipped | Failed(reason: string) | Sent(to: string, message: string) | Panicked

  /** The PDF's path, filepath.Join("attachments", OPD_<name>.pdf). */
  function PdfPath(name: string): string {
    "attachments/" + PdfFileName(name)
  }

  /**
   * The external steps' results, each with the error text Go would wrap:
   * reading the template; writing the Typst file; the typst run (its error
   * and combined output); the PDF file after it (None when it is missing);
   * reading that file back; the SMTP configuration loader's answer; the
   * rendered HTML body (parseOPDTemplate's error otherwise); the Date header;
   * and the SMTP server's refusal (None when smtp.SendMail succeeds).
   */
  datatype World = World(template: Result<string, string>, writeError: Option<string>,
                         compileError: Option<(string, string)>, pdf: Option<seq<Base64.Byte>>,
                         readError: Option<string>, config: SmtpConfig.Loaded,
                         emailBody: Result<string, string>, date: string, sendError: Option<string>)

  /** The Typst source the PDF is compiled from, given the order the keys are visited in. */
  function TypstSource(o: Opd, template: string, keys: seq<string>): string
    requires forall j :: 0 <= j < |keys| ==> keys[j] in Replacements(o)
  {
    ReplaceEach(template, Replacements(o), keys)
  }

  /** The prefix GeneratePDFAndSendEmail puts before SendEmailWithAttachment's error. */
  const SendPrefix: string := "failed to send email with PDF: "

  /**
   * SendEmailWithAttachment, from loading the SMTP configuration to the send,
   * with its own (unwrapped) error texts.
   */
  function SendWithAttachment(o: Opd, recipient: string, loggedInEmail: string, fromName: string, w: World,
                              pdf: seq<Base64.Byte>): (r: Outcome)
    ensures !r.Skipped?
    ensures r.Sent? ==> r.to == recipient
  {
    if w.config.err.Some? then Failed("failed to load SMTP config: " + w.config.err.value)
    else if w.emailBody.Failure? then Failed("failed to parse email body template: " + w.emailBody.error)
    else if w.config.config.None? then Panicked
    else if w.sendError.Some? then Failed("failed to send email: " + w.sendError.value)
    else Sent(recipient, MessageText(Current, fromName, loggedInEmail, recipient, "OPD  " + o.patientName, o.opdNotes,
                                     w.date, w.emailBody.value, PdfFileName(o.patientName), pdf))
  }

  /** From writing the Typst file on: the file, the compile, the PDF checks, then SendEmailWithAttachment. */
  function Deliver(o: Opd, recipient: string, loggedInEmail: string, fromName: string, w: World): (r: Outcome)
    ensures !r.Skipped?
    ensures r.Sent? ==> r.to == recipient
  {
    if w.writeError.Some? then Failed("failed to write Typst file: " + w.writeError.value)
    else if w.compileError.Some? then
      Failed("PDF generation failed: " + w.compileError.value.0 + "\nOutput: " + w.compileError.value.1)
    else if w.pdf.None? || w.pdf.value == [] then Failed("generated PDF file missing or empty at " + PdfPath(o.patientName))
    else if w.readError.Some? then Failed("failed to read generated PDF: " + w.readError.value)
    else match SendWithAttachment(o, recipient, loggedInEmail, fromName, w, w.pdf.value)
      case Failed(e) => Failed(SendPrefix + e)
      case sent => sent
  }

  function Generate(o: Opd, recipient: string, loggedInEmail: string, fromName: string, w: World, keys: seq<string>): (r: Outcome)
    requires forall j :: 0 <= j < |keys| ==> keys[j] in Replacements(o)
    ensures w.template.Failure? ==> r == Failed("failed to read template file: " + w.template.error)
    ensures r.Skipped? <==> w.template.Success? && TrimSpace(o.followupDate) == ""
  {
    if w.template.Failure? then Failed("failed to read template file: " + w.template.error)
    else if TrimSpace(o.followupDate) == "" then Skipped
    else Deliver(o, recipient, loggedInEmail, fromName, w)
  }

  method DeliverPdf(o: Opd, recipient: string, loggedInEmail: string, fromName: string, w: World) returns (r: Outcome)
    ensures r == Deliver(o, recipient, loggedInEmail, fromName, w)
  {
    if w.writeError.Some? {
      return Failed("failed to write Typst file: " + w.writeError.value);
    }
    if w.compileError.Some? {
      var (err, output) := w.compileError.value;
      return Failed("PDF generation failed: " + err + "\nOutput: " + output);
    }
    var pdfFileName := PdfFileName(o.patientName);
    var pdfFilePath := "attachments/" + pdfFileName;
    if w.pdf.None? || w.pdf.value == [] {
      return Failed("generated PDF file missing or empty at " + pdfFilePath);
    }
    if w.readError.Some? {
      return Failed("failed to read generated PDF: " + w.readError.value);
    }
    r := SendEmailWithAttachment(o, recipient, loggedInEmail, fromName, w, pdfFileName, w.pdf.value);
    if r.Failed? {
      r := Failed(SendPrefix + r.reason);
    }
  }

  method SendEmailWithAttachment(o: Opd, recipient: string, loggedInEmail: string, fromName: string, w: World,
                                 filename: string, pdf: seq<Base64.Byte>) returns (r: Outcome)
    requires filename == PdfFileName(o.patientName)
    ensures r == SendWithAttachment(o, recipient, loggedInEmail, fromName, w, pdf)
  {
    if w.config.err.Some? {
      return Failed("failed to load SMTP config: " + w.config.err.value);
    }
    if w.emailBody.Failure? {
      return Failed("failed to parse email body template: " + w.emailBody.error);
    }
    var msg := BuildMessage(Current, fromName, loggedInEmail, recipient, "OPD  " + o.patientName, o.opdNotes,
                            w.date, w.emailBody.value, filename, pdf);
    if w.config.config.None? {
      return Panicked;
    }
    if w.sendError.Some? {
      return Failed("failed to send email: " + w.sendError.value);
    }
    r := Sent(recipient, msg);
  }

  method GeneratePdfAndSendEmail(o: Opd, recipient: string, loggedInEmail: string, fromName: string, w: World,
                                 keys: seq<string>) returns (r: Outcome, typst: string)
    requires forall j :: 0 <= j < |keys| ==> keys[j] in Replacements(o)
    ensures r == Generate(o, recipient, loggedInEmail, fromName, w, keys)
    ensures r.Sent? ==> typst == TypstSource(o, w.template.value, keys)
  {
    typst := "";
    if w.template.Failure? {
      return Failed("failed to read template file: " + w.template.error), typst;
    }
    if TrimSpace(o.followupDate) == "" {
      return Skipped, typst;
    }
    typst := ReplacePlaceholders(w.template.value, Replacements(o), keys);
    r := DeliverPdf(o, recipient, loggedInEmail, fromName, w);
  }

  /** Whether every step from the Typst file to the send succeeds. */
  predicate AllStepsSucceed(w: World) {
    w.writeError.None? && w.compileError.None? && w.pdf.Some? && w.pdf.value != [] && w.readError.None?
    && w.config.err.None? && w.emailBody.Success? && w.config.config.Some? && w.sendError.None?
  }

  /** A blank follow-up date stops the run before any PDF is made or mail is sent (once the template has been read). */
  lemma BlankFollowupSkips(o: Opd, recipient: string, loggedInEmail: string, fromName: string, w: World, keys: seq<string>)
    requires forall j :: 0 <= j < |keys| ==> keys[j] in Replacements(o)
    ensures TrimSpace(o.followupDate) == "" ==>
      Generate(o, recipient, loggedInEmail, fromName, w, keys)
        == (if w.template.Failure? then Failed("failed to read template file: " + w.template.error) else Skipped)
    ensures Generate(o, recipient, loggedInEmail, fromName, w, keys).Sent? <==>
      w.template.Success? && TrimSpace(o.followupDate) != "" && AllStepsSucceed(w)
  {
    if w.template.Success? && TrimSpace(o.followupDate) != "" {
      DeliverFailures(o, recipient, loggedInEmail, fromName, w);
    }
  }

  /**
   * Every step's failure ends the run with that step's error, wrapped as Go
   * wraps it, in the order the steps are taken; a loader that answers with
   * neither settings nor an error makes the send panic.
   */
  lemma DeliverFailures(o: Opd, recipient: string, loggedInEmail: string, fromName: string, w: World)
    ensures var r := Deliver(o, recipient, loggedInEmail, fromName, w);
      (w.writeError.Some? ==> r == Failed("failed to write Typst file: " + w.writeError.value))
      && (w.writeError.None? && w.compileError.Some? ==>
            r == Failed("PDF generation failed: " + w.compileError.value.0 + "\nOutput: " + w.compileError.value.1))
      && (w.writeError.None? && w.compileError.None? && (w.pdf.None? || w.pdf.value == []) ==>
            r == Failed("generated PDF file missing or empty at " + PdfPath(o.patientName)))
    ensures var r := Deliver(o, recipient, loggedInEmail, fromName, w);
      var pdfOk := w.writeError.None? && w.compileError.None? && w.pdf.Some? && w.pdf.value != [];
      (pdfOk && w.readError.Some? ==> r == Failed("failed to read generated PDF: " + w.readError.value))
      && (pdfOk && w.readError.None? && w.config.err.Some? ==>
            r == Failed(SendPrefix + ("failed to load SMTP config: " + w.config.err.value)))
      && (pdfOk && w.readError.None? && w.config.err.None? && w.emailBody.Failure? ==>
            r == Failed(SendPrefix + ("failed to parse email body template: " + w.emailBody.error)))
      && (pdfOk && w.readError.None? && w.config == SmtpConfig.Loaded(None, None) && w.emailBody.Success? ==> r == Panicked)
      && (pdfOk && w.readError.None? && w.config.err.None? && w.config.config.Some? && w.emailBody.Success? && w.sendError.Some? ==>
            r == Failed(SendPrefix + ("failed to send email: " + w.sendError.value)))
    ensures var r := Deliver(o, recipient, loggedInEmail, fromName, w);
      (r.Sent? <==> AllStepsSucceed(w)) && (r.Sent? ==> r.to == recipient)
  {
    if w.writeError.None? && w.compileError.None? && w.pdf.Some? && w.pdf.value != [] && w.readError.None? {
      var s := SendWithAttachment(o, recipient, loggedInEmail, fromName, w, w.pdf.value);
      assert Deliver(o, recipient, loggedInEmail, fromName, w) == if s.Failed? then Failed(SendPrefix + s.reason) else s;
    }
  }

  /**
   * After a failed first load, the loader's cached nil configuration comes
   * back without an error, so a run whose PDF is ready panics at the send.
   */
  lemma {:induction false} NilConfigPanics(o: Opd, recipient: string, loggedInEmail: string, fromName: string, w: World,
                                           env1: SmtpConfig.Config, env2: SmtpConfig.Config)
    requires SmtpConfig.CheckMissingFields(env1) != ""
    requires w.config == SmtpConfig.Load(SmtpConfig.Load(SmtpConfig.Initial, env1).0, env2).1
    requires w.writeError.None? && w.compileError.None? && w.pdf.Some? && w.pdf.value != [] && w.readError.None?
    requires w.emailBody.Success?
    ensures Deliver(o, recipient, loggedInEmail, fromName, w) == Panicked
  {
    SmtpConfig.FailedLoadLaterNilNil(env1, env2);
  }
}
