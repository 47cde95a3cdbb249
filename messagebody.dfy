/**
 * Reading one message for display (FetchPlainTextEmailBody in
 * services/fetchEmailBody.go): the body section is fetched by UID, returned
 * as is when it has no MIME header, and otherwise walked part by part,
 * keeping the last HTML text, the last plain text and every non-empty image
 * part marked attachment or inline (section 2 of RFC 2183). The same file's
 * CheckEmailExists is the From/To header search, the one the inbox list runs.
 */
module MessageBody {
  import opened Wrappers
  import Ascii
  import Base64
  import opened Imap
  import Seqs
  import TableList

  /** The map {"type": "image", "name": ..., "base64": ...} built for a captured image. */
  datatype Media = Media(kind: string, name: string, dataUri: string)

  datatype BodyError = SelectError | FetchError | NotFound | NoBody | BodyUnreadable | ParseError | NoContent

  predicate IsHtml(p: Part) {
    Ascii.HasPrefix(p.contentType, "text/html")
  }

  predicate IsPlain(p: Part) {
    !IsHtml(p) && Ascii.HasPrefix(p.contentType, "text/plain")
  }

  /** The image branch: not a text part, attachment or inline in any case, and an image type. */
  predicate IsImage(p: Part) {
    !IsHtml(p) && !IsPlain(p)
    && (Ascii.EqualFold(p.disposition, "attachment") || Ascii.EqualFold(p.disposition, "inline"))
    && Ascii.Contains(p.contentType, "image")
  }

  /** A Go map lookup: the empty string for a missing key. */
  function Param(m: map<string, string>, key: string): (v: string)
    ensures key !in m ==> v == ""
  {
    if key in m then m[key] else ""
  }

  /** The disposition filename, else the content-type name. */
  function FileName(p: Part): (name: string)
    ensures Param(p.dispParams, "filename") != "" ==> name == Param(p.dispParams, "filename")
    ensures Param(p.dispParams, "filename") == "" ==> name == Param(p.ctParams, "name")
  {
    var f := Param(p.dispParams, "filename");
    if f != "" then f else Param(p.ctParams, "name")
  }

  function DataUri(contentType: string, data: seq<Base64.Byte>): string {
    "data:" + contentType + ";base64," + Base64.Encode(data)
  }

  function MediaOf(p: Part): Media
    requires p.body.ReadOk?
  {
    Media("image", FileName(p), DataUri(p.contentType, p.body.data))
  }

  /** A part this reader captures as media. */
  predicate Captures(pr: PartRead) {
    pr.PartOk? && IsImage(pr.part) && pr.part.body.ReadOk? && |pr.part.body.data| > 0
  }

  /** A part whose text is kept: HTML (html = true) or plain, read without error. */
  predicate Keeps(pr: PartRead, html: bool) {
    pr.PartOk? && (if html then IsHtml(pr.part) else IsPlain(pr.part)) && pr.part.body.ReadOk?
  }

  /** The text of the last kept part of the kind, or "" when there is none. */
  function LastText(ps: seq<PartRead>, html: bool): string
  {
    if ps == [] then ""
    else if Keeps(ps[|ps| - 1], html) then Text(ps[|ps| - 1].part.body.data)
    else LastText(ps[..|ps| - 1], html)
  }

  /** What one part contributes to the media list. */
  function CaptureOf(pr: PartRead): (r: seq<Media>)
    ensures |r| <= 1
  {
    if Captures(pr) then [MediaOf(pr.part)] else []
  }

  /** The captured media, in part order. */
  function Captured(ps: seq<PartRead>): seq<Media> {
    Seqs.FlatMap(CaptureOf, ps)
  }

  /** HTML wins; plain text is the fallback when no HTML text was kept. */
  function Chosen(ps: seq<PartRead>): string {
    var h := LastText(ps, true);
    if h == "" then LastText(ps, false) else h
  }

  /** The outcome of the part walk. */
  function Assemble(ps: seq<PartRead>): Result<(string, seq<Media>), BodyError> {
    var b := Chosen(ps);
    var m := Captured(ps);
    if b == "" && m == [] then Failure(NoContent) else Success((b, m))
  }

  /** The parts mail.CreateReader yields for a parsed entity. */
  function PartsOf(mime: Mime): seq<PartRead>
    requires !mime.Unparsable?
  {
    if mime.SinglePart? then [PartOk(mime.part)] else mime.parts
  }

  const MimeMarker: string := "Content-Type:"

  /**
   * The specification of FetchPlainTextEmailBody. `current` is the mailbox the
   * client has selected, if any.
   */
  function FetchBody(server: Server, current: Option<string>, uid: nat): Result<(string, seq<Media>), BodyError> {
    if current != Some("INBOX") && server.selectFails then Failure(SelectError)
    else if server.fetchFails then Failure(FetchError)
    else match UidFetch(server.inbox, uid)
      case None => Failure(NotFound)
      case Some(m) =>
        match m.body
        case NoSection => Failure(NoBody)
        case SectionUnreadable => Failure(BodyUnreadable)
        case Section(raw, mime) =>
          if !Ascii.Contains(Text(raw), MimeMarker) then Success((Text(raw), []))
          else if mime.Unparsable? then Failure(ParseError)
          else Assemble(PartsOf(mime))
  }

  lemma CapturedAppend(a: seq<PartRead>, b: seq<PartRead>)
    ensures Captured(a + b) == Captured(a) + Captured(b)
  {
    Seqs.FlatMapAppend(CaptureOf, a, b);
  }

  /** One more part: the text of the kind after ps[..i + 1] from the one after ps[..i]. */
  lemma LastTextStep(ps: seq<PartRead>, i: nat, html: bool)
    requires i < |ps|
    ensures LastText(ps[..i + 1], html) == if Keeps(ps[i], html) then Text(ps[i].part.body.data) else LastText(ps[..i], html)
  {
    assert ps[..i + 1][..i] == ps[..i];
  }

  /** One more part: the media after ps[..i + 1] from those after ps[..i]. */
  lemma CapturedStep(ps: seq<PartRead>, i: nat)
    requires i < |ps|
    ensures Captured(ps[..i + 1]) == Captured(ps[..i]) + CaptureOf(ps[i])
  {
    Seqs.FlatMapSnoc(CaptureOf, ps, i);
  }

  /** The loop over NextPart. */
  method WalkParts(ps: seq<PartRead>) returns (body: string, media: seq<Media>)
    ensures body == Chosen(ps) && media == Captured(ps)
  {
    var emailBody, plainTextBody := "", "";
    media := [];
    var i := 0;
    while i < |ps|
      invariant 0 <= i <= |ps|
      invariant emailBody == LastText(ps[..i], true)
      invariant plainTextBody == LastText(ps[..i], false)
      invariant media == Captured(ps[..i])
    {
      LastTextStep(ps, i, true);
      LastTextStep(ps, i, false);
      CapturedStep(ps, i);
      if ps[i].PartOk? {
        var part := ps[i].part;
        if IsHtml(part) {
          if part.body.ReadOk? {
            emailBody := Text(part.body.data);
          }
        } else if IsPlain(part) {
          if part.body.ReadOk? {
            plainTextBody := Text(part.body.data);
          }
        } else if IsImage(part) {
          if part.body.ReadOk? && |part.body.data| > 0 {
            media := media + [MediaOf(part)];
          }
        }
      }
      i := i + 1;
    }
    assert ps[..i] == ps;
    if emailBody == "" && plainTextBody != "" {
      emailBody := plainTextBody;
    }
    body := emailBody;
  }

  /** FetchPlainTextEmailBody: select if needed, UID FETCH BODY[], then the walk. */
  method FetchPlainTextEmailBody(server: Server, current: Option<string>, uid: nat)
    returns (r: Result<(string, seq<Media>), BodyError>)
    ensures r == FetchBody(server, current, uid)
  {
    if current != Some("INBOX") && server.selectFails {
      return Failure(SelectError);
    }
    if server.fetchFails {
      return Failure(FetchError);
    }
    var msg := UidFetch(server.inbox, uid);
    if msg.None? {
      return Failure(NotFound);
    }
    match msg.value.body
    case NoSection => r := Failure(NoBody);
    case SectionUnreadable => r := Failure(BodyUnreadable);
    case Section(raw, mime) =>
      if !Ascii.Contains(Text(raw), MimeMarker) {
        return Success((Text(raw), []));
      }
      if mime.Unparsable? {
        return Failure(ParseError);
      }
      var body, media := WalkParts(PartsOf(mime));
      if body == "" && |media| == 0 {
        r := Failure(NoContent);
      } else {
        r := Success((body, media));
      }
  }

  // ---- Properties of the specification ----

  /** LastText is the text of the last kept part: nothing after it is kept. */
  lemma {:induction false} LastTextIsLast(ps: seq<PartRead>, html: bool)
    ensures LastText(ps, html) == "" || exists j :: 0 <= j < |ps| && Keeps(ps[j], html)
    ensures forall j :: 0 <= j < |ps| && Keeps(ps[j], html) && (forall k :: j < k < |ps| ==> !Keeps(ps[k], html))
              ==> LastText(ps, html) == Text(ps[j].part.body.data)
  {
    if ps != [] {
      var n := |ps| - 1;
      LastTextIsLast(ps[..n], html);
      if !Keeps(ps[n], html) {
        forall j | 0 <= j < |ps| && Keeps(ps[j], html) && (forall k :: j < k < |ps| ==> !Keeps(ps[k], html))
          ensures LastText(ps, html) == Text(ps[j].part.body.data)
        {
          assert j < n;
          assert ps[..n][j] == ps[j];
          assert forall k :: j < k < n ==> ps[..n][k] == ps[k];
        }
        if LastText(ps, html) != "" {
          var j :| 0 <= j < n && Keeps(ps[..n][j], html);
          assert ps[j] == ps[..n][j];
        }
      }
    }
  }

  /** No kept part of the kind means no text of that kind. */
  lemma {:induction false} LastTextNone(ps: seq<PartRead>, html: bool)
    requires forall j :: 0 <= j < |ps| ==> !Keeps(ps[j], html)
    ensures LastText(ps, html) == ""
  {
    if ps != [] {
      LastTextNone(ps[..|ps| - 1], html);
    }
  }

  /** Parts that cannot be read do not affect the text chosen. */
  lemma {:induction false} LastTextSkipsErrors(a: seq<PartRead>, b: seq<PartRead>, html: bool)
    ensures LastText(a + [PartError] + b, html) == LastText(a + b, html)
    decreases |b|
  {
    if b == [] {
      assert (a + [PartError] + b)[..|a|] == a;
      assert a + b == a;
    } else {
      var n := |b| - 1;
      LastTextSkipsErrors(a, b[..n], html);
      assert (a + [PartError] + b)[..|a| + 1 + n] == a + [PartError] + b[..n];
      assert (a + b)[..|a| + n] == a + b[..n];
      assert (a + [PartError] + b)[|a| + 1 + n] == b[n];
      assert (a + b)[|a| + n] == b[n];
    }
  }

  /**
   * A NextPart error skips that part only: the outcome is the one of the same
   * message without it.
   */
  lemma ErrorPartSkipped(a: seq<PartRead>, b: seq<PartRead>)
    ensures Assemble(a + [PartError] + b) == Assemble(a + b)
  {
    LastTextSkipsErrors(a, b, true);
    LastTextSkipsErrors(a, b, false);
    CapturedSkipsErrors(a, b);
  }

  lemma CapturedSkipsErrors(a: seq<PartRead>, b: seq<PartRead>)
    ensures Captured(a + [PartError] + b) == Captured(a + b)
  {
    Seqs.FlatMapAppend(CaptureOf, a + [PartError], b);
    Seqs.FlatMapAppend(CaptureOf, a, [PartError]);
    Seqs.FlatMapSingle(CaptureOf, PartError);
    Seqs.FlatMapAppend(CaptureOf, a, b);
  }

  /** Every captured medium comes from an image part with data, never from a text part. */
  lemma CapturedFromImages(ps: seq<PartRead>, m: Media)
    requires m in Captured(ps)
    ensures exists j :: 0 <= j < |ps| && Captures(ps[j]) && m == MediaOf(ps[j].part)
  {
    Seqs.FlatMapSource(CaptureOf, ps, m);
  }

  /** A part that is HTML or plain text is never captured, whatever its disposition. */
  lemma TextPartsNotCaptured(p: Part)
    requires Ascii.HasPrefix(p.contentType, "text/html") || Ascii.HasPrefix(p.contentType, "text/plain")
    ensures !Captures(PartOk(p))
  {
  }

  /** An image part that is captured is named by its filename or its content-type name. */
  lemma MediaCarriesName(p: Part)
    requires Captures(PartOk(p))
    ensures MediaOf(p).name == (if Param(p.dispParams, "filename") != "" then p.dispParams["filename"] else Param(p.ctParams, "name"))
    ensures Ascii.HasPrefix(MediaOf(p).dataUri, "data:" + p.contentType + ";base64,")
  {
    var pre := "data:" + p.contentType + ";base64,";
    assert MediaOf(p).dataUri == pre + Base64.Encode(p.body.data);
    assert MediaOf(p).dataUri[..|pre|] == pre;
  }

  /** Without the MIME marker, the raw body is returned verbatim with no media. */
  lemma NonMimeVerbatim(server: Server, current: Option<string>, uid: nat, m: Message)
    requires !(current != Some("INBOX") && server.selectFails) && !server.fetchFails
    requires UidFetch(server.inbox, uid) == Some(m) && m.body.Section?
    requires !Ascii.Contains(Text(m.body.raw), MimeMarker)
    ensures FetchBody(server, current, uid) == Success((Text(m.body.raw), []))
  {
  }

  /**
   * "no content available" is reported exactly when the chosen body is empty
   * and nothing was captured; a message with images only succeeds with an
   * empty body.
   */
  lemma NoContentIff(ps: seq<PartRead>)
    ensures Assemble(ps) == Failure(NoContent) <==> (Chosen(ps) == "" && Captured(ps) == [])
    ensures Chosen(ps) == "" && Captured(ps) != [] ==> Assemble(ps) == Success(("", Captured(ps)))
  {
  }

  /** When some non-empty HTML text is the last kept HTML part, it is the body. */
  lemma HtmlPreferred(ps: seq<PartRead>, j: nat)
    requires j < |ps| && Keeps(ps[j], true) && Text(ps[j].part.body.data) != ""
    requires forall k :: j < k < |ps| ==> !Keeps(ps[k], true)
    ensures Chosen(ps) == Text(ps[j].part.body.data)
  {
    LastTextIsLast(ps, true);
  }

  /** With no HTML part read, the body is the last plain text. */
  lemma PlainFallback(ps: seq<PartRead>)
    requires forall j :: 0 <= j < |ps| ==> !Keeps(ps[j], true)
    ensures Chosen(ps) == LastText(ps, false)
  {
    LastTextNone(ps, true);
  }

  /**
   * Once the fetch succeeds, a missing message, a missing or unreadable body
   * section and a MIME parse failure are each reported with their own error.
   */
  lemma FetchBodyFailures(server: Server, current: Option<string>, uid: nat)
    requires !(current != Some("INBOX") && server.selectFails) && !server.fetchFails
    ensures UidFetch(server.inbox, uid).None? <==> FetchBody(server, current, uid) == Failure(NotFound)
    ensures FetchBody(server, current, uid) == Failure(NoBody) <==>
      UidFetch(server.inbox, uid).Some? && UidFetch(server.inbox, uid).value.body.NoSection?
    ensures FetchBody(server, current, uid) == Failure(BodyUnreadable) <==>
      UidFetch(server.inbox, uid).Some? && UidFetch(server.inbox, uid).value.body.SectionUnreadable?
    ensures FetchBody(server, current, uid) == Failure(ParseError) <==>
      UidFetch(server.inbox, uid).Some? && UidFetch(server.inbox, uid).value.body.Section?
      && Ascii.Contains(Text(UidFetch(server.inbox, uid).value.body.raw), MimeMarker)
      && UidFetch(server.inbox, uid).value.body.mime.Unparsable?
  {
  }

  /** A request for UID 0 (`*`) reads the body of the newest message. */
  lemma StarReadsNewest(server: Server, current: Option<string>)
    requires UidsAscending(server.inbox) && server.inbox != [] && server.inbox[|server.inbox| - 1].uid != 0
    ensures FetchBody(server, current, 0) == FetchBody(server, current, server.inbox[|server.inbox| - 1].uid)
  {
    StarIsNewestUid(server.inbox);
  }

  // ---- CheckEmailExists ----

  /**
   * CheckEmailExists: connect, select INBOX, then SEARCH with a From key for
   * the doctor and a To key for the patient; true exactly when the search
   * returns at least one message. Each failing step is reported as its error.
   */
  function CheckEmailExists(conn: Option<Server>, doctorId: string, patientId: string): (r: Result<bool, ImapError>)
    ensures r == Failure(ConnectFailed) <==> conn.None?
    ensures r == Failure(SelectFailed) <==> conn.Some? && conn.value.selectFails
    ensures r.Failure? ==> r.error in {ConnectFailed, SelectFailed, SearchFailed}
    ensures r == Success(true) ==> conn.Some? && !conn.value.selectFails
  {
    if conn.None? then Failure(ConnectFailed)
    else if conn.value.selectFails then Failure(SelectFailed)
    else match conn.value.search(Criteria([("From", doctorId), ("To", patientId)]))
      case None => Failure(SearchFailed)
      case Some(ids) => Success(|ids| > 0)
  }

  /**
   * With both ids given, the check runs the search the inbox list runs for the
   * doctor filtered by the patient: it fails where that search fails, says
   * true exactly when that search finds a message, and says false only when
   * the list of a non-empty mailbox comes back empty.
   */
  lemma CheckEmailExistsIsListSearch(conn: Option<Server>, doctorId: string, patientId: string)
    requires doctorId != "" && patientId != ""
    ensures var r := CheckEmailExists(conn, doctorId, patientId);
      conn.Some? && !conn.value.selectFails ==>
        var found := conn.value.search(TableList.HeaderCriteria(doctorId, patientId));
        (r == Failure(SearchFailed) <==> found.None?)
        && (r == Success(true) <==> found.Some? && found.value != [])
    ensures var r := CheckEmailExists(conn, doctorId, patientId);
      var list := TableList.FetchEmails(conn, doctorId, patientId);
      (r == Success(false) && conn.value.inbox != [] ==> list == Success([]))
      && (list.Success? && list.value != [] ==> r == Success(true))
  {
    var c := TableList.HeaderCriteria(doctorId, patientId);
    assert c == Criteria([("From", doctorId), ("To", patientId)]);
  }
}
