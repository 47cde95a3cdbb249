/**
 * The older FetchPlainTextEmailBody kept in services/email_services.go. It
 * differs from the current reader in three ways: it always selects INBOX, it
 * captures image parts even when their data is empty, and it reports an
 * error whenever no text body was found, returning the captured images
 * together with that error.
 */
module MessageBodyLegacy {
  import opened Wrappers
  import Ascii
  import Seqs
  import opened Imap
  import opened MessageBody

  /** The three results of the older reader: a body, or the error with the images, or an earlier error. */
  datatype Outcome = Body(text: string, media: seq<Media>) | NoBodyFound(media: seq<Media>) | Failed(error: BodyError)

  /** The older image test: no check that the data is non-empty. */
  predicate CapturesAny(pr: PartRead) {
    pr.PartOk? && IsImage(pr.part) && pr.part.body.ReadOk?
  }

  function CaptureAnyOf(pr: PartRead): (r: seq<Media>)
    ensures |r| <= 1
  {
    if CapturesAny(pr) then [MediaOf(pr.part)] else []
  }

  function CapturedAny(ps: seq<PartRead>): seq<Media> {
    Seqs.FlatMap(CaptureAnyOf, ps)
  }

  function Assemble(ps: seq<PartRead>): Outcome {
    var b := Chosen(ps);
    if b == "" then NoBodyFound(CapturedAny(ps)) else Body(b, CapturedAny(ps))
  }

  /** The specification of the older reader. */
  function FetchBody(server: Server, uid: nat): Outcome {
    if server.selectFails then Failed(SelectError)
    else if server.fetchFails then Failed(FetchError)
    else match UidFetch(server.inbox, uid)
      case None => Failed(NotFound)
      case Some(m) =>
        match m.body
        case NoSection => Failed(NoBody)
        case SectionUnreadable => Failed(BodyUnreadable)
        case Section(raw, mime) =>
          if !Ascii.Contains(Text(raw), MimeMarker) then Body(Text(raw), [])
          else if mime.Unparsable? then Failed(ParseError)
          else Assemble(PartsOf(mime))
  }

  method WalkParts(ps: seq<PartRead>) returns (body: string, media: seq<Media>)
    ensures body == Chosen(ps) && media == CapturedAny(ps)
  {
    var emailBody, plainTextBody := "", "";
    media := [];
    var i := 0;
    while i < |ps|
      invariant 0 <= i <= |ps|
      invariant emailBody == LastText(ps[..i], true)
      invariant plainTextBody == LastText(ps[..i], false)
      invariant media == CapturedAny(ps[..i])
    {
      LastTextStep(ps, i, true);
      LastTextStep(ps, i, false);
      Seqs.FlatMapSnoc(CaptureAnyOf, ps, i);
      if ps[i].PartOk? {
        var part := ps[i].part;
        if IsHtml(part) {
          if part.body.ReadOk? {
            emailBody := Text(part.body.data);
          }
        } else if IsPlain(part) {
          if part.body.ReadOk? {
            plainTextBody := Text(part.body.data);
          }
        } else if IsImage(part) {
          if part.body.ReadOk? {
            media := media + [MediaOf(part)];
          }
        }
      }
      i := i + 1;
    }
    assert ps[..i] == ps;
    if emailBody == "" && plainTextBody != "" {
      emailBody := plainTextBody;
    }
    body := emailBody;
  }

  /** A request for UID 0 (`*`) reads the newest message, in the older copy too. */
  lemma StarReadsNewest(server: Server)
    requires UidsAscending(server.inbox) && server.inbox != [] && server.inbox[|server.inbox| - 1].uid != 0
    ensures FetchBody(server, 0) == FetchBody(server, server.inbox[|server.inbox| - 1].uid)
  {
    StarIsNewestUid(server.inbox);
  }

  method FetchPlainTextEmailBody(server: Server, uid: nat) returns (r: Outcome)
    ensures r == FetchBody(server, uid)
  {
    if server.selectFails {
      return Failed(SelectError);
    }
    if server.fetchFails {
      return Failed(FetchError);
    }
    var msg := UidFetch(server.inbox, uid);
    if msg.None? {
      return Failed(NotFound);
    }
    match msg.value.body
    case NoSection => r := Failed(NoBody);
    case SectionUnreadable => r := Failed(BodyUnreadable);
    case Section(raw, mime) =>
      if !Ascii.Contains(Text(raw), MimeMarker) {
        return Body(Text(raw), []);
      }
      if mime.Unparsable? {
        return Failed(ParseError);
      }
      var body, media := WalkParts(PartsOf(mime));
      if body == "" {
        r := NoBodyFound(media);
      } else {
        r := Body(body, media);
      }
  }

  /**
   * Where the two readers agree: when every image part read has data, they
   * capture the same media, and with a text body they give the same result.
   */
  lemma AgreesWithCurrent(ps: seq<PartRead>)
    requires forall j :: 0 <= j < |ps| && CapturesAny(ps[j]) ==> |ps[j].part.body.data| > 0
    ensures CapturedAny(ps) == Captured(ps)
    ensures Chosen(ps) != "" ==> MessageBody.Assemble(ps) == Success((Chosen(ps), Captured(ps))) && Assemble(ps) == Body(Chosen(ps), Captured(ps))
  {
    forall j | 0 <= j < |ps|
      ensures CaptureAnyOf(ps[j]) == CaptureOf(ps[j])
    {
    }
    Seqs.FlatMapAgree(CaptureAnyOf, CaptureOf, ps);
  }

  /** An empty image part is captured by the older reader, never by the current one. */
  lemma EmptyImageDiffers(p: Part)
    requires IsImage(p) && p.body == ReadOk([])
    ensures CaptureAnyOf(PartOk(p)) == [MediaOf(p)] && CaptureOf(PartOk(p)) == []
  {
  }

  /**
   * Without a text body the older reader reports an error even when images
   * were captured, and hands those images back with it; the current reader
   * succeeds in that case.
   */
  lemma ImagesOnlyIsError(ps: seq<PartRead>)
    requires Chosen(ps) == "" && Captured(ps) != []
    ensures Assemble(ps) == NoBodyFound(CapturedAny(ps))
    ensures MessageBody.Assemble(ps) == Success(("", Captured(ps)))
  {
  }
}
