/**
 * Downloading one attachment by message UID and file name (FetchAttachment in
 * services/fetchAttachment.go, and the older copy in
 * services/email_services.go). The parts of the message are read one by one;
 * the first part whose disposition is attachment or inline and whose file
 * name matches the requested name without regard to case is returned. A
 * part that cannot be read stops the search.
 */
module AttachmentFetch {
  import opened Wrappers
  import Ascii
  import Base64
  import opened Imap
  import MessageBody

  /** The two copies of the operation differ in how a part is matched. */
  datatype Version = Current | Legacy

  datatype AttachmentError =
    | Command(failure: ImapError)   // connecting, SELECT or UID FETCH failed
    | NoMessage                     // no message carries the UID
    | NoBodySection                 // the fetched message has no body section
    | Unparsed                      // message.Read failed on the section
    | NotMultipart                  // the entity has no multipart reader
    | PartUnreadable                // NextPart returned an error
    | AttachmentUnreadable          // io.ReadAll failed on the matching part
    | AttachmentMissing             // every part was read and none matched

  /**
   * The file name a part is matched under: the disposition filename, and in
   * the older copy the content-type name when that is empty.
   */
  function NameOf(v: Version, p: Part): (r: string)
    ensures v.Current? ==> r == MessageBody.Param(p.dispParams, "filename")
    ensures v.Legacy? ==> r == MessageBody.FileName(p)
  {
    if v.Current? then MessageBody.Param(p.dispParams, "filename") else MessageBody.FileName(p)
  }

  /** The disposition test: exact in the current copy, without regard to case in the older one. */
  predicate Disposed(v: Version, p: Part) {
    if v.Current? then p.disposition == "attachment" || p.disposition == "inline"
    else Ascii.EqualFold(p.disposition, "attachment") || Ascii.EqualFold(p.disposition, "inline")
  }

  predicate Matches(v: Version, p: Part, name: string) {
    Disposed(v, p) && Ascii.EqualFold(NameOf(v, p), name)
  }

  /** The part walk: the first matching part decides, an unreadable part stops the walk. */
  function Lookup(v: Version, ps: seq<PartRead>, name: string): (r: Result<(seq<Base64.Byte>, string), AttachmentError>)
    ensures r.Failure? ==> r.error in {AttachmentMissing, PartUnreadable, AttachmentUnreadable}
  {
    if ps == [] then Failure(AttachmentMissing)
    else if ps[0].PartError? then Failure(PartUnreadable)
    else if Matches(v, ps[0].part, name) then
      (if ps[0].part.body.ReadOk? then Success((ps[0].part.body.data, NameOf(v, ps[0].part)))
       else Failure(AttachmentUnreadable))
    else Lookup(v, ps[1..], name)
  }

  /** The specification of FetchAttachment; None for `conn` is a failed ConnectIMAP. */
  function Retrieve(v: Version, conn: Option<Server>, uid: nat, name: string): Result<(seq<Base64.Byte>, string), AttachmentError> {
    if conn.None? then Failure(Command(ConnectFailed))
    else if conn.value.selectFails then Failure(Command(SelectFailed))
    else if conn.value.fetchFails then Failure(Command(FetchFailed))
    else match UidFetch(conn.value.inbox, uid)
      case None => Failure(NoMessage)
      case Some(m) =>
        match m.body
        case NoSection => Failure(NoBodySection)
        case SectionUnreadable => Failure(Unparsed)
        case Section(_, mime) =>
          match mime
          case Unparsable => Failure(Unparsed)
          case SinglePart(_) => Failure(NotMultipart)
          case Multipart(ps) => Lookup(v, ps, name)
  }

  /** A request for UID 0 (`*`) looks in the newest message. */
  lemma StarSearchesNewest(v: Version, s: Server, name: string)
    requires UidsAscending(s.inbox) && s.inbox != [] && s.inbox[|s.inbox| - 1].uid != 0
    ensures Retrieve(v, Some(s), 0, name) == Retrieve(v, Some(s), s.inbox[|s.inbox| - 1].uid, name)
  {
    StarIsNewestUid(s.inbox);
  }

  /**
   * The checks before the part walk, in order: a failed command, no message
   * with the UID, no body section, a body that does not parse. The walk is
   * reached exactly when the body is a multipart entity.
   */
  lemma RetrieveChecksInOrder(v: Version, s: Server, uid: nat, name: string)
    requires !s.selectFails && !s.fetchFails
    ensures UidFetch(s.inbox, uid).None? <==> Retrieve(v, Some(s), uid, name) == Failure(NoMessage)
    ensures Retrieve(v, Some(s), uid, name) == Failure(NoBodySection) <==>
      UidFetch(s.inbox, uid).Some? && UidFetch(s.inbox, uid).value.body.NoSection?
    ensures (UidFetch(s.inbox, uid).Some? && UidFetch(s.inbox, uid).value.body.Section?
      && UidFetch(s.inbox, uid).value.body.mime.Multipart?) ==>
      Retrieve(v, Some(s), uid, name) == Lookup(v, UidFetch(s.inbox, uid).value.body.mime.parts, name)
    ensures Retrieve(v, Some(s), uid, name).Success? ==>
      UidFetch(s.inbox, uid).Some? && UidFetch(s.inbox, uid).value.body.Section?
      && UidFetch(s.inbox, uid).value.body.mime.Multipart?
  {
  }

  /** The NextPart loop. */
  method FindPart(v: Version, ps: seq<PartRead>, name: string) returns (r: Result<(seq<Base64.Byte>, string), AttachmentError>)
    ensures r == Lookup(v, ps, name)
  {
    var i := 0;
    while i < |ps|
      invariant 0 <= i <= |ps|
      invariant Lookup(v, ps, name) == Lookup(v, ps[i..], name)
    {
      assert ps[i..][1..] == ps[i + 1..];
      if ps[i].PartError? {
        return Failure(PartUnreadable);
      }
      var p := ps[i].part;
      var filename := NameOf(v, p);
      if Disposed(v, p) && Ascii.EqualFold(filename, name) {
        if p.body.ReadOk? {
          return Success((p.body.data, filename));
        }
        return Failure(AttachmentUnreadable);
      }
      i := i + 1;
    }
    return Failure(AttachmentMissing);
  }

  method FetchAttachment(v: Version, conn: Option<Server>, uid: nat, name: string) returns (r: Result<(seq<Base64.Byte>, string), AttachmentError>)
    ensures r == Retrieve(v, conn, uid, name)
  {
    if conn.None? {
      return Failure(Command(ConnectFailed));
    }
    var server := conn.value;
    if server.selectFails {
      return Failure(Command(SelectFailed));
    }
    if server.fetchFails {
      return Failure(Command(FetchFailed));
    }
    var msg := UidFetch(server.inbox, uid);
    if msg.None? {
      return Failure(NoMessage);
    }
    var body := msg.value.body;
    if body.NoSection? {
      return Failure(NoBodySection);
    }
    if body.SectionUnreadable? || body.mime.Unparsable? {
      return Failure(Unparsed);
    }
    if body.mime.SinglePart? {
      return Failure(NotMultipart);
    }
    r := FindPart(v, body.mime.parts, name);
  }

  /** No part before j is unreadable or matching. */
  predicate PassedOver(v: Version, ps: seq<PartRead>, name: string, j: nat)
    requires j <= |ps|
  {
    forall k :: 0 <= k < j ==> ps[k].PartOk? && !Matches(v, ps[k].part, name)
  }

  /**
   * The first matching part decides: its data and name are returned, or the
   * read error when its body cannot be read, whatever follows it.
   */
  lemma {:induction false} FirstMatchWins(v: Version, ps: seq<PartRead>, name: string, j: nat)
    requires j < |ps| && PassedOver(v, ps, name, j)
    requires ps[j].PartOk? && Matches(v, ps[j].part, name)
    ensures ps[j].part.body.ReadOk? ==> Lookup(v, ps, name) == Success((ps[j].part.body.data, NameOf(v, ps[j].part)))
    ensures ps[j].part.body.ReadFailed? ==> Lookup(v, ps, name) == Failure(AttachmentUnreadable)
  {
    if j > 0 {
      assert ps[0].PartOk? && !Matches(v, ps[0].part, name);
      FirstMatchWins(v, ps[1..], name, j - 1);
    }
  }

  /** An unreadable part ahead of any match ends the search with an error, even if a later part matches. */
  lemma {:induction false} ErrorBeforeMatchAborts(v: Version, ps: seq<PartRead>, name: string, j: nat)
    requires j < |ps| && PassedOver(v, ps, name, j) && ps[j].PartError?
    ensures Lookup(v, ps, name) == Failure(PartUnreadable)
  {
    if j > 0 {
      assert ps[0].PartOk? && !Matches(v, ps[0].part, name);
      ErrorBeforeMatchAborts(v, ps[1..], name, j - 1);
    }
  }

  /** When every part is read and none matches, the attachment is reported missing. */
  lemma {:induction false} NoMatchMissing(v: Version, ps: seq<PartRead>, name: string)
    requires PassedOver(v, ps, name, |ps|)
    ensures Lookup(v, ps, name) == Failure(AttachmentMissing)
  {
    if ps != [] {
      assert ps[0].PartOk? && !Matches(v, ps[0].part, name);
      NoMatchMissing(v, ps[1..], name);
    }
  }

  /**
   * A successful lookup returns the body of a part that is attachment or
   * inline and whose name equals the requested one up to case, with that
   * part's own name; every part before it was read and did not match.
   */
  lemma {:induction false} LookupSound(v: Version, ps: seq<PartRead>, name: string)
    requires Lookup(v, ps, name).Success?
    ensures exists j :: (0 <= j < |ps| && PassedOver(v, ps, name, j) && ps[j].PartOk?
                         && Matches(v, ps[j].part, name) && ps[j].part.body == ReadOk(Lookup(v, ps, name).value.0)
                         && Lookup(v, ps, name).value.1 == NameOf(v, ps[j].part))
  {
    if !(ps[0].PartOk? && Matches(v, ps[0].part, name)) {
      LookupSound(v, ps[1..], name);
      var j :| 0 <= j < |ps[1..]| && PassedOver(v, ps[1..], name, j) && ps[1..][j].PartOk?
        && Matches(v, ps[1..][j].part, name) && ps[1..][j].part.body == ReadOk(Lookup(v, ps, name).value.0)
        && Lookup(v, ps, name).value.1 == NameOf(v, ps[1..][j].part);
      assert PassedOver(v, ps, name, j + 1) by {
        forall k | 0 <= k < j + 1
          ensures ps[k].PartOk? && !Matches(v, ps[k].part, name)
        {
          if k > 0 {
            assert ps[k] == ps[1..][k - 1];
          }
        }
      }
    } else {
      assert PassedOver(v, ps, name, 0);
    }
  }

  /** The name returned equals the requested name up to case. */
  lemma ReturnedNameFolds(v: Version, ps: seq<PartRead>, name: string)
    requires Lookup(v, ps, name).Success?
    ensures Ascii.EqualFold(Lookup(v, ps, name).value.1, name)
  {
    LookupSound(v, ps, name);
  }

  /** A message that is not multipart never yields an attachment, even one marked attachment itself. */
  lemma SinglePartNeverYields(v: Version, server: Server, uid: nat, name: string, m: Message, p: Part)
    requires !server.selectFails && !server.fetchFails
    requires UidFetch(server.inbox, uid) == Some(m) && m.body.Section? && m.body.mime == SinglePart(p)
    ensures Retrieve(v, Some(server), uid, name) == Failure(NotMultipart)
  {
  }

  /**
   * The two copies agree on a part whose disposition the parser has already
   * lower-cased and which has a disposition filename.
   */
  lemma VersionsAgree(p: Part, name: string)
    requires Ascii.ToLower(p.disposition) == p.disposition
    requires MessageBody.Param(p.dispParams, "filename") != ""
    ensures Matches(Current, p, name) == Matches(Legacy, p, name)
    ensures NameOf(Current, p) == NameOf(Legacy, p)
  {
    DisposedAgree(p);
  }

  /** On a lower-case disposition the exact and the case-blind tests agree. */
  lemma DisposedAgree(p: Part)
    requires Ascii.ToLower(p.disposition) == p.disposition
    ensures Disposed(Current, p) <==> Disposed(Legacy, p)
  {
    Ascii.LoweredNoUpper(p.disposition);
    assert Ascii.NoUpper("attachment") && Ascii.NoUpper("inline");
    Ascii.EqualFoldNoUpper(p.disposition, "attachment");
    Ascii.EqualFoldNoUpper(p.disposition, "inline");
  }

  /**
   * A part named only through its content-type name parameter is found by
   * the older copy and passed over by the current one.
   */
  lemma CtNameOnlyInLegacy(p: Part, name: string)
    requires p.disposition == "attachment" && MessageBody.Param(p.dispParams, "filename") == ""
    requires name != "" && MessageBody.Param(p.ctParams, "name") == name
    ensures Matches(Legacy, p, name) && !Matches(Current, p, name)
  {
    Ascii.EqualFoldReflexive("attachment");
    Ascii.EqualFoldReflexive(name);
  }
}
