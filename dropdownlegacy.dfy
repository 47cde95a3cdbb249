/**
 * The older drop-down services kept in services/email_services.go.
 * FetchEmailIDs returns the set of normalised recipient addresses of the
 * user's messages (the keys of a Go map, so in no particular order), and
 * GetUniqueRecipients keeps those addresses whole, without the user's own.
 */
module DropdownLegacy {
  import opened Wrappers
  import Seqs
  import opened Imap
  import opened Dropdown

  function FetchEmailIDs(conn: Option<Server>, loggedInEmail: string): Result<set<string>, ImapError> {
    if conn.None? then Failure(ConnectFailed)
    else if conn.value.selectFails then Failure(SelectFailed)
    else match conn.value.search(SentBy(loggedInEmail))
      case None => Failure(SearchFailed)
      case Some(nums) => if nums == [] then Success({}) else Success(Emails(Stream(Delivered(conn.value, nums))))
  }

  /** The inner loop: add the normalised recipients of one message to the set. */
  method NoteEmails(cs: seq<Contact>, ghost pre: seq<Contact>, seen0: set<string>) returns (seen: set<string>)
    requires seen0 == Emails(pre)
    ensures seen == Emails(pre + cs)
  {
    seen := seen0;
    var j := 0;
    assert pre + cs[..0] == pre;
    while j < |cs|
      invariant 0 <= j <= |cs|
      invariant seen == Emails(pre + cs[..j])
    {
      var c := cs[j];
      Seqs.PrefixSnoc(pre, cs, j);
      ghost var seenBefore := seen;
      if c.email != "" && c.email !in seen {
        seen := seen + {c.email};
      }
      SeenStep(pre + cs[..j], c, seenBefore, seen);
      j := j + 1;
    }
    assert cs[..j] == cs;
  }

  method CollectEmails(ms: seq<Message>) returns (seen: set<string>)
    ensures seen == Emails(Stream(ms))
  {
    seen := {};
    var i := 0;
    while i < |ms|
      invariant 0 <= i <= |ms|
      invariant seen == Emails(Stream(ms[..i]))
    {
      Seqs.FlatMapSnoc(MessageContacts, ms, i);
      seen := NoteEmails(MessageContacts(ms[i]), Stream(ms[..i]), seen);
      i := i + 1;
    }
    assert ms[..i] == ms;
  }

  method FetchEmailIDsRun(conn: Option<Server>, loggedInEmail: string) returns (r: Result<set<string>, ImapError>)
    ensures r == FetchEmailIDs(conn, loggedInEmail)
  {
    if conn.None? {
      return Failure(ConnectFailed);
    }
    var s := conn.value;
    if s.selectFails {
      return Failure(SelectFailed);
    }
    var found := s.search(SentBy(loggedInEmail));
    if found.None? {
      return Failure(SearchFailed);
    }
    if found.value == [] {
      return Success({});
    }
    var recipients := CollectEmails(Delivered(s, found.value));
    r := Success(recipients);
  }

  /** The key an entry is stored under in emailSet, if it is admitted. */
  function KeyOf(e: string, sender: string): Option<string> {
    if Admitted(e, sender) then Some(Normalize(e)) else None
  }

  function KeyFor(sender: string): string -> Option<string> {
    e => KeyOf(e, sender)
  }

  /** The admitted entries, normalised: the keys of emailSet. */
  function Normalized(emails: set<string>, sender: string): set<string> {
    Seqs.SetImage(KeyFor(sender), emails)
  }

  /** One turn of the loop: normalise the entry and test it against the user's own address. */
  method KeyOfEntry(e: string, normalizedSender: string, ghost sender: string) returns (key: Option<string>)
    requires normalizedSender == Normalize(sender)
    ensures key == KeyOf(e, sender)
  {
    var normalizedEmail := Normalize(e);
    if normalizedEmail != "" && normalizedEmail != normalizedSender {
      key := Some(normalizedEmail);
    } else {
      key := None;
    }
  }

  /**
   * The loop over the fetched addresses. They arrive as a slice built from
   * the keys of a map, so `emails` may list the set in any order.
   */
  method UniqueRecipients(emails: seq<string>, sender: string) returns (unique: set<string>)
    ensures unique == Normalized((set e | e in emails), sender)
  {
    unique := {};
    var normalizedSender := Normalize(sender);
    var i := 0;
    while i < |emails|
      invariant 0 <= i <= |emails|
      invariant unique == Seqs.Image(KeyFor(sender), emails[..i])
    {
      Seqs.ImageSnoc(KeyFor(sender), emails, i);
      var key := KeyOfEntry(emails[i], normalizedSender, sender);
      if key.Some? && key.value !in unique {
        unique := unique + {key.value};
      }
      i := i + 1;
    }
    assert emails[..i] == emails;
    Seqs.ImageOfSet(KeyFor(sender), emails, (set e | e in emails));
  }

  function GetUniqueRecipients(conn: Option<Server>, loggedInEmail: string): (r: Result<set<string>, ImapError>)
    ensures r.Failure? <==> FetchEmailIDs(conn, loggedInEmail).Failure?
    ensures r.Failure? ==> r.error == FetchEmailIDs(conn, loggedInEmail).error
    ensures r.Success? ==> forall e :: e in r.value ==> e != "" && e != Normalize(loggedInEmail)
  {
    match FetchEmailIDs(conn, loggedInEmail)
    case Failure(e) => Failure(e)
    case Success(emails) => Success(Normalized(emails, loggedInEmail))
  }

  /** Every address the loop collects is already normalised. */
  lemma StreamNormalized(ms: seq<Message>)
    ensures forall e :: e in Emails(Stream(ms)) ==> Normalize(e) == e
  {
    EmailsSeen(Stream(ms));
    forall e | e in Emails(Stream(ms))
      ensures Normalize(e) == e
    {
      var cs := Stream(ms);
      var k :| 0 <= k < |cs| && cs[k].email == e;
      Seqs.FlatMapSource(MessageContacts, ms, cs[k]);
      var j :| 0 <= j < |ms| && cs[k] in MessageContacts(ms[j]);
      var env := ms[j].envelope.value;
      var i :| 0 <= i < |ContactsOf(env.date, env.to)| && ContactsOf(env.date, env.to)[i] == cs[k];
      ContactAt(env.date, env.to, i);
      NormalizeIdempotent(AddrSpec(env.to[i]));
    }
  }

  /** On an address already normalised and non-empty, the key keeps it unless it is the user's own. */
  lemma KeyOfNormalized(e: string, sender: string)
    requires e != "" && Normalize(e) == e
    ensures KeyFor(sender)(e) == (if e == Normalize(sender) then None else Some(e))
  {
  }

  /** The older GetUniqueRecipients drops exactly the user's own address from the fetched set. */
  lemma ExcludesOnlySender(ms: seq<Message>, sender: string)
    ensures Normalized(Emails(Stream(ms)), sender) == Emails(Stream(ms)) - {Normalize(sender)}
  {
    StreamNormalized(ms);
    EmailsSeen(Stream(ms));
    var a := Emails(Stream(ms));
    forall e | e in a
      ensures KeyFor(sender)(e) == (if e == Normalize(sender) then None else Some(e))
    {
      KeyOfNormalized(e, sender);
    }
    Seqs.SetImageDrop(KeyFor(sender), a, Normalize(sender));
  }

  /** Both copies of FetchEmailIDs fail alike, and on success return the same addresses. */
  lemma SameRecipientsAsCurrent(conn: Option<Server>, loggedInEmail: string)
    ensures FetchEmailIDs(conn, loggedInEmail).Success? <==> Dropdown.FetchEmailIDs(conn, loggedInEmail).Success?
    ensures FetchEmailIDs(conn, loggedInEmail).Failure? ==> FetchEmailIDs(conn, loggedInEmail).error == Dropdown.FetchEmailIDs(conn, loggedInEmail).error
    ensures FetchEmailIDs(conn, loggedInEmail).Success? ==>
      forall e :: e in FetchEmailIDs(conn, loggedInEmail).value <==> e in Dropdown.FetchEmailIDs(conn, loggedInEmail).value
  {
    if conn.Some? && !conn.value.selectFails {
      var found := conn.value.search(SentBy(loggedInEmail));
      if found.Some? && found.value != [] {
        RecipientListCorrect(Delivered(conn.value, found.value));
      }
    }
  }
}
