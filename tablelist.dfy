/**
 * The message lists of the inbox views: FetchEmails and
 * FetchAllDoctorsOfPatient in services/fetchTableList.go, and the older
 * FetchEmails in services/email_services.go. Each selects INBOX, picks the
 * messages to fetch (by a header SEARCH or the whole range 1:n), turns every
 * fetched message with an envelope, a sender and a recipient into a summary
 * row, and either sorts the rows latest first (current code) or keeps them
 * in fetch order after a second, case-insensitive check of the recipient
 * (older code).
 */
module TableList {
  import opened Wrappers
  import Ascii
  import Decimal
  import Seqs
  import opened Imap
  import BodyStructure

  /**
   * One row of the list (models.Message). `date` is the envelope timestamp;
   * the rows carry it rendered in the layout "Jan 02 2006 03:04 PM".
   */
  datatype Summary = Summary(id: string, uid: nat, subject: string, from: string, fromName: string,
                             to: string, date: int, attachmentNames: seq<string>)

  /** A message that gets a row: an envelope with at least one sender and one recipient. */
  predicate Listable(m: Message) {
    m.envelope.Some? && |m.envelope.value.from| > 0 && |m.envelope.value.to| > 0
  }

  /**
   * The rows built for a message: listable, and when a recipient filter is
   * given its first recipient contains the filter without regard to case.
   * The current code builds rows with the empty filter.
   */
  predicate Kept(m: Message, toFilter: string) {
    Listable(m)
    && (toFilter == "" || Ascii.Contains(Ascii.ToLower(AddrSpec(m.envelope.value.to[0])), Ascii.ToLower(toFilter)))
  }

  /** The row of a message: first sender and first recipient, the attachment inventory of its structure. */
  function SummaryOf(m: Message): (s: Summary)
    requires Listable(m)
  {
    var e := m.envelope.value;
    Summary(Decimal.Itoa(m.uid), m.uid, e.subject, AddrSpec(e.from[0]), e.from[0].personalName,
            AddrSpec(e.to[0]), e.date, BodyStructure.AttachmentNames(m.structure))
  }

  /** The rows of the kept messages, in fetch order. */
  function Collected(ms: seq<Message>, toFilter: string): (r: seq<Summary>)
    ensures |r| <= |ms|
  {
    if ms == [] then []
    else Collected(ms[..|ms| - 1], toFilter)
         + (if Kept(ms[|ms| - 1], toFilter) then [SummaryOf(ms[|ms| - 1])] else [])
  }

  function DateKey(s: Summary): int {
    s.date
  }

  /** The current list: the rows sorted latest first. */
  function Listing(ms: seq<Message>): seq<Summary> {
    Seqs.Sort(Collected(ms, ""), DateKey)
  }

  /** The SEARCH of the current FetchEmails: a From key for a non-empty sender, then a To key for a non-empty recipient. */
  function HeaderCriteria(loggedInEmail: string, toFilter: string): (c: Criteria)
    ensures forall h :: h in c.headers ==> h == ("From", loggedInEmail) || h == ("To", toFilter)
    ensures ("From", loggedInEmail) in c.headers <==> loggedInEmail != ""
    ensures ("To", toFilter) in c.headers <==> toFilter != ""
    ensures loggedInEmail != "" ==> c.headers[0] == ("From", loggedInEmail)
  {
    Criteria((if loggedInEmail != "" then [("From", loggedInEmail)] else [])
             + (if toFilter != "" then [("To", toFilter)] else []))
  }

  /** The steps all three share up to the choice of messages: connect, select, refuse an empty mailbox. */
  function Opened(conn: Option<Server>): Result<Server, ImapError> {
    if conn.None? then Failure(ConnectFailed)
    else if conn.value.selectFails then Failure(SelectFailed)
    else if |conn.value.inbox| == 0 then Failure(MailboxEmpty)
    else Success(conn.value)
  }

  /** FetchEmails(loggedInEmail, toFilter) of services/fetchTableList.go. */
  function FetchEmails(conn: Option<Server>, loggedInEmail: string, toFilter: string): (r: Result<seq<Summary>, ImapError>)
    ensures r == Failure(ConnectFailed) <==> conn.None?
    ensures r == Failure(SelectFailed) <==> conn.Some? && conn.value.selectFails
    ensures r == Failure(MailboxEmpty) <==> conn.Some? && !conn.value.selectFails && |conn.value.inbox| == 0
    ensures r == Failure(FetchFailed) ==> conn.Some? && conn.value.fetchFails
    ensures r.Success? ==> Seqs.SortedDesc(r.value, DateKey)
  {
    match Opened(conn)
    case Failure(e) => Failure(e)
    case Success(s) =>
      match s.search(HeaderCriteria(loggedInEmail, toFilter))
      case None => Failure(SearchFailed)
      case Some(nums) =>
        if nums == [] then Success([])
        else if s.fetchFails then Failure(FetchFailed)
        else ListingSortedPermutation(Fetch(s.inbox, Nums(nums))); Success(Listing(Fetch(s.inbox, Nums(nums))))
  }

  /**
   * The message set of FetchAllDoctorsOfPatient and of the older FetchEmails:
   * the SEARCH result for a To filter, else every message. None when the
   * search fails, Some(None) when it finds nothing.
   */
  function Selection(s: Server, toFilter: string): Option<Option<SeqSet>> {
    if toFilter == "" then Some(Some(Range(1, |s.inbox|)))
    else match s.search(Criteria([("To", toFilter)]))
      case None => None
      case Some(nums) => if nums == [] then Some(None) else Some(Some(Nums(nums)))
  }

  function FetchAllDoctorsOfPatient(conn: Option<Server>, toFilter: string): (r: Result<seq<Summary>, ImapError>)
    ensures r == Failure(ConnectFailed) <==> conn.None?
    ensures r == Failure(SelectFailed) <==> conn.Some? && conn.value.selectFails
    ensures r == Failure(MailboxEmpty) <==> conn.Some? && !conn.value.selectFails && |conn.value.inbox| == 0
    ensures r == Failure(FetchFailed) ==> conn.Some? && conn.value.fetchFails
    ensures r.Success? ==> Seqs.SortedDesc(r.value, DateKey)
  {
    match Opened(conn)
    case Failure(e) => Failure(e)
    case Success(s) =>
      match Selection(s, toFilter)
      case None => Failure(SearchFailed)
      case Some(None) => Success([])
      case Some(Some(ss)) =>
        if s.fetchFails then Failure(FetchFailed)
        else ListingSortedPermutation(Fetch(s.inbox, ss)); Success(Listing(Fetch(s.inbox, ss)))
  }

  /** FetchEmails(toFilter) of services/email_services.go. */
  function FetchEmailsLegacy(conn: Option<Server>, toFilter: string): (r: Result<seq<Summary>, ImapError>)
    ensures r == Failure(ConnectFailed) <==> conn.None?
    ensures r == Failure(SelectFailed) <==> conn.Some? && conn.value.selectFails
    ensures r == Failure(MailboxEmpty) <==> conn.Some? && !conn.value.selectFails && |conn.value.inbox| == 0
    ensures r == Failure(FetchFailed) ==> conn.Some? && conn.value.fetchFails
  {
    match Opened(conn)
    case Failure(e) => Failure(e)
    case Success(s) =>
      match Selection(s, toFilter)
      case None => Failure(SearchFailed)
      case Some(None) => Success([])
      case Some(Some(ss)) =>
        if s.fetchFails then Failure(FetchFailed) else Success(Collected(Fetch(s.inbox, ss), toFilter))
  }

  lemma CollectedSnoc(ms: seq<Message>, i: nat, toFilter: string)
    requires i < |ms|
    ensures Collected(ms[..i + 1], toFilter)
      == Collected(ms[..i], toFilter) + (if Kept(ms[i], toFilter) then [SummaryOf(ms[i])] else [])
  {
    assert ms[..i + 1][..i] == ms[..i];
  }

  /** The older code's loop over the fetched messages. */
  method Collect(ms: seq<Message>, toFilter: string) returns (rows: seq<Summary>)
    ensures rows == Collected(ms, toFilter)
  {
    rows := [];
    var i := 0;
    while i < |ms|
      invariant 0 <= i <= |ms|
      invariant rows == Collected(ms[..i], toFilter)
    {
      CollectedSnoc(ms, i, toFilter);
      var m := ms[i];
      if m.envelope.None? || |m.envelope.value.from| == 0 || |m.envelope.value.to| == 0 {
        i := i + 1;
        continue;
      }
      var toEmail := AddrSpec(m.envelope.value.to[0]);
      if toFilter != "" && !Ascii.Contains(Ascii.ToLower(toEmail), Ascii.ToLower(toFilter)) {
        i := i + 1;
        continue;
      }
      rows := rows + [SummaryOf(m)];
      i := i + 1;
    }
    assert ms[..i] == ms;
  }

  method FetchEmailsLegacyRun(conn: Option<Server>, toFilter: string) returns (r: Result<seq<Summary>, ImapError>)
    ensures r == FetchEmailsLegacy(conn, toFilter)
  {
    var session := Opened(conn);
    if session.Failure? {
      return Failure(session.error);
    }
    var s := session.value;
    var ss: SeqSet;
    if toFilter != "" {
      var found := s.search(Criteria([("To", toFilter)]));
      if found.None? {
        return Failure(SearchFailed);
      }
      if found.value == [] {
        return Success([]);
      }
      ss := Nums(found.value);
    } else {
      ss := Range(1, |s.inbox|);
    }
    if s.fetchFails {
      return Failure(FetchFailed);
    }
    var rows := Collect(Fetch(s.inbox, ss), toFilter);
    r := Success(rows);
  }

  /** `row` is the row of some kept message of `ms`. */
  predicate RowOfKept(ms: seq<Message>, toFilter: string, row: Summary) {
    exists j :: 0 <= j < |ms| && Kept(ms[j], toFilter) && row == SummaryOf(ms[j])
  }

  /** Every row comes from a kept message. */
  lemma {:induction false} CollectedSound(ms: seq<Message>, toFilter: string)
    ensures forall row :: row in Collected(ms, toFilter) ==> RowOfKept(ms, toFilter, row)
  {
    if ms != [] {
      var init := ms[..|ms| - 1];
      CollectedSound(init, toFilter);
      forall row | row in Collected(ms, toFilter)
        ensures RowOfKept(ms, toFilter, row)
      {
        if row in Collected(init, toFilter) {
          var j :| 0 <= j < |init| && Kept(init[j], toFilter) && row == SummaryOf(init[j]);
          assert ms[j] == init[j];
        } else {
          assert Kept(ms[|ms| - 1], toFilter) && row == SummaryOf(ms[|ms| - 1]);
        }
      }
    }
  }

  /** Every kept message has its row. */
  lemma {:induction false} CollectedComplete(ms: seq<Message>, toFilter: string, j: nat)
    requires j < |ms| && Kept(ms[j], toFilter)
    ensures SummaryOf(ms[j]) in Collected(ms, toFilter)
  {
    var init := ms[..|ms| - 1];
    var last := if Kept(ms[|ms| - 1], toFilter) then [SummaryOf(ms[|ms| - 1])] else [];
    assert Collected(ms, toFilter) == Collected(init, toFilter) + last;
    if j < |ms| - 1 {
      assert init[j] == ms[j];
      CollectedComplete(init, toFilter, j);
    } else {
      assert last == [SummaryOf(ms[j])];
    }
  }

  /**
   * The older code's second check holds of every row it returns, whatever the
   * server's SEARCH matched: the recipient contains the filter, ignoring case.
   */
  lemma RowsMatchFilter(ms: seq<Message>, toFilter: string)
    requires toFilter != ""
    ensures forall row :: row in Collected(ms, toFilter) ==> Ascii.Contains(Ascii.ToLower(row.to), Ascii.ToLower(toFilter))
  {
    CollectedSound(ms, toFilter);
  }

  /** The current list is ordered latest first and holds exactly the rows, each as often as built. */
  lemma ListingSortedPermutation(ms: seq<Message>)
    ensures Seqs.SortedDesc(Listing(ms), DateKey)
    ensures multiset(Listing(ms)) == multiset(Collected(ms, ""))
  {
    Seqs.SortSorted(Collected(ms, ""), DateKey);
    Seqs.SortPerm(Collected(ms, ""), DateKey);
  }

  /**
   * The tail of the current FetchEmails and FetchAllDoctorsOfPatient: the
   * rows are appended as the messages arrive, sorted in place latest first
   * (sort.Slice), then copied out one by one into the result.
   */
  method ListRows(ms: seq<Message>) returns (rows: seq<Summary>)
    ensures Seqs.SortedDesc(rows, DateKey)
    ensures multiset(rows) == multiset(Listing(ms))
  {
    var collected := Collect(ms, "");
    var a := new Summary[|collected|](k requires 0 <= k < |collected| => collected[k]);
    assert a[..] == collected;
    Seqs.SortInPlace(a, DateKey);
    rows := [];
    var k := 0;
    while k < a.Length
      invariant 0 <= k <= a.Length
      invariant rows == a[..k]
    {
      rows := rows + [a[k]];
      k := k + 1;
    }
    assert a[..k] == a[..];
    ListingSortedPermutation(ms);
  }

  /**
   * The current FetchEmails step by step: it fails exactly as `FetchEmails`
   * does, and otherwise lists the same rows latest first (sort.Slice leaves
   * rows with equal timestamps in no particular order).
   */
  method FetchEmailsRun(conn: Option<Server>, loggedInEmail: string, toFilter: string)
    returns (r: Result<seq<Summary>, ImapError>)
    ensures r.Failure? <==> FetchEmails(conn, loggedInEmail, toFilter).Failure?
    ensures r.Failure? ==> r.error == FetchEmails(conn, loggedInEmail, toFilter).error
    ensures r.Success? ==> Seqs.SortedDesc(r.value, DateKey)
    ensures r.Success? ==> multiset(r.value) == multiset(FetchEmails(conn, loggedInEmail, toFilter).value)
  {
    var session := Opened(conn);
    if session.Failure? {
      return Failure(session.error);
    }
    var s := session.value;
    var found := s.search(HeaderCriteria(loggedInEmail, toFilter));
    if found.None? {
      return Failure(SearchFailed);
    }
    if found.value == [] {
      return Success([]);
    }
    if s.fetchFails {
      return Failure(FetchFailed);
    }
    var rows := ListRows(Fetch(s.inbox, Nums(found.value)));
    return Success(rows);
  }

  /** FetchAllDoctorsOfPatient step by step, against `FetchAllDoctorsOfPatient`. */
  method FetchAllDoctorsOfPatientRun(conn: Option<Server>, toFilter: string) returns (r: Result<seq<Summary>, ImapError>)
    ensures r.Failure? <==> FetchAllDoctorsOfPatient(conn, toFilter).Failure?
    ensures r.Failure? ==> r.error == FetchAllDoctorsOfPatient(conn, toFilter).error
    ensures r.Success? ==> Seqs.SortedDesc(r.value, DateKey)
    ensures r.Success? ==> multiset(r.value) == multiset(FetchAllDoctorsOfPatient(conn, toFilter).value)
  {
    var session := Opened(conn);
    if session.Failure? {
      return Failure(session.error);
    }
    var s := session.value;
    var ss: SeqSet;
    if toFilter != "" {
      var found := s.search(Criteria([("To", toFilter)]));
      if found.None? {
        return Failure(SearchFailed);
      }
      if found.value == [] {
        return Success([]);
      }
      ss := Nums(found.value);
    } else {
      ss := Range(1, |s.inbox|);
    }
    if s.fetchFails {
      return Failure(FetchFailed);
    }
    var rows := ListRows(Fetch(s.inbox, ss));
    return Success(rows);
  }

  /**
   * FetchEmails: an empty mailbox is an error, a search that finds nothing
   * is an empty list without error, and a list is always the rows of the
   * found messages, latest first.
   */
  lemma FetchEmailsOutcome(s: Server, loggedInEmail: string, toFilter: string)
    requires !s.selectFails
    ensures |s.inbox| == 0 ==> FetchEmails(Some(s), loggedInEmail, toFilter) == Failure(MailboxEmpty)
    ensures |s.inbox| > 0 && s.search(HeaderCriteria(loggedInEmail, toFilter)) == Some([]) ==>
      FetchEmails(Some(s), loggedInEmail, toFilter) == Success([])
    ensures FetchEmails(Some(s), loggedInEmail, toFilter).Success? && FetchEmails(Some(s), loggedInEmail, toFilter).value != [] ==>
      var nums := s.search(HeaderCriteria(loggedInEmail, toFilter)).value;
      var rows := FetchEmails(Some(s), loggedInEmail, toFilter).value;
      Seqs.SortedDesc(rows, DateKey) && multiset(rows) == multiset(Collected(Fetch(s.inbox, Nums(nums)), ""))
  {
    var r := FetchEmails(Some(s), loggedInEmail, toFilter);
    if |s.inbox| > 0 && r.Success? && r.value != [] {
      ListingSortedPermutation(Fetch(s.inbox, Nums(s.search(HeaderCriteria(loggedInEmail, toFilter)).value)));
    }
  }

  /** Without a filter FetchAllDoctorsOfPatient lists every listable message of the mailbox. */
  lemma AllDoctorsWithoutFilter(s: Server)
    requires !s.selectFails && !s.fetchFails && |s.inbox| > 0
    ensures FetchAllDoctorsOfPatient(Some(s), "") == Success(Listing(s.inbox))
    ensures FetchEmailsLegacy(Some(s), "") == Success(Collected(s.inbox, ""))
  {
    FetchFullRange(s.inbox, |s.inbox|);
  }

  /** On the same selection, the current and the older list hold the same rows; only the order differs. */
  lemma LegacySameRowsWithoutFilter(s: Server)
    requires !s.selectFails && !s.fetchFails && |s.inbox| > 0
    ensures FetchEmailsLegacy(Some(s), "").Success? && FetchAllDoctorsOfPatient(Some(s), "").Success?
    ensures multiset(FetchEmailsLegacy(Some(s), "").value) == multiset(FetchAllDoctorsOfPatient(Some(s), "").value)
  {
    AllDoctorsWithoutFilter(s);
    ListingSortedPermutation(s.inbox);
  }

  /** The row id is the decimal UID, which the body and attachment endpoints parse back. */
  lemma IdRoundTrip(m: Message)
    requires Listable(m) && m.uid <= Decimal.MaxUint32
    ensures Decimal.ParseUint32(SummaryOf(m).id) == Success(m.uid)
  {
    Decimal.ParseItoa(m.uid);
  }

  /** Every name in a row's attachment list is a non-empty name of an attachment node of the message. */
  lemma RowAttachmentsSound(m: Message)
    requires Listable(m)
    ensures forall name :: name in SummaryOf(m).attachmentNames ==>
      name != "" && BodyStructure.NameOfListed(BodyStructure.PreOrder(m.structure), name)
  {
    BodyStructure.AttachmentNamesSound(m.structure);
  }
}
