/**
 * The recipient drop-down (services/fetchDropdownList.go): the addresses the
 * logged-in user has written to, found by a FROM header search, lower-cased
 * and trimmed, each kept once with the date of the first message that named
 * it, ordered latest first; and the mobile numbers (the part before '@') of
 * those addresses other than the user's own.
 */
module Dropdown {
  import opened Wrappers
  import Ascii
  import Seqs
  import opened Imap

  /**
   * strings.Split(email, "@") with exactly two parts gives the part before
   * the '@'; any other number of parts is an error (None).
   */
  function ExtractMobileNumber(email: string): (r: Option<string>)
    ensures r.Some? <==> Ascii.Count(email, '@') == 1
    ensures r.Some? ==> |r.value| < |email| && email == r.value + "@" + email[|r.value| + 1..]
    ensures r.Some? ==> '@' !in r.value && '@' !in email[|r.value| + 1..]
  {
    var k := Ascii.IndexOf(email, '@');
    if Ascii.Count(email, '@') != 1 then None
    else
      Ascii.OnlyOccurrence(email, '@', k);
      Some(email[..k])
  }

  /** ExtractMobileNumber is strings.Split at '@' taken literally: two pieces, and the first one. */
  lemma ExtractIsSplit(email: string)
    ensures ExtractMobileNumber(email) == (if |Ascii.Split(email, '@')| == 2 then Some(Ascii.Split(email, '@')[0]) else None)
  {
    Ascii.SplitPieces(email, '@');
    if Ascii.Count(email, '@') == 1 {
      Ascii.OnlyOccurrence(email, '@', Ascii.IndexOf(email, '@'));
    }
  }

  /** A search that finds nothing gives an empty list and no mobile numbers, not an error. */
  lemma EmptySearchEmptyList(s: Server, loggedInEmail: string)
    requires !s.selectFails && s.search(SentBy(loggedInEmail)) == Some([])
    ensures FetchEmailIDs(Some(s), loggedInEmail) == Success([])
    ensures GetUniqueRecipients(Some(s), loggedInEmail) == Success({})
  {
  }

  /** An address made of a local part and a domain without '@' gives back its local part. */
  lemma ExtractOfAddress(local: string, domain: string)
    requires '@' !in local && '@' !in domain
    ensures ExtractMobileNumber(local + "@" + domain) == Some(local)
  {
    var email := local + "@" + domain;
    assert email[..|local|] == local && email[|local| + 1..] == domain;
    Ascii.CountSplit(email, '@', |local|);
    Ascii.CountSplit(email[|local|..], '@', 1);
    assert email[|local|..][..1] == "@" && email[|local|..][1..] == domain;
  }

  /** strings.ToLower(strings.TrimSpace(s)). */
  function Normalize(s: string): (r: string)
    ensures |r| <= |s|
  {
    Ascii.ToLower(Ascii.TrimSpace(s))
  }

  /** Normalising twice changes nothing. */
  lemma NormalizeIdempotent(s: string)
    ensures Normalize(Normalize(s)) == Normalize(s)
  {
    var t := Ascii.TrimSpace(s);
    var u := Ascii.ToLower(t);
    if u != [] {
      Ascii.LowerSpace(t[0]);
      Ascii.LowerSpace(t[|t| - 1]);
    }
    Ascii.TrimSpaceOfTrimmed(u);
    Ascii.ToLowerIdempotent(t);
  }

  /** A recipient address together with the date of the message it was found in. */
  datatype Contact = Contact(date: int, email: string)

  function ContactDate(c: Contact): int {
    c.date
  }

  function EmailOf(c: Contact): string {
    c.email
  }

  /** The recipients of one envelope, normalised, in header order. */
  function ContactsOf(date: int, to: seq<Address>): (r: seq<Contact>)
    ensures |r| == |to|
  {
    if to == [] then [] else [Contact(date, Normalize(AddrSpec(to[0])))] + ContactsOf(date, to[1..])
  }

  /** The k-th contact is the k-th recipient, normalised, dated with the message. */
  lemma {:induction false} ContactAt(date: int, to: seq<Address>, k: nat)
    requires k < |to|
    ensures ContactsOf(date, to)[k] == Contact(date, Normalize(AddrSpec(to[k])))
  {
    if k > 0 {
      ContactAt(date, to[1..], k - 1);
    }
  }

  function MessageContacts(m: Message): seq<Contact> {
    if m.envelope.None? then [] else ContactsOf(m.envelope.value.date, m.envelope.value.to)
  }

  lemma RecipientsOfMessage(m: Message)
    ensures MessageContacts(m) == [] <==> m.envelope.None? || |m.envelope.value.to| == 0
    ensures m.envelope.Some? ==> |MessageContacts(m)| == |m.envelope.value.to|
  {
  }

  /** Every recipient of every fetched message, in the order the loop meets them. */
  function Stream(ms: seq<Message>): seq<Contact> {
    Seqs.FlatMap(MessageContacts, ms)
  }

  /** The set of non-empty addresses met so far (the uniqueRecipients map). */
  function Emails(cs: seq<Contact>): set<string> {
    if cs == [] then {}
    else Emails(cs[..|cs| - 1]) + (if cs[|cs| - 1].email != "" then {cs[|cs| - 1].email} else {})
  }

  /** Each non-empty address once, with the contact of its first appearance. */
  function FirstContacts(cs: seq<Contact>): seq<Contact> {
    if cs == [] then []
    else
      var init, c := cs[..|cs| - 1], cs[|cs| - 1];
      FirstContacts(init) + (if c.email != "" && c.email !in Emails(init) then [c] else [])
  }

  /** The contacts ordered latest first. */
  function RecipientOrder(ms: seq<Message>): seq<Contact> {
    Seqs.Sort(FirstContacts(Stream(ms)), ContactDate)
  }

  function RecipientList(ms: seq<Message>): seq<string> {
    Seqs.Map(EmailOf, RecipientOrder(ms))
  }

  /** The specification of FetchEmailIDs; the empty search result is an empty list. */
  function FetchEmailIDs(conn: Option<Server>, loggedInEmail: string): Result<seq<string>, ImapError> {
    if conn.None? then Failure(ConnectFailed)
    else if conn.value.selectFails then Failure(SelectFailed)
    else match conn.value.search(SentBy(loggedInEmail))
      case None => Failure(SearchFailed)
      case Some(nums) => if nums == [] then Success([]) else Success(RecipientList(Delivered(conn.value, nums)))
  }

  lemma EmailsSnoc(pre: seq<Contact>, c: Contact)
    ensures Emails(pre + [c]) == Emails(pre) + (if c.email != "" then {c.email} else {})
  {
    assert (pre + [c])[..|pre|] == pre;
  }

  lemma FirstContactsSnoc(pre: seq<Contact>, c: Contact)
    ensures FirstContacts(pre + [c]) == FirstContacts(pre) + (if c.email != "" && c.email !in Emails(pre) then [c] else [])
  {
    assert (pre + [c])[..|pre|] == pre;
  }

  /** The bookkeeping of one turn of the inner loop, on the set of addresses met. */
  lemma SeenStep(acc: seq<Contact>, c: Contact, seen: set<string>, seen': set<string>)
    requires seen == Emails(acc)
    requires seen' == (if c.email != "" && c.email !in seen then seen + {c.email} else seen)
    ensures seen' == Emails(acc + [c])
  {
    EmailsSnoc(acc, c);
  }

  /** The bookkeeping of one turn of the inner loop, on the list of first contacts. */
  lemma ListStep(acc: seq<Contact>, c: Contact, seen: set<string>, list: seq<Contact>, list': seq<Contact>)
    requires seen == Emails(acc) && list == FirstContacts(acc)
    requires list' == list + (if c.email != "" && c.email !in seen then [c] else [])
    ensures list' == FirstContacts(acc + [c])
  {
    FirstContactsSnoc(acc, c);
  }

  /**
   * The inner loop: the normalised recipients of one message, in header
   * order. A message without an envelope or recipients has none
   * (RecipientsOfMessage), which is the loop's `continue`.
   */
  method NoteRecipients(cs: seq<Contact>, ghost pre: seq<Contact>, list0: seq<Contact>, seen0: set<string>)
    returns (list: seq<Contact>, seen: set<string>)
    requires list0 == FirstContacts(pre) && seen0 == Emails(pre)
    ensures list == FirstContacts(pre + cs)
    ensures seen == Emails(pre + cs)
  {
    list, seen := list0, seen0;
    var j := 0;
    Seqs.PrefixEnds(pre, cs);
    while j < |cs|
      invariant 0 <= j <= |cs|
      invariant list == FirstContacts(pre + cs[..j]) && seen == Emails(pre + cs[..j])
    {
      Seqs.PrefixSnoc(pre, cs, j);
      list, seen := NoteContact(cs[j], pre + cs[..j], list, seen);
      j := j + 1;
    }
  }

  /** One turn of the inner loop: a new, non-empty address is noted and listed. */
  method NoteContact(c: Contact, ghost acc: seq<Contact>, list0: seq<Contact>, seen0: set<string>)
    returns (list: seq<Contact>, seen: set<string>)
    requires list0 == FirstContacts(acc) && seen0 == Emails(acc)
    ensures list == FirstContacts(acc + [c]) && seen == Emails(acc + [c])
  {
    list, seen := list0, seen0;
    if c.email != "" && c.email !in seen {
      seen := seen + {c.email};
      list := list + [c];
    }
    SeenStep(acc, c, seen0, seen);
    ListStep(acc, c, seen0, list0, list);
  }

  /** The outer loop over the fetched messages. */
  method CollectContacts(ms: seq<Message>) returns (list: seq<Contact>, seen: set<string>)
    ensures list == FirstContacts(Stream(ms))
    ensures seen == Emails(Stream(ms))
  {
    list, seen := [], {};
    var i := 0;
    while i < |ms|
      invariant 0 <= i <= |ms|
      invariant list == FirstContacts(Stream(ms[..i]))
      invariant seen == Emails(Stream(ms[..i]))
    {
      Seqs.FlatMapSnoc(MessageContacts, ms, i);
      list, seen := NoteRecipients(MessageContacts(ms[i]), Stream(ms[..i]), list, seen);
      i := i + 1;
    }
    assert ms[..i] == ms;
  }

  method FetchEmailIDsRun(conn: Option<Server>, loggedInEmail: string) returns (r: Result<seq<string>, ImapError>)
    ensures r == FetchEmailIDs(conn, loggedInEmail)
  {
    if conn.None? {
      return Failure(ConnectFailed);
    }
    var s := conn.value;
    if s.selectFails {
      return Failure(SelectFailed);
    }
    var found := s.search(SentBy(loggedInEmail));
    if found.None? {
      return Failure(SearchFailed);
    }
    if found.value == [] {
      return Success([]);
    }
    var emailList, _ := CollectContacts(Delivered(s, found.value));
    var sorted := Seqs.Sort(emailList, ContactDate);
    var recipients := AddressesOf(sorted);
    r := Success(recipients);
  }

  /** The final conversion loop: the addresses in list order. */
  method AddressesOf(sorted: seq<Contact>) returns (recipients: seq<string>)
    ensures recipients == Seqs.Map(EmailOf, sorted)
  {
    recipients := [];
    var i := 0;
    while i < |sorted|
      invariant 0 <= i <= |sorted|
      invariant |recipients| == i
      invariant forall k :: 0 <= k < i ==> recipients[k] == sorted[k].email
    {
      recipients := recipients + [sorted[i].email];
      i := i + 1;
    }
  }

  /** `e` is the address of some contact of `cs`. */
  predicate Seen(cs: seq<Contact>, e: string) {
    exists k :: 0 <= k < |cs| && cs[k].email == e
  }

  /** The set of addresses met is exactly the non-empty addresses of the stream. */
  lemma {:induction false} EmailsSeen(cs: seq<Contact>)
    ensures forall e :: e in Emails(cs) <==> e != "" && Seen(cs, e)
  {
    if cs != [] {
      var init := cs[..|cs| - 1];
      EmailsSeen(init);
      forall e | e != "" && Seen(cs, e)
        ensures e in Emails(cs)
      {
        var k :| 0 <= k < |cs| && cs[k].email == e;
        if k < |init| {
          assert init[k] == cs[k];
        }
      }
      forall e | e in Emails(init)
        ensures Seen(cs, e)
      {
        var k :| 0 <= k < |init| && init[k].email == e;
        assert cs[k] == init[k];
      }
    }
  }

  /** Every address met appears in the list, and only those. */
  lemma {:induction false} FirstContactsCover(cs: seq<Contact>)
    ensures forall e :: Seen(FirstContacts(cs), e) <==> e in Emails(cs)
  {
    if cs != [] {
      var init, c := cs[..|cs| - 1], cs[|cs| - 1];
      FirstContactsCover(init);
      var f := FirstContacts(cs);
      var fi := FirstContacts(init);
      assert f == fi + (if c.email != "" && c.email !in Emails(init) then [c] else []);
      forall e | Seen(f, e)
        ensures e in Emails(cs)
      {
        var k :| 0 <= k < |f| && f[k].email == e;
        if k < |fi| {
          assert Seen(fi, e);
        }
      }
      forall e | e in Emails(cs)
        ensures Seen(f, e)
      {
        if e in Emails(init) {
          var k :| 0 <= k < |fi| && fi[k].email == e;
          assert f[k] == fi[k];
        } else {
          assert f[|fi|] == c;
        }
      }
    }
  }

  /** No address is listed twice. */
  lemma {:induction false} FirstContactsDistinct(cs: seq<Contact>)
    ensures Seqs.Distinct(Seqs.Map(EmailOf, FirstContacts(cs)))
  {
    if cs != [] {
      var init, c := cs[..|cs| - 1], cs[|cs| - 1];
      FirstContactsDistinct(init);
      FirstContactsCover(init);
      var f := FirstContacts(cs);
      var fi := FirstContacts(init);
      var em := Seqs.Map(EmailOf, f);
      var emi := Seqs.Map(EmailOf, fi);
      forall i, j | 0 <= i < j < |em|
        ensures em[i] != em[j]
      {
        if j < |fi| {
          assert em[i] == emi[i] && em[j] == emi[j];
        } else {
          assert f[j] == c && c.email !in Emails(init);
          assert f[i] == fi[i];
          assert !Seen(fi, c.email);
        }
      }
    }
  }

  /** The contact kept for an address is that of its first appearance: the address was not met before it. */
  predicate FirstOccurrence(cs: seq<Contact>, c: Contact) {
    exists j :: 0 <= j < |cs| && cs[j] == c && !Seen(cs[..j], c.email)
  }

  lemma {:induction false} FirstContactsAreFirst(cs: seq<Contact>)
    ensures forall c :: c in FirstContacts(cs) ==> FirstOccurrence(cs, c)
  {
    if cs != [] {
      var init, c := cs[..|cs| - 1], cs[|cs| - 1];
      FirstContactsAreFirst(init);
      EmailsSeen(init);
      forall x | x in FirstContacts(cs)
        ensures FirstOccurrence(cs, x)
      {
        if x in FirstContacts(init) {
          var j :| 0 <= j < |init| && init[j] == x && !Seen(init[..j], x.email);
          assert cs[..j] == init[..j];
          assert cs[j] == init[j];
        } else {
          assert x == c && c.email != "" && c.email !in Emails(init);
          assert cs[..|init|] == init;
        }
      }
    }
  }

  /**
   * FetchEmailIDs lists each non-empty recipient address of the fetched
   * messages exactly once, ordered latest first by the date it was first met.
   */
  lemma RecipientListCorrect(ms: seq<Message>)
    ensures Seqs.Distinct(RecipientList(ms))
    ensures forall e :: e in RecipientList(ms) <==> e in Emails(Stream(ms))
    ensures Seqs.SortedDesc(RecipientOrder(ms), ContactDate)
    ensures multiset(RecipientOrder(ms)) == multiset(FirstContacts(Stream(ms)))
  {
    var f := FirstContacts(Stream(ms));
    Seqs.SortSorted(f, ContactDate);
    Seqs.SortPerm(f, ContactDate);
    Seqs.SortMapPerm(f, ContactDate, EmailOf);
    FirstContactsDistinct(Stream(ms));
    Seqs.PermDistinct(Seqs.Map(EmailOf, f), RecipientList(ms));
    FirstContactsCover(Stream(ms));
    forall e
      ensures e in RecipientList(ms) <==> e in Emails(Stream(ms))
    {
      var em := Seqs.Map(EmailOf, f);
      assert e in RecipientList(ms) <==> e in multiset(RecipientList(ms));
      assert e in em <==> e in multiset(em);
      if e in em {
        var k :| 0 <= k < |em| && em[k] == e;
        assert f[k].email == e;
      }
      if Seen(f, e) {
        var k :| 0 <= k < |f| && f[k].email == e;
        assert em[k] == e;
      }
    }
  }

  /** The admission test of GetUniqueRecipients: non-empty after normalising, and not the sender. */
  predicate Admitted(e: string, sender: string) {
    Normalize(e) != "" && Normalize(e) != Normalize(sender)
  }

  /** The mobile number an entry contributes, if it is admitted and splits at a single '@'. */
  function MobileOf(e: string, sender: string): (r: Option<string>)
    ensures r.Some? ==> '@' !in r.value
  {
    if Admitted(e, sender) then ExtractMobileNumber(Normalize(e)) else None
  }

  /** MobileOf for a fixed sender, as a function value. */
  function MobileFor(sender: string): string -> Option<string> {
    e => MobileOf(e, sender)
  }

  /** The set of mobile numbers (the emailSet map) built from `emails`. */
  function Mobiles(emails: seq<string>, sender: string): set<string> {
    Seqs.Image(MobileFor(sender), emails)
  }

  method UniqueMobiles(emails: seq<string>, sender: string) returns (mobiles: set<string>)
    ensures mobiles == Mobiles(emails, sender)
  {
    mobiles := {};
    var normalizedSender := Normalize(sender);
    var i := 0;
    while i < |emails|
      invariant 0 <= i <= |emails|
      invariant mobiles == Mobiles(emails[..i], sender)
    {
      ghost var before := mobiles;
      ghost var expected := MobileOf(emails[i], sender);
      assert MobileFor(sender)(emails[i]) == expected;
      var normalizedEmail := Normalize(emails[i]);
      if normalizedEmail != "" && normalizedEmail != normalizedSender {
        var mobileNumber := ExtractMobileNumber(normalizedEmail);
        assert mobileNumber == expected;
        if mobileNumber.Some? && mobileNumber.value !in mobiles {
          mobiles := mobiles + {mobileNumber.value};
        }
      } else {
        assert expected.None?;
      }
      Seqs.ImageExtend(MobileFor(sender), emails, i, before, mobiles);
      i := i + 1;
    }
    assert emails[..i] == emails;
  }

  /**
   * The specification of GetUniqueRecipients: the set of mobile numbers; the
   * returned slice lists each of them once.
   */
  function GetUniqueRecipients(conn: Option<Server>, loggedInEmail: string): (r: Result<set<string>, ImapError>)
    ensures r.Failure? <==> FetchEmailIDs(conn, loggedInEmail).Failure?
    ensures r.Failure? ==> r.error == FetchEmailIDs(conn, loggedInEmail).error
    ensures r.Success? ==> forall m :: m in r.value ==> '@' !in m
  {
    match FetchEmailIDs(conn, loggedInEmail)
    case Failure(e) => Failure(e)
    case Success(list) => MobilesMeaning(list, loggedInEmail); Success(Mobiles(list, loggedInEmail))
  }

  /**
   * A number is listed exactly when some admitted entry splits into it and
   * a domain; no listed number contains '@'.
   */
  lemma MobilesMeaning(emails: seq<string>, sender: string)
    ensures forall m :: m in Mobiles(emails, sender) <==> exists k :: 0 <= k < |emails| && MobileOf(emails[k], sender) == Some(m)
    ensures forall m :: m in Mobiles(emails, sender) ==> '@' !in m
  {
    Seqs.ImageMeaning(MobileFor(sender), emails);
  }

  /** An address of the sender itself never contributes, nor does one without exactly one '@'. */
  lemma MobileOfExcludes(e: string, sender: string)
    ensures Normalize(e) == Normalize(sender) ==> MobileOf(e, sender) == None
    ensures Ascii.Count(Normalize(e), '@') != 1 ==> MobileOf(e, sender) == None
    ensures Admitted(e, sender) && Ascii.Count(Normalize(e), '@') == 1 ==> MobileOf(e, sender).Some?
  {
  }
}
