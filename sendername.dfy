/**
 * The user's display name and the one-time code (services/email_service.go).
 * FetchFromNameByEmail searches INBOX for messages from the user, fetches
 * the envelopes of the last ten of them and returns the display name of the
 * first From address that is the user's own address up to case, in title
 * case; it returns "" when there is nothing to go on.
 */
module SenderName {
  import opened Wrappers
  import Ascii
  import Decimal
  import Seqs
  import opened Imap

  /**
   * GenerateOTP: fmt.Sprintf("%06d", rand.Intn(1000000)). The random draw is
   * a parameter; the code is six digits that spell the draw.
   */
  function GenerateOTP(draw: nat): (otp: string)
    requires draw < 1000000
    ensures |otp| == 6 && Decimal.AllDigits(otp) && Decimal.Value(otp) == draw
  {
    Decimal.ZeroPad6(draw)
  }

  /** Different draws give different codes. */
  lemma OtpInjective(a: nat, b: nat)
    requires a < 1000000 && b < 1000000 && a != b
    ensures GenerateOTP(a) != GenerateOTP(b)
  {
    var x, y := GenerateOTP(a), GenerateOTP(b);
    assert Decimal.Value(x) != Decimal.Value(y);
  }

  /** At most the last ten sequence numbers of the search result are fetched. */
  function Window(nums: seq<nat>): (w: seq<nat>)
    ensures |nums| <= 10 ==> w == nums
    ensures |nums| > 10 ==> |w| == 10 && nums == nums[..|nums| - 10] + w
  {
    if |nums| > 10 then nums[|nums| - 10..] else nums
  }

  /** A From address that gives the user's name: the user's address up to case, with a display name. */
  predicate Names(a: Address, loggedInEmail: string) {
    Ascii.EqualFold(AddrSpec(a), loggedInEmail) && a.personalName != ""
  }

  /** strings.Title(strings.ToLower(personal name)). */
  function Display(a: Address): (name: string)
    ensures |name| == |a.personalName|
  {
    Ascii.Title(Ascii.ToLower(a.personalName))
  }

  /** The From addresses of a message; a message without an envelope has none. */
  function FromOf(m: Message): seq<Address> {
    if m.envelope.Some? then m.envelope.value.from else []
  }

  /** Every From address of the messages, message by message and in header order. */
  function Senders(ms: seq<Message>): seq<Address> {
    Seqs.FlatMap(FromOf, ms)
  }

  /** The display name of the first address that names the user. */
  function FirstName(addrs: seq<Address>, loggedInEmail: string): Option<string> {
    if addrs == [] then None
    else if Names(addrs[0], loggedInEmail) then Some(Display(addrs[0]))
    else FirstName(addrs[1..], loggedInEmail)
  }

  /** The specification of FetchFromNameByEmail; None for `conn` is a failed ConnectIMAP. */
  function FetchFromNameByEmail(conn: Option<Server>, loggedInEmail: string): Result<string, ImapError> {
    if conn.None? then Failure(ConnectFailed)
    else if conn.value.selectFails then Failure(SelectFailed)
    else match conn.value.search(SentBy(loggedInEmail))
      case None => Success("")
      case Some(nums) =>
        if nums == [] then Success("")
        else match FirstName(Senders(Delivered(conn.value, Window(nums))), loggedInEmail)
          case Some(name) => Success(name)
          case None => if conn.value.fetchFails then Failure(FetchFailed) else Success("")
  }

  lemma FirstNameAppend(a: seq<Address>, b: seq<Address>, e: string)
    ensures FirstName(a + b, e) == if FirstName(a, e).Some? then FirstName(a, e) else FirstName(b, e)
  {
    if a != [] {
      assert (a + b)[1..] == a[1..] + b;
      FirstNameAppend(a[1..], b, e);
    } else {
      assert a + b == b;
    }
  }

  /** The loops over the fetched messages and their From addresses, returning at the first match. */
  method ScanSenders(ms: seq<Message>, loggedInEmail: string) returns (r: Option<string>)
    ensures r == FirstName(Senders(ms), loggedInEmail)
  {
    var i := 0;
    while i < |ms|
      invariant 0 <= i <= |ms|
      invariant FirstName(Senders(ms), loggedInEmail) == FirstName(Senders(ms[i..]), loggedInEmail)
    {
      assert ms[i..][1..] == ms[i + 1..];
      FirstNameAppend(FromOf(ms[i]), Senders(ms[i + 1..]), loggedInEmail);
      if ms[i].envelope.Some? {
        var from := ms[i].envelope.value.from;
        var j := 0;
        while j < |from|
          invariant 0 <= j <= |from|
          invariant FirstName(from, loggedInEmail) == FirstName(from[j..], loggedInEmail)
        {
          assert from[j..][1..] == from[j + 1..];
          var addr := from[j];
          if Ascii.EqualFold(addr.mailboxName + "@" + addr.hostName, loggedInEmail) && addr.personalName != "" {
            return Some(Ascii.Title(Ascii.ToLower(addr.personalName)));
          }
          j := j + 1;
        }
      }
      i := i + 1;
    }
    return None;
  }

  method FetchFromNameByEmailRun(conn: Option<Server>, loggedInEmail: string) returns (r: Result<string, ImapError>)
    ensures r == FetchFromNameByEmail(conn, loggedInEmail)
  {
    if conn.None? {
      return Failure(ConnectFailed);
    }
    var client := conn.value;
    if client.selectFails {
      return Failure(SelectFailed);
    }
    var found := client.search(SentBy(loggedInEmail));
    if found.None? || found.value == [] {
      return Success("");
    }
    var seqNums := found.value;
    if |seqNums| > 10 {
      seqNums := seqNums[|seqNums| - 10..];
    }
    var name := ScanSenders(Delivered(client, seqNums), loggedInEmail);
    if name.Some? {
      return Success(name.value);
    }
    if client.fetchFails {
      return Failure(FetchFailed);
    }
    return Success("");
  }

  /** The name found belongs to an address naming the user, and no earlier address does. */
  lemma {:induction false} FirstNameSound(addrs: seq<Address>, e: string)
    requires FirstName(addrs, e).Some?
    ensures exists k :: (0 <= k < |addrs| && Names(addrs[k], e) && FirstName(addrs, e).value == Display(addrs[k])
                         && forall j :: 0 <= j < k ==> !Names(addrs[j], e))
  {
    if !Names(addrs[0], e) {
      FirstNameSound(addrs[1..], e);
      var k :| 0 <= k < |addrs[1..]| && Names(addrs[1..][k], e) && FirstName(addrs[1..], e).value == Display(addrs[1..][k])
        && forall j :: 0 <= j < k ==> !Names(addrs[1..][j], e);
      assert forall j :: 0 <= j < k + 1 ==> !Names(addrs[j], e) by {
        forall j | 0 <= j < k + 1
          ensures !Names(addrs[j], e)
        {
          if j > 0 {
            assert addrs[j] == addrs[1..][j - 1];
          }
        }
      }
      assert addrs[k + 1] == addrs[1..][k];
    }
  }

  /** A name that is found is never empty. */
  lemma FoundNameNonEmpty(addrs: seq<Address>, e: string)
    requires FirstName(addrs, e).Some?
    ensures FirstName(addrs, e).value != ""
  {
    FirstNameSound(addrs, e);
  }

  /** No address of the list names the user. */
  predicate NoneNames(addrs: seq<Address>, e: string) {
    forall k :: 0 <= k < |addrs| ==> !Names(addrs[k], e)
  }

  /** No name is found exactly when no address names the user. */
  lemma {:induction false} FirstNameNone(addrs: seq<Address>, e: string)
    ensures FirstName(addrs, e).None? <==> NoneNames(addrs, e)
  {
    if addrs != [] {
      FirstNameNone(addrs[1..], e);
      assert forall k :: 1 <= k < |addrs| ==> addrs[k] == addrs[1..][k - 1];
    }
  }

  /**
   * With a successful search and FETCH, the result is "" exactly when no
   * From address of the fetched messages names the user: a name that is
   * found is never empty.
   */
  lemma EmptyMeansNoMatch(s: Server, e: string, nums: seq<nat>)
    requires !s.selectFails && !s.fetchFails && s.search(SentBy(e)) == Some(nums) && nums != []
    ensures FetchFromNameByEmail(Some(s), e) == Success("") <==> NoneNames(Senders(Fetch(s.inbox, Nums(Window(nums)))), e)
  {
    var addrs := Senders(Fetch(s.inbox, Nums(Window(nums))));
    FirstNameNone(addrs, e);
    if FirstName(addrs, e).Some? {
      FoundNameNonEmpty(addrs, e);
    }
  }

  /**
   * The messages are read before the FETCH error is looked at: the lookup
   * fails exactly when the FETCH fails and none of the messages it streamed
   * first names the user; a name among them is returned as usual.
   */
  lemma FetchErrorAfterScan(s: Server, e: string, nums: seq<nat>)
    requires !s.selectFails && s.search(SentBy(e)) == Some(nums) && nums != []
    ensures (FetchFromNameByEmail(Some(s), e) == Failure(FetchFailed)
             <==> s.fetchFails && NoneNames(Senders(Delivered(s, Window(nums))), e))
    ensures (FirstName(Senders(Delivered(s, Window(nums))), e).Some?
             ==> FetchFromNameByEmail(Some(s), e) == Success(FirstName(Senders(Delivered(s, Window(nums))), e).value))
  {
    FirstNameNone(Senders(Delivered(s, Window(nums))), e);
  }

  /** A failed or empty search is not an error: the name is just "". */
  lemma NoMessagesNoName(s: Server, e: string)
    requires !s.selectFails
    requires s.search(SentBy(e)).None? || s.search(SentBy(e)) == Some([])
    ensures FetchFromNameByEmail(Some(s), e) == Success("")
  {
  }
}

/**
 * The older FetchFromNameByEmail in services/email_services.go. A failed
 * search is an error; the matches are fetched one at a time from the newest
 * (last) sequence number back to the oldest, the FETCH error is not looked
 * at, and the user's own address is returned when no name turns up.
 */
module SenderNameLegacy {
  import opened Wrappers
  import Seqs
  import opened Imap
  import opened SenderName

  /** The messages met in the scan: one FETCH per number, newest number first. */
  function Newest(s: Server, nums: seq<nat>): seq<Message> {
    if nums == [] then []
    else Delivered(s, [nums[|nums| - 1]]) + Newest(s, nums[..|nums| - 1])
  }

  function FetchFromNameByEmail(conn: Option<Server>, loggedInEmail: string): Result<string, ImapError> {
    if conn.None? then Failure(ConnectFailed)
    else if conn.value.selectFails then Failure(SelectFailed)
    else match conn.value.search(SentBy(loggedInEmail))
      case None => Failure(SearchFailed)
      case Some(nums) =>
        if nums == [] then Success(loggedInEmail)
        else match FirstName(Senders(Newest(conn.value, nums)), loggedInEmail)
          case Some(name) => Success(name)
          case None => Success(loggedInEmail)
  }

  /** The scan from the last number back to the first, stopping at the first name. */
  method ScanNewestFirst(s: Server, nums: seq<nat>, loggedInEmail: string) returns (r: Option<string>)
    ensures r == FirstName(Senders(Newest(s, nums)), loggedInEmail)
  {
    var i := |nums|;
    assert nums[..i] == nums;
    while i > 0
      invariant 0 <= i <= |nums|
      invariant FirstName(Senders(Newest(s, nums)), loggedInEmail) == FirstName(Senders(Newest(s, nums[..i])), loggedInEmail)
    {
      assert nums[..i][..i - 1] == nums[..i - 1];
      var batch := Delivered(s, [nums[i - 1]]);
      Seqs.FlatMapAppend(FromOf, batch, Newest(s, nums[..i - 1]));
      FirstNameAppend(Senders(batch), Senders(Newest(s, nums[..i - 1])), loggedInEmail);
      r := ScanSenders(batch, loggedInEmail);
      if r.Some? {
        return;
      }
      i := i - 1;
    }
    return None;
  }

  method FetchFromNameByEmailRun(conn: Option<Server>, loggedInEmail: string) returns (r: Result<string, ImapError>)
    ensures r == FetchFromNameByEmail(conn, loggedInEmail)
  {
    if conn.None? {
      return Failure(ConnectFailed);
    }
    var client := conn.value;
    if client.selectFails {
      return Failure(SelectFailed);
    }
    var found := client.search(SentBy(loggedInEmail));
    if found.None? {
      return Failure(SearchFailed);
    }
    if found.value == [] {
      return Success(loggedInEmail);
    }
    var name := ScanNewestFirst(client, found.value, loggedInEmail);
    if name.Some? {
      return Success(name.value);
    }
    return Success(loggedInEmail);
  }

  /**
   * Newest first: when the messages of every number after position k give no
   * name and those of number k do, the result is the name from number k.
   */
  lemma {:induction false} NewestNameWins(s: Server, nums: seq<nat>, e: string, k: nat)
    requires k < |nums|
    requires FirstName(Senders(Delivered(s, [nums[k]])), e).Some?
    requires forall j :: k < j < |nums| ==> FirstName(Senders(Delivered(s, [nums[j]])), e).None?
    ensures FirstName(Senders(Newest(s, nums)), e) == FirstName(Senders(Delivered(s, [nums[k]])), e)
    decreases |nums|
  {
    var last := Delivered(s, [nums[|nums| - 1]]);
    var init := nums[..|nums| - 1];
    Seqs.FlatMapAppend(FromOf, last, Newest(s, init));
    FirstNameAppend(Senders(last), Senders(Newest(s, init)), e);
    if k < |nums| - 1 {
      assert forall j :: k < j < |init| ==> init[j] == nums[j];
      NewestNameWins(s, init, e, k);
    }
  }

  /** With no naming address anywhere in the scanned messages, the user's address comes back. */
  lemma FallsBackToAddress(s: Server, e: string, nums: seq<nat>)
    requires !s.selectFails && s.search(SentBy(e)) == Some(nums)
    requires NoneNames(Senders(Newest(s, nums)), e)
    ensures FetchFromNameByEmail(Some(s), e) == Success(e)
  {
    FirstNameNone(Senders(Newest(s, nums)), e);
  }

  /** The two copies differ when nothing names the user: the older one returns the address, the newer one "". */
  lemma FallbackDiffers(s: Server, e: string, nums: seq<nat>)
    requires !s.selectFails && !s.fetchFails && s.search(SentBy(e)) == Some(nums) && nums == []
    requires e != ""
    ensures FetchFromNameByEmail(Some(s), e) == Success(e)
    ensures SenderName.FetchFromNameByEmail(Some(s), e) == Success("")
  {
  }
}
