/**
 * The IMAP mailbox as the services see it through go-imap: the messages of
 * INBOX in sequence-number order, each with its envelope, its BODYSTRUCTURE
 * and its full body section already split into MIME parts. SEARCH matching is
 * done by the server (section 6.4.4 of RFC 3501), so the server's answer to
 * each criteria value is an input of the model; FETCH is modelled exactly.
 */
module Imap {
  import opened Wrappers
  import Base64
  import BodyStructure

  /** An envelope address: display name, local part and domain. */
  datatype Address = Address(personalName: string, mailboxName: string, hostName: string)

  /** The "%s@%s" rendering of an address that the services build. */
  function AddrSpec(a: Address): (r: string)
    ensures |r| == |a.mailboxName| + 1 + |a.hostName|
    ensures r[|a.mailboxName|] == '@'
  {
    a.mailboxName + "@" + a.hostName
  }

  /** The envelope of a message; `date` is a timestamp in seconds. */
  datatype Envelope = Envelope(date: int, subject: string, from: seq<Address>, to: seq<Address>)

  /** Outcome of io.ReadAll on a part body. */
  datatype BodyRead = ReadOk(data: seq<Base64.Byte>) | ReadFailed

  /**
   * One MIME part after header parsing: media type and disposition as the
   * parser returns them (lower-cased, without parameters) and their
   * parameter maps.
   */
  datatype Part = Part(contentType: string, ctParams: map<string, string>,
                       disposition: string, dispParams: map<string, string>, body: BodyRead)

  /** One call of NextPart: an error, or the next part. */
  datatype PartRead = PartError | PartOk(part: Part)

  /** The result of parsing the raw body as a MIME entity. */
  datatype Mime = Unparsable | SinglePart(part: Part) | Multipart(parts: seq<PartRead>)

  /** The body section `BODY[]` of a fetched message. */
  datatype Section = NoSection | SectionUnreadable | Section(raw: seq<Base64.Byte>, mime: Mime)

  datatype Message = Message(uid: nat, envelope: Option<Envelope>, structure: BodyStructure.Node, body: Section)

  /** HEADER search keys, in the order they were added. */
  datatype Criteria = Criteria(headers: seq<(string, string)>)

  /** A FETCH sequence set: explicit numbers, or the range from:to. */
  datatype SeqSet = Nums(nums: seq<nat>) | Range(lo: nat, hi: nat)

  /**
   * An IMAP account. `search` is the server's reply to SEARCH (None when the
   * command fails); the flags say which other commands fail. A FETCH that
   * fails still streams its first `streamedBeforeError` messages to the
   * channel before it reports the error.
   */
  datatype Server = Server(inbox: seq<Message>, search: Criteria -> Option<seq<nat>>,
                           selectFails: bool, fetchFails: bool, streamedBeforeError: nat)

  /** The failures the services report for the IMAP commands they issue. */
  datatype ImapError = ConnectFailed | SelectFailed | SearchFailed | FetchFailed | MailboxEmpty

  /** string(b) in Go: each byte becomes the character with that code. */
  function Text(b: seq<Base64.Byte>): (s: string)
    ensures |s| == |b|
    ensures forall i :: 0 <= i < |b| ==> s[i] as int == b[i]
  {
    if b == [] then [] else [b[0] as char] + Text(b[1..])
  }

  predicate InSet(ss: SeqSet, n: nat) {
    match ss
    case Nums(ns) => n in ns
    case Range(lo, hi) => lo <= n <= hi
  }

  /** FETCH by sequence number: the messages whose number is in the set, in mailbox order. */
  function Fetch(inbox: seq<Message>, ss: SeqSet): (r: seq<Message>)
    ensures |r| <= |inbox|
    ensures forall m :: m in r ==> m in inbox
  {
    if inbox == [] then []
    else Fetch(inbox[..|inbox| - 1], ss) + (if InSet(ss, |inbox|) then [inbox[|inbox| - 1]] else [])
  }

  /** The message numbers 1..n that the set holds, in ascending order. */
  function Selected(ss: SeqSet, n: nat): (ns: seq<nat>)
    ensures |ns| <= n
    ensures forall k :: 0 <= k < |ns| ==> 1 <= ns[k] <= n
  {
    if n == 0 then [] else Selected(ss, n - 1) + (if InSet(ss, n) then [n] else [])
  }

  /** Every number listed is in the set. */
  lemma {:induction false} SelectedInSet(ss: SeqSet, n: nat)
    ensures forall k :: 0 <= k < |Selected(ss, n)| ==> InSet(ss, Selected(ss, n)[k])
  {
    if n > 0 {
      SelectedInSet(ss, n - 1);
    }
  }

  /** The numbers are listed in strictly ascending order, so each at most once. */
  lemma {:induction false} SelectedAscending(ss: SeqSet, n: nat)
    ensures forall k, l :: 0 <= k < l < |Selected(ss, n)| ==> Selected(ss, n)[k] < Selected(ss, n)[l]
  {
    if n > 0 {
      SelectedAscending(ss, n - 1);
    }
  }

  /** Every number of the set from 1 to n is listed. */
  lemma {:induction false} SelectedComplete(ss: SeqSet, n: nat)
    ensures forall i :: 1 <= i <= n && InSet(ss, i) ==> i in Selected(ss, n)
  {
    if n > 0 {
      SelectedComplete(ss, n - 1);
      var ns, ns0 := Selected(ss, n), Selected(ss, n - 1);
      assert ns == ns0 + (if InSet(ss, n) then [n] else []);
      forall i | 1 <= i <= n && InSet(ss, i)
        ensures i in ns
      {
        if i < n {
          assert i in ns0;
        } else {
          assert ns[|ns| - 1] == n;
        }
      }
    }
  }

  /**
   * FETCH delivers exactly the messages whose numbers the set holds, one per
   * number, in ascending number order.
   */
  lemma {:induction false} FetchSelects(inbox: seq<Message>, ss: SeqSet)
    ensures var r := Fetch(inbox, ss);
      var ns := Selected(ss, |inbox|);
      |r| == |ns| && forall k :: 0 <= k < |r| ==> r[k] == inbox[ns[k] - 1]
  {
    if inbox != [] {
      var n := |inbox|;
      var front := inbox[..n - 1];
      FetchSelects(front, ss);
      var r, r0 := Fetch(inbox, ss), Fetch(front, ss);
      var ns, ns0 := Selected(ss, n), Selected(ss, n - 1);
      forall k | 0 <= k < |r|
        ensures r[k] == inbox[ns[k] - 1]
      {
        if k < |r0| {
          assert r[k] == r0[k] && ns[k] == ns0[k];
          assert front[ns0[k] - 1] == inbox[ns0[k] - 1];
        }
      }
    }
  }

  /** The range 1:n over a mailbox of n messages fetches every message, in order. */
  lemma {:induction false} FetchFullRange(inbox: seq<Message>, n: nat)
    requires |inbox| <= n
    ensures Fetch(inbox, Range(1, n)) == inbox
  {
    if inbox != [] {
      FetchFullRange(inbox[..|inbox| - 1], n);
      assert inbox[..|inbox| - 1] + [inbox[|inbox| - 1]] == inbox;
    }
  }

  /** A set no message number falls in fetches nothing. */
  lemma {:induction false} FetchEmptySet(inbox: seq<Message>, ss: SeqSet)
    requires forall n :: 1 <= n <= |inbox| ==> !InSet(ss, n)
    ensures Fetch(inbox, ss) == []
  {
    if inbox != [] {
      FetchEmptySet(inbox[..|inbox| - 1], ss);
    }
  }

  /**
   * The messages a FETCH of the given numbers puts on the channel before the
   * command returns: all of them when it succeeds, the first
   * `streamedBeforeError` of them when it fails.
   */
  function Delivered(s: Server, nums: seq<nat>): seq<Message> {
    var all := Fetch(s.inbox, Nums(nums));
    if s.fetchFails && s.streamedBeforeError < |all| then all[..s.streamedBeforeError] else all
  }

  /**
   * The messages delivered are a prefix of FETCH's answer: all of it when the
   * command succeeds, its first `streamedBeforeError` messages (or all, if
   * fewer) when it fails.
   */
  lemma DeliveredPrefix(s: Server, nums: seq<nat>)
    ensures Delivered(s, nums) <= Fetch(s.inbox, Nums(nums))
    ensures !s.fetchFails ==> Delivered(s, nums) == Fetch(s.inbox, Nums(nums))
    ensures s.fetchFails ==> |Delivered(s, nums)| == Min(s.streamedBeforeError, |Fetch(s.inbox, Nums(nums))|)
  {
  }

  function Min(a: nat, b: nat): nat {
    if a <= b then a else b
  }

  /** The search for the messages whose From header holds the given address. */
  function SentBy(loggedInEmail: string): Criteria {
    Criteria([("FROM", loggedInEmail)])
  }

  /**
   * UID FETCH of the set go-imap builds with AddNum(uid). A UID of 0 is how
   * go-imap writes `*`, which stands for the highest UID in use (section 6.4.8
   * of RFC 3501), so it fetches the message with the highest UID; any other
   * UID fetches the first message carrying it, if any.
   */
  function UidFetch(inbox: seq<Message>, uid: nat): (r: Option<Message>)
    ensures r.Some? ==> r.value in inbox
    ensures uid != 0 ==> (r.Some? ==> r.value.uid == uid) && (r.None? <==> forall m :: m in inbox ==> m.uid != uid)
    ensures uid == 0 ==> (r.None? <==> inbox == []) && (r.Some? ==> forall m :: m in inbox ==> m.uid <= r.value.uid)
  {
    if uid == 0 then HighestUid(inbox) else WithUid(inbox, uid)
  }

  /** The first message carrying the UID, if any. */
  function WithUid(inbox: seq<Message>, uid: nat): (r: Option<Message>)
    ensures r.Some? ==> r.value in inbox && r.value.uid == uid
    ensures r.None? <==> forall m :: m in inbox ==> m.uid != uid
  {
    if inbox == [] then None
    else if inbox[0].uid == uid then Some(inbox[0])
    else WithUid(inbox[1..], uid)
  }

  /** The message with the highest UID (the first such, in mailbox order), or None for an empty mailbox. */
  function HighestUid(inbox: seq<Message>): (r: Option<Message>)
    ensures r.None? <==> inbox == []
    ensures r.Some? ==> r.value in inbox && forall m :: m in inbox ==> m.uid <= r.value.uid
  {
    if inbox == [] then None
    else match HighestUid(inbox[1..])
      case None => Some(inbox[0])
      case Some(m) => if m.uid > inbox[0].uid then Some(m) else Some(inbox[0])
  }

  /** UIDs strictly ascending in mailbox order, as an IMAP server assigns them. */
  predicate UidsAscending(inbox: seq<Message>) {
    forall i, j :: 0 <= i < j < |inbox| ==> inbox[i].uid < inbox[j].uid
  }

  /** With UIDs assigned in ascending order, UID FETCH of `*` (UID 0) returns the newest message. */
  lemma {:induction false} UidFetchStarIsNewest(inbox: seq<Message>)
    requires UidsAscending(inbox) && inbox != []
    ensures UidFetch(inbox, 0) == Some(inbox[|inbox| - 1])
  {
    var m := UidFetch(inbox, 0).value;
    var last := inbox[|inbox| - 1];
    assert last in inbox;
    var k :| 0 <= k < |inbox| && inbox[k] == m;
    assert m.uid >= last.uid;
  }

  /**
   * With UIDs assigned in ascending order, asking for UID 0 (`*`) returns
   * what asking for the newest message's own UID returns.
   */
  lemma {:induction false} StarIsNewestUid(inbox: seq<Message>)
    requires UidsAscending(inbox) && inbox != [] && inbox[|inbox| - 1].uid != 0
    ensures UidFetch(inbox, 0) == UidFetch(inbox, inbox[|inbox| - 1].uid)
  {
    UidFetchStarIsNewest(inbox);
    var last := inbox[|inbox| - 1];
    var r := UidFetch(inbox, last.uid);
    assert r.Some?;
    var k :| 0 <= k < |inbox| && inbox[k] == r.value;
    assert inbox[k].uid == last.uid;
  }

  /**
   * UID FETCH of a UID other than 0 finds the first message, in mailbox order,
   * that carries it.
   */
  lemma {:induction false} UidFetchFirst(inbox: seq<Message>, uid: nat)
    requires uid != 0
    ensures var r := UidFetch(inbox, uid);
      r.Some? ==> exists k :: 0 <= k < |inbox| && inbox[k] == r.value && forall j :: 0 <= j < k ==> inbox[j].uid != uid
  {
    WithUidFirst(inbox, uid);
  }

  lemma {:induction false} WithUidFirst(inbox: seq<Message>, uid: nat)
    ensures var r := WithUid(inbox, uid);
      r.Some? ==> exists k :: 0 <= k < |inbox| && inbox[k] == r.value && forall j :: 0 <= j < k ==> inbox[j].uid != uid
  {
    if inbox != [] && inbox[0].uid != uid {
      var tail := inbox[1..];
      WithUidFirst(tail, uid);
      var r := WithUid(tail, uid);
      if r.Some? {
        var k :| 0 <= k < |tail| && tail[k] == r.value && forall j :: 0 <= j < k ==> tail[j].uid != uid;
        assert inbox[k + 1] == r.value;
        forall j | 0 <= j < k + 1
          ensures inbox[j].uid != uid
        {
          if j > 0 {
            assert inbox[j] == tail[j - 1];
          }
        }
      }
    }
  }
}
