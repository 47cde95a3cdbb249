/**
 * The enriched recipient list (GetEnrichedRecipients in
 * services/checkPatientDataMongo.go): each recipient entry that has an '@'
 * is paired with the name of the patient whose mobile number is the
 * trimmed text before the '@', falling back to that mobile number when the
 * lookup fails, finds nobody or finds an empty name. Entries without '@'
 * are skipped.
 */
module Recipients {
  import opened Wrappers
  import opened Ascii
  import Seqs
  import opened AccessStore
  import Imap
  import Dropdown

  /** models.RecipientInfo */
  datatype RecipientInfo = RecipientInfo(emailId: string, name: string)

  /** The name GetPatientByMobile yields for a mobile number, if the lookup succeeds and finds a patient. */
  function LookupName(patients: seq<Patient>, faults: set<Fault>, mobile: string): (r: Option<string>)
    ensures r.Some? <==> FindPatientFails !in faults && FirstPatient(patients, mobile).Some?
    ensures r.Some? ==> r.value == patients[FirstPatient(patients, mobile).value].name
  {
    if FindPatientFails in faults then None
    else match FirstPatient(patients, mobile)
      case None => None
      case Some(i) => Some(patients[i].name)
  }

  /** The displayed name: the patient's, when found and non-empty, else the mobile number itself. */
  function NameFor(patients: seq<Patient>, faults: set<Fault>, mobile: string): (r: string)
    ensures r == mobile || (LookupName(patients, faults, mobile) == Some(r) && r != "")
    ensures (exists n :: LookupName(patients, faults, mobile) == Some(n) && n != "") <==> LookupName(patients, faults, mobile) == Some(r) && r != ""
  {
    var n := LookupName(patients, faults, mobile);
    if n.Some? && n.value != "" then n.value else mobile
  }

  /** strings.TrimSpace(strings.Split(e, "@")[0]) for an entry that has an '@'. */
  function MobilePart(e: string): string {
    TrimSpace(e[..IndexOf(e, '@')])
  }

  /** What one entry contributes: nothing without an '@', else its RecipientInfo. */
  function Entry(patients: seq<Patient>, faults: set<Fault>, e: string): seq<RecipientInfo> {
    if '@' !in e then [] else [RecipientInfo(e, NameFor(patients, faults, MobilePart(e)))]
  }

  function EntryFor(patients: seq<Patient>, faults: set<Fault>): string -> seq<RecipientInfo> {
    e => Entry(patients, faults, e)
  }

  /** The list GetEnrichedRecipients builds from the raw entries. */
  function Enriched(patients: seq<Patient>, faults: set<Fault>, raw: seq<string>): seq<RecipientInfo> {
    Seqs.FlatMap(EntryFor(patients, faults), raw)
  }

  /** One raw entry: skipped without an '@', else one patient lookup by its trimmed mobile number. */
  method EnrichEntry(db: Database, email: string) returns (entry: seq<RecipientInfo>)
    ensures entry == Entry(db.patients, db.faults, email)
  {
    var at := IndexOf(email, '@');
    if at == |email| {
      return [];
    }
    var mobile := TrimSpace(email[..at]);
    assert MobilePart(email) == mobile;
    var patient := db.GetPatientByMobile(mobile);
    LookupAgrees(db.patients, db.faults, mobile, patient);
    if patient.Failure? || patient.value.None? || patient.value.value.name == "" {
      return [RecipientInfo(email, mobile)];
    }
    return [RecipientInfo(email, patient.value.value.name)];
  }

  /** The loop over the raw entries. */
  method EnrichRecipients(db: Database, raw: seq<string>) returns (enriched: seq<RecipientInfo>)
    ensures enriched == Enriched(db.patients, db.faults, raw)
  {
    enriched := [];
    var i := 0;
    while i < |raw|
      invariant 0 <= i <= |raw|
      invariant enriched == Seqs.FlatMap(EntryFor(db.patients, db.faults), raw[..i])
    {
      Seqs.FlatMapSnoc(EntryFor(db.patients, db.faults), raw, i);
      var entry := EnrichEntry(db, raw[i]);
      enriched := enriched + entry;
      i := i + 1;
    }
    assert raw[..i] == raw;
  }

  /** What GetPatientByMobile answers is the lookup LookupName describes. */
  lemma LookupAgrees(patients: seq<Patient>, faults: set<Fault>, mobile: string, r: Result<Option<Patient>, Fault>)
    requires FindPatientFails in faults ==> r == Failure(FindPatientFails)
    requires FindPatientFails !in faults ==> r.Success?
    requires r == Success(None) <==> FindPatientFails !in faults && forall j :: 0 <= j < |patients| ==> patients[j].mobile != mobile
    requires r.Success? && r.value.Some? ==>
      exists j :: 0 <= j < |patients| && patients[j] == r.value.value && patients[j].mobile == mobile
        && forall i :: 0 <= i < j ==> patients[i].mobile != mobile
    ensures LookupName(patients, faults, mobile) == (if r.Failure? || r.value.None? then None else Some(r.value.value.name))
  {
    if r.Success? && r.value.Some? {
      var j :| 0 <= j < |patients| && patients[j] == r.value.value && patients[j].mobile == mobile
        && forall i :: 0 <= i < j ==> patients[i].mobile != mobile;
      assert FirstPatient(patients, mobile).Some?;
    }
  }

  /**
   * GetEnrichedRecipients over the slice GetUniqueRecipients returned (any
   * listing of its set): its error is passed on, else the enriched list.
   */
  method GetEnrichedRecipients(db: Database, upstream: Result<seq<string>, Imap.ImapError>) returns (r: Result<seq<RecipientInfo>, Imap.ImapError>)
    ensures upstream.Failure? ==> r == Failure(upstream.error)
    ensures upstream.Success? ==> r == Success(Enriched(db.patients, db.faults, upstream.value))
  {
    if upstream.Failure? {
      return Failure(upstream.error);
    }
    var enriched := EnrichRecipients(db, upstream.value);
    return Success(enriched);
  }

  /** The entries that have an '@', in their order. */
  function WithAt(raw: seq<string>): (r: seq<string>)
    ensures |r| <= |raw|
    ensures forall x :: x in r <==> x in raw && '@' in x
  {
    if raw == [] then [] else (if '@' in raw[0] then [raw[0]] else []) + WithAt(raw[1..])
  }

  /**
   * Exactly one RecipientInfo per entry with an '@', in input order: its
   * EmailId is the entry itself and its Name the looked-up name or the
   * trimmed mobile number.
   */
  lemma {:induction false} EnrichedPerEntry(patients: seq<Patient>, faults: set<Fault>, raw: seq<string>)
    ensures |Enriched(patients, faults, raw)| == |WithAt(raw)|
    ensures forall k :: 0 <= k < |WithAt(raw)| ==>
      Enriched(patients, faults, raw)[k] == RecipientInfo(WithAt(raw)[k], NameFor(patients, faults, MobilePart(WithAt(raw)[k])))
  {
    if raw != [] {
      EnrichedPerEntry(patients, faults, raw[1..]);
    }
  }

  /* ---------- the empty drop-down (see Findings) ---------- */

  /** As written: entries without '@' contribute nothing, so a list of bare mobile numbers enriches to nothing. */
  lemma {:induction false} BareEntriesSkipped(patients: seq<Patient>, faults: set<Fault>, raw: seq<string>)
    requires forall j :: 0 <= j < |raw| ==> '@' !in raw[j]
    ensures Enriched(patients, faults, raw) == []
  {
    if raw != [] {
      BareEntriesSkipped(patients, faults, raw[1..]);
    }
  }

  /**
   * Fed by GetUniqueRecipients of services/fetchDropdownList.go, whose
   * mobile numbers never contain '@', the enriched list is always empty.
   */
  lemma DropdownFeedEnrichesToNothing(patients: seq<Patient>, faults: set<Fault>, emails: seq<string>, sender: string, listing: seq<string>)
    requires forall x :: x in listing ==> x in Dropdown.Mobiles(emails, sender)
    ensures Enriched(patients, faults, listing) == []
  {
    Dropdown.MobilesMeaning(emails, sender);
    BareEntriesSkipped(patients, faults, listing);
  }

  /** The evident intent: an entry without '@' is itself the mobile number. */
  function CorrectedEntry(patients: seq<Patient>, faults: set<Fault>, e: string): RecipientInfo {
    var mobile := if '@' in e then MobilePart(e) else TrimSpace(e);
    RecipientInfo(e, NameFor(patients, faults, mobile))
  }

  function CorrectedFor(patients: seq<Patient>, faults: set<Fault>): string -> RecipientInfo {
    e => CorrectedEntry(patients, faults, e)
  }

  function CorrectedEnriched(patients: seq<Patient>, faults: set<Fault>, raw: seq<string>): seq<RecipientInfo> {
    Seqs.Map(CorrectedFor(patients, faults), raw)
  }

  /**
   * Corrected: every entry, bare mobile number or address, gets exactly one
   * RecipientInfo in input order, named after its patient or its number;
   * on addresses it agrees with the code as written.
   */
  lemma {:induction false} CorrectedEnrichesEvery(patients: seq<Patient>, faults: set<Fault>, raw: seq<string>)
    ensures |CorrectedEnriched(patients, faults, raw)| == |raw|
    ensures forall k :: 0 <= k < |raw| && '@' !in raw[k] ==>
      CorrectedEnriched(patients, faults, raw)[k] == RecipientInfo(raw[k], NameFor(patients, faults, TrimSpace(raw[k])))
    ensures CorrectedEnriched(patients, faults, WithAt(raw)) == Enriched(patients, faults, raw)
  {
    CorrectedAgreesOnAddresses(patients, faults, raw);
  }

  lemma CorrectedAgreesOnAddresses(patients: seq<Patient>, faults: set<Fault>, raw: seq<string>)
    ensures CorrectedEnriched(patients, faults, WithAt(raw)) == Enriched(patients, faults, raw)
  {
    EnrichedPerEntry(patients, faults, raw);
    var w := WithAt(raw);
    var c := CorrectedEnriched(patients, faults, w);
    var e := Enriched(patients, faults, raw);
    forall k | 0 <= k < |w|
      ensures c[k] == e[k]
    {
      assert w[k] in raw;
    }
    Seqs.Pointwise(c, e);
  }
}
