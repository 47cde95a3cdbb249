/**
 * The two MongoDB collections behind the patient screens and the services
 * over them (services/mongoDBEmailCheck.go, GetPatientByMobile in
 * services/checkPatientDataMongo.go and the older CheckEmailExists in
 * services/email_services.go). PatientData holds patient documents and
 * RecordAccessRights holds (DoctorId, PatientId, HasAccess) records, both
 * in natural order, which is the order FindOne and UpdateOne search in.
 * Which calls fail for reasons other than finding nothing is part of the
 * state (`faults`); a failing call changes nothing.
 */
module AccessStore {
  import opened Wrappers
  import Seqs

  /** A PatientData document (models.PatientDataModel without the doctor fields). */
  datatype Patient = Patient(name: string, email: string, dob: string, gender: string, mobile: string)

  /** A RecordAccessRights document; HasAccess is "Y" or "N" by convention, any string in fact. */
  datatype Access = Access(doctorId: string, patientId: string, hasAccess: string)

  /** The collection calls that can fail other than by finding no document. */
  datatype Fault = FindPatientFails | FindAccessFails | InsertPatientFails | InsertAccessFails | UpdateAccessFails

  /** A bson.M filter on the access collection; HasAccess is constrained only when given. */
  datatype Filter = Filter(doctorId: string, patientId: string, hasAccess: Option<string>)

  /** What CheckAccessValue returns when no record exists. */
  const NotFound: string := "NOT_FOUND"

  predicate Matches(a: Access, f: Filter) {
    a.doctorId == f.doctorId && a.patientId == f.patientId && (f.hasAccess.Some? ==> a.hasAccess == f.hasAccess.value)
  }

  /** The filter on a doctor and a patient only. */
  function Pair(d: string, p: string): Filter {
    Filter(d, p, None)
  }

  /** The record FindOne and UpdateOne pick: the first that matches. */
  function First(s: seq<Access>, f: Filter): Option<nat> {
    Seqs.FirstIndex(s, (a: Access) => Matches(a, f))
  }

  function FirstPatient(s: seq<Patient>, mobile: string): Option<nat> {
    Seqs.FirstIndex(s, (x: Patient) => x.mobile == mobile)
  }

  /** UpdateOne with $set HasAccess: only the first matching record changes. */
  function SetFirst(s: seq<Access>, f: Filter, v: string): seq<Access> {
    match First(s, f)
    case None => s
    case Some(i) => s[i := s[i].(hasAccess := v)]
  }

  /** The collection after a successful UpdateAccessIfExists(d, p). */
  function Granted(s: seq<Access>, d: string, p: string): seq<Access> {
    if First(s, Filter(d, p, Some("N"))).Some? then SetFirst(s, Filter(d, p, Some("N")), "Y")
    else s + [Access(d, p, "Y")]
  }

  /** What CheckAccessValue reads for a pair when the query succeeds. */
  function AccessValue(s: seq<Access>, d: string, p: string): string {
    match First(s, Pair(d, p))
    case None => NotFound
    case Some(i) => s[i].hasAccess
  }

  /** NOT_FOUND exactly for a pair without records, else the first record's value verbatim. */
  lemma AccessValueFirstMatch(s: seq<Access>, d: string, p: string)
    ensures (forall j :: 0 <= j < |s| ==> !Matches(s[j], Pair(d, p))) ==> AccessValue(s, d, p) == NotFound
    ensures forall i :: 0 <= i < |s| && Matches(s[i], Pair(d, p)) && (forall j :: 0 <= j < i ==> !Matches(s[j], Pair(d, p))) ==>
      AccessValue(s, d, p) == s[i].hasAccess
  {
    forall i | 0 <= i < |s| && Matches(s[i], Pair(d, p)) && (forall j :: 0 <= j < i ==> !Matches(s[j], Pair(d, p)))
      ensures AccessValue(s, d, p) == s[i].hasAccess
    {
      assert First(s, Pair(d, p)).Some?;
    }
  }

  class Database {
    var patients: seq<Patient>
    var access: seq<Access>
    var faults: set<Fault>

    constructor (patients0: seq<Patient>, access0: seq<Access>, faults0: set<Fault>)
      ensures patients == patients0 && access == access0 && faults == faults0
    {
      patients := patients0;
      access := access0;
      faults := faults0;
    }

    /** GetPatientByMobile: the first patient with the mobile, None on a miss, an error only on a failing query. */
    method GetPatientByMobile(mobile: string) returns (r: Result<Option<Patient>, Fault>)
      ensures FindPatientFails in faults ==> r == Failure(FindPatientFails)
      ensures FindPatientFails !in faults ==> r.Success?
      ensures r == Success(None) <==> FindPatientFails !in faults && forall j :: 0 <= j < |patients| ==> patients[j].mobile != mobile
      ensures r.Success? && r.value.Some? ==>
        exists j :: 0 <= j < |patients| && patients[j] == r.value.value && patients[j].mobile == mobile
          && forall i :: 0 <= i < j ==> patients[i].mobile != mobile
    {
      if FindPatientFails in faults {
        return Failure(FindPatientFails);
      }
      var k := FirstPatient(patients, mobile);
      if k.None? {
        return Success(None);
      }
      return Success(Some(patients[k.value]));
    }

    /** FindOne on the access collection. */
    method FindAccess(f: Filter) returns (r: Result<Option<Access>, Fault>)
      ensures FindAccessFails in faults ==> r == Failure(FindAccessFails)
      ensures FindAccessFails !in faults ==> r == Success(if First(access, f).Some? then Some(access[First(access, f).value]) else None)
    {
      if FindAccessFails in faults {
        return Failure(FindAccessFails);
      }
      var k := First(access, f);
      if k.None? {
        return Success(None);
      }
      return Success(Some(access[k.value]));
    }

    /** UpdateOne(filter, $set HasAccess): the number of records it modified. */
    method UpdateAccess(f: Filter, v: string) returns (r: Result<nat, Fault>)
      modifies this
      ensures patients == old(patients) && faults == old(faults)
      ensures UpdateAccessFails in faults ==> r == Failure(UpdateAccessFails) && access == old(access)
      ensures UpdateAccessFails !in faults ==> access == SetFirst(old(access), f, v)
      ensures UpdateAccessFails !in faults ==>
        r == Success(if First(old(access), f).Some? && old(access)[First(old(access), f).value].hasAccess != v then 1 else 0)
    {
      if UpdateAccessFails in faults {
        return Failure(UpdateAccessFails);
      }
      var k := First(access, f);
      if k.None? {
        return Success(0);
      }
      var before := access[k.value].hasAccess;
      access := access[k.value := access[k.value].(hasAccess := v)];
      if before != v {
        return Success(1);
      }
      return Success(0);
    }

    /** InsertOne on the access collection: the record goes at the end. */
    method InsertAccess(a: Access) returns (err: Option<Fault>)
      modifies this
      ensures patients == old(patients) && faults == old(faults)
      ensures InsertAccessFails in faults ==> err == Some(InsertAccessFails) && access == old(access)
      ensures InsertAccessFails !in faults ==> err.None? && access == old(access) + [a]
    {
      if InsertAccessFails in faults {
        return Some(InsertAccessFails);
      }
      access := access + [a];
      return None;
    }

    /** InsertOne on the patient collection. */
    method InsertPatient(x: Patient) returns (err: Option<Fault>)
      modifies this
      ensures access == old(access) && faults == old(faults)
      ensures InsertPatientFails in faults ==> err == Some(InsertPatientFails) && patients == old(patients)
      ensures InsertPatientFails !in faults ==> err.None? && patients == old(patients) + [x]
    {
      if InsertPatientFails in faults {
        return Some(InsertPatientFails);
      }
      patients := patients + [x];
      return None;
    }

    /**
     * CheckAccessValue: the HasAccess of the first record for the pair, word
     * for word; NOT_FOUND without an error when there is none.
     */
    method CheckAccessValue(doctorId: string, patientId: string) returns (r: Result<string, Fault>)
      ensures FindAccessFails in faults ==> r == Failure(FindAccessFails)
      ensures FindAccessFails !in faults ==> r == Success(AccessValue(access, doctorId, patientId))
    {
      var found := FindAccess(Pair(doctorId, patientId));
      if found.Failure? {
        return Failure(found.error);
      }
      if found.value.None? {
        return Success(NotFound);
      }
      return Success(found.value.value.hasAccess);
    }

    /**
     * FetchPatientWithDoctorAccess: None when the patient is missing or the
     * query fails; otherwise the patient, with hasAccess true exactly when
     * the pair's first record reads "Y" (a failing access query reads as false).
     */
    method FetchPatientWithDoctorAccess(mobile: string, doctorId: string) returns (r: Option<(Patient, bool)>)
      ensures r.None? <==> FindPatientFails in faults || FirstPatient(patients, mobile).None?
      ensures r.Some? ==> FirstPatient(patients, mobile).Some? && r.value.0 == patients[FirstPatient(patients, mobile).value]
      ensures r.Some? ==>
        (r.value.1 <==> FindAccessFails !in faults && First(access, Pair(doctorId, mobile)).Some?
                        && access[First(access, Pair(doctorId, mobile)).value].hasAccess == "Y")
    {
      var patient := GetPatientByMobile(mobile);
      if patient.Failure? || patient.value.None? {
        return None;
      }
      var found := FindAccess(Pair(doctorId, mobile));
      var hasAccess := found.Success? && found.value.Some? && found.value.value.hasAccess == "Y";
      return Some((patient.value.value, hasAccess));
    }

    /**
     * UpdateAccessIfExists: flip the pair's first "N" record to "Y", and when
     * none was modified insert a new "Y" record. A failing call leaves the
     * collection as it was.
     */
    method UpdateAccessIfExists(doctorId: string, patientId: string) returns (err: Option<Fault>)
      modifies this
      ensures patients == old(patients) && faults == old(faults)
      ensures err.None? ==> access == Granted(old(access), doctorId, patientId)
      ensures err.Some? ==> access == old(access)
      ensures err.Some? ==> err.value == UpdateAccessFails || err.value == InsertAccessFails
      ensures err == Some(UpdateAccessFails) <==> UpdateAccessFails in faults
      ensures err == Some(InsertAccessFails) <==>
        UpdateAccessFails !in faults && First(old(access), Filter(doctorId, patientId, Some("N"))).None? && InsertAccessFails in faults
    {
      var filter := Filter(doctorId, patientId, Some("N"));
      var updated := UpdateAccess(filter, "Y");
      if updated.Failure? {
        return Some(updated.error);
      }
      if updated.value > 0 {
        return None;
      }
      err := InsertAccess(Access(doctorId, patientId, "Y"));
    }

    /**
     * The older CheckEmailExists over the access collection: true exactly
     * when a record for the pair is found; a failing query reads as false.
     */
    method CheckRecordExists(fromEmail: string, toEmail: string) returns (exists_: bool)
      ensures exists_ <==> FindAccessFails !in faults && exists j :: 0 <= j < |access| && Matches(access[j], Pair(fromEmail, toEmail))
    {
      var found := FindAccess(Pair(fromEmail, toEmail));
      exists_ := found.Success? && found.value.Some?;
    }
  }

  /** After UpdateAccessIfExists the pair has a "Y" record. */
  lemma GrantedHasAccess(s: seq<Access>, d: string, p: string)
    ensures exists j :: 0 <= j < |Granted(s, d, p)| && Granted(s, d, p)[j] == Access(d, p, "Y")
  {
    var f := Filter(d, p, Some("N"));
    var g := Granted(s, d, p);
    if First(s, f).Some? {
      var i := First(s, f).value;
      assert g[i] == Access(d, p, "Y");
    } else {
      assert g[|s|] == Access(d, p, "Y");
    }
  }

  /**
   * UpdateAccessIfExists adds at most one record, and every record of another
   * pair keeps its place and its value; the only other change is the first
   * "N" record of the pair becoming "Y".
   */
  lemma GrantedChangesOnlyThePair(s: seq<Access>, d: string, p: string)
    ensures |s| <= |Granted(s, d, p)| <= |s| + 1
    ensures forall i :: 0 <= i < |s| && !Matches(s[i], Pair(d, p)) ==> Granted(s, d, p)[i] == s[i]
    ensures forall i :: |s| <= i < |Granted(s, d, p)| ==> Granted(s, d, p)[i] == Access(d, p, "Y")
    ensures First(s, Filter(d, p, Some("N"))).Some? <==> |Granted(s, d, p)| == |s|
  {
  }

  /**
   * UpdateAccessIfExists is not idempotent in the number of records: with no
   * "N" record for the pair, each call inserts another "Y" record.
   */
  lemma GrantedAgainInserts(s: seq<Access>, d: string, p: string)
    requires First(s, Filter(d, p, Some("N"))).None?
    ensures Granted(s, d, p) == s + [Access(d, p, "Y")]
    ensures Granted(Granted(s, d, p), d, p) == s + [Access(d, p, "Y"), Access(d, p, "Y")]
  {
    var f := Filter(d, p, Some("N"));
    var g := s + [Access(d, p, "Y")];
    assert forall j :: 0 <= j < |g| ==> !Matches(g[j], f) by {
      forall j | 0 <= j < |g|
        ensures !Matches(g[j], f)
      {
        if j < |s| {
          assert g[j] == s[j];
        }
      }
    }
    assert g + [Access(d, p, "Y")] == s + [Access(d, p, "Y"), Access(d, p, "Y")];
  }
}
