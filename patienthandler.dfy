/**
 * The patient and access-rights HTTP handlers (controllers/patientDBhandler.go)
 * over the access store: the parameter guards, the e-mail format check, and
 * the save-patient upsert that inserts a patient, inserts an access record,
 * or updates the stored HasAccess when it differs. The SMTP configuration's
 * domain, the session's sender name and the e-mail-server check are inputs.
 */
module PatientHandler {
  import opened Wrappers
  import opened AccessStore
  import RegistrationMail
  import Ascii

  /* ---------- e-mail format: ^[^\s@]+@[^\s@]+\.[^\s@]+$ ---------- */

  /** The regular expression's \s: tab, newline, form feed, carriage return and space. */
  predicate RegexSpace(c: char) {
    c == '\t' || c == '\n' || c as int == 12 || c == '\r' || c == ' '
  }

  /** Every character is matched by [^\s@]. */
  predicate Plain(t: string) {
    forall i :: 0 <= i < |t| ==> !RegexSpace(t[i]) && t[i] != '@'
  }

  /** What the pattern accepts: a plain local part, '@', a plain part, '.', a plain part, all non-empty. */
  ghost predicate EmailPattern(s: string) {
    exists a, d :: 0 < a && a + 1 < d && d + 1 < |s| && s[a] == '@' && s[d] == '.'
      && Plain(s[..a]) && Plain(s[a + 1..d]) && Plain(s[d + 1..])
  }

  /** The check as a scan: split at the '@', and look for a '.' strictly inside the rest. */
  predicate ValidEmailFormat(s: string) {
    var a := Ascii.IndexOf(s, '@');
    0 < a < |s| && Plain(s[..a]) && Plain(s[a + 1..]) && |s[a + 1..]| >= 3 && '.' in s[a + 1..][1..|s[a + 1..]| - 1]
  }

  lemma PlainSlice(t: string, i: nat, j: nat)
    requires Plain(t) && i <= j <= |t|
    ensures Plain(t[i..j])
  {
    assert forall k :: 0 <= k < j - i ==> t[i..j][k] == t[i + k];
  }

  /** The scan accepts exactly the strings the regular expression matches. */
  lemma ValidEmailFormatIsPattern(s: string)
    ensures ValidEmailFormat(s) <==> EmailPattern(s)
  {
    if ValidEmailFormat(s) {
      ScanMatches(s);
    }
    if EmailPattern(s) {
      var a, d :| 0 < a && a + 1 < d && d + 1 < |s| && s[a] == '@' && s[d] == '.'
        && Plain(s[..a]) && Plain(s[a + 1..d]) && Plain(s[d + 1..]);
      PatternScans(s, a, d);
    }
  }

  lemma {:induction false} ScanMatches(s: string)
    requires ValidEmailFormat(s)
    ensures EmailPattern(s)
  {
    var a := Ascii.IndexOf(s, '@');
    var r := s[a + 1..];
    var k :| 0 <= k < |r| - 2 && r[1..|r| - 1][k] == '.';
    var d := a + 2 + k;
    assert r[k + 1] == '.';
    assert s[d] == '.';
    PlainSlice(r, 0, k + 1);
    assert s[a + 1..d] == r[..k + 1];
    PlainSlice(r, k + 2, |r|);
    assert s[d + 1..] == r[k + 2..];
    assert 0 < a && a + 1 < d && d + 1 < |s| && s[a] == '@' && s[d] == '.'
      && Plain(s[..a]) && Plain(s[a + 1..d]) && Plain(s[d + 1..]);
  }

  /** A plain prefix ending at an '@' makes that '@' the first one. */
  lemma {:induction false} FirstAt(s: string, a: nat)
    requires a < |s| && s[a] == '@' && Plain(s[..a])
    ensures Ascii.IndexOf(s, '@') == a
  {
    assert s[a] in s[..a + 1];
  }

  lemma {:induction false} PatternScans(s: string, a: nat, d: nat)
    requires 0 < a && a + 1 < d && d + 1 < |s| && s[a] == '@' && s[d] == '.'
    requires Plain(s[..a]) && Plain(s[a + 1..d]) && Plain(s[d + 1..])
    ensures ValidEmailFormat(s)
  {
    FirstAt(s, a);
    var r := s[a + 1..];
    assert r[1..|r| - 1][d - a - 2] == '.';
    forall i | 0 <= i < |r|
      ensures !RegexSpace(r[i]) && r[i] != '@'
    {
      if a + 1 + i < d {
        assert r[i] == s[a + 1..d][i];
      } else if a + 1 + i > d {
        assert r[i] == s[d + 1..][a + i - d];
      }
    }
  }

  /* ---------- replies ---------- */

  /** The JSON reply of the save and update handlers: status, "success" and "message". */
  datatype Reply = Reply(status: nat, success: bool, message: string)

  /** CheckPatientHandler's replies. */
  datatype PatientReply =
    | MissingMobileOrDoctor
    | NoPatient
    | PatientFound(email: string, dob: string, gender: string, name: string, hasAccess: bool)

  function PatientStatus(r: PatientReply): nat {
    if r.MissingMobileOrDoctor? then 400 else 200
  }

  /** CheckDoctorAccess's replies. */
  datatype AccessReply = MissingIds | QueryFailed | HasAccess(value: string)

  function AccessStatus(r: AccessReply): nat {
    match r
    case MissingIds => 400
    case QueryFailed => 500
    case HasAccess(_) => 200
  }

  /** GET /check-patient: both parameters are required; then the patient and the doctor's access. */
  method CheckPatient(db: Database, mobile: string, doctorId: string) returns (r: PatientReply)
    ensures r == MissingMobileOrDoctor <==> mobile == "" || doctorId == ""
    ensures r == NoPatient <==>
      mobile != "" && doctorId != "" && (FindPatientFails in db.faults || FirstPatient(db.patients, mobile).None?)
    ensures r.PatientFound? ==> FirstPatient(db.patients, mobile).Some?
    ensures r.PatientFound? ==>
      var x := db.patients[FirstPatient(db.patients, mobile).value];
      r == PatientFound(x.email, x.dob, x.gender, x.name, r.hasAccess)
    ensures r.PatientFound? ==>
      (r.hasAccess <==> FindAccessFails !in db.faults && AccessValue(db.access, doctorId, mobile) == "Y")
  {
    if mobile == "" || doctorId == "" {
      return MissingMobileOrDoctor;
    }
    var found := db.FetchPatientWithDoctorAccess(mobile, doctorId);
    if found.None? {
      return NoPatient;
    }
    var (x, hasAccess) := found.value;
    return PatientFound(x.email, x.dob, x.gender, x.name, hasAccess);
  }

  /** GET /check-access: both ids are required; then the stored value, NOT_FOUND on a miss. */
  method CheckDoctorAccess(db: Database, doctorId: string, patientId: string) returns (r: AccessReply)
    ensures r == MissingIds <==> doctorId == "" || patientId == ""
    ensures r == QueryFailed <==> doctorId != "" && patientId != "" && FindAccessFails in db.faults
    ensures r.HasAccess? ==> r.value == AccessValue(db.access, doctorId, patientId)
  {
    if doctorId == "" || patientId == "" {
      return MissingIds;
    }
    var access := db.CheckAccessValue(doctorId, patientId);
    if access.Failure? {
      return QueryFailed;
    }
    return HasAccess(access.value);
  }

  /** The JSON body of POST /update-access; both fields are bound as required. */
  datatype AccessRequest = AccessRequest(doctorId: string, patientId: string)

  /** POST /update-access: reject a body without both ids, else grant the doctor access. */
  method UpdateAccess(db: Database, body: Option<AccessRequest>) returns (r: Reply)
    modifies db
    ensures db.patients == old(db.patients) && db.faults == old(db.faults)
    ensures body.None? || body.value.doctorId == "" || body.value.patientId == "" ==>
      r.status == 400 && !r.success && db.access == old(db.access)
    ensures r.success <==> r.status == 200
    ensures r.success ==> db.access == Granted(old(db.access), body.value.doctorId, body.value.patientId)
    ensures !r.success ==> db.access == old(db.access)
    ensures r.status == 500 <==>
      body.Some? && body.value.doctorId != "" && body.value.patientId != ""
      && (UpdateAccessFails in db.faults
          || (First(old(db.access), Filter(body.value.doctorId, body.value.patientId, Some("N"))).None? && InsertAccessFails in db.faults))
  {
    if body.None? || body.value.doctorId == "" || body.value.patientId == "" {
      return Reply(400, false, "Invalid request data. Please provide both doctorId and patientId.");
    }
    var err := db.UpdateAccessIfExists(body.value.doctorId, body.value.patientId);
    if err.Some? {
      return Reply(500, false, "Failed to update or insert access.");
    }
    return Reply(200, true, "Access updated or inserted successfully.");
  }

  /* ---------- POST /save-patient ---------- */

  /** The JSON body of the save request. */
  datatype Request = Request(
    name: string, email: string, dob: string, gender: string,
    mobile: string, doctorId: string, hasAccess: string)

  /** The registration mail the handler asks for: patient data, recipient and sender name. */
  datatype Registration = Registration(patient: RegistrationMail.PatientData, recipient: string, fromName: string)

  /** The reply, the two collections afterwards, and the mail to send, if any. */
  datatype Outcome = Outcome(reply: Reply, patients: seq<Patient>, access: seq<Access>, mail: Option<Registration>)

  /** The store part of a save: a message on success, an error message otherwise, and the collections after it. */
  datatype Stored = Stored(result: Result<string, string>, patients: seq<Patient>, access: seq<Access>)

  function NewPatient(r: Request): Patient {
    Patient(r.name, r.email, r.dob, r.gender, r.mobile)
  }

  function NewAccess(r: Request): Access {
    Access(r.doctorId, r.mobile, r.hasAccess)
  }

  /**
   * The upsert: a new mobile gets a patient and an access record; a known one
   * without a record for the pair gets a record; a known one with a record
   * gets its first record set to the requested value when that differs.
   * Writes already made stay when a later one fails.
   */
  function Store(patients: seq<Patient>, access: seq<Access>, faults: set<Fault>, r: Request): Stored {
    if FindPatientFails in faults then
      Stored(Failure("Error querying patient collection"), patients, access)
    else if FirstPatient(patients, r.mobile).None? then
      if InsertPatientFails in faults then Stored(Failure("Failed to save patient"), patients, access)
      else if InsertAccessFails in faults then Stored(Failure("Failed to create access record"), patients + [NewPatient(r)], access)
      else Stored(Success("Patient and access saved"), patients + [NewPatient(r)], access + [NewAccess(r)])
    else if FindAccessFails in faults then
      Stored(Failure("Error querying access collection"), patients, access)
    else
      match First(access, Pair(r.doctorId, r.mobile))
      case None =>
        if InsertAccessFails in faults then Stored(Failure("Failed to create access record"), patients, access)
        else Stored(Success("Access created for existing patient"), patients, access + [NewAccess(r)])
      case Some(i) =>
        if access[i].hasAccess == r.hasAccess then Stored(Success("Patient and access already handled"), patients, access)
        else if UpdateAccessFails in faults then Stored(Failure("Failed to update access"), patients, access)
        else Stored(Success("Access updated to " + r.hasAccess), patients, SetFirst(access, Pair(r.doctorId, r.mobile), r.hasAccess))
  }

  /**
   * SavePatientHandler as a function of the collections before it. `domain`
   * is the loaded SMTP configuration's Domain (None when it fails to load),
   * `sessionName` the session's fromName, and `emailExists` the e-mail
   * server's answer for a doctor and a patient address.
   */
  function Save(patients: seq<Patient>, access: seq<Access>, faults: set<Fault>, input: Option<Request>,
                sessionName: Option<string>, domain: Option<string>, emailExists: (string, string) -> Result<bool, string>): Outcome
  {
    if input.None? then Outcome(Reply(400, false, "Invalid input"), patients, access, None)
    else
      var r := input.value;
      var fromName := if sessionName.Some? then sessionName.value else "Doctor";
      if r.email != "" && !ValidEmailFormat(r.email) then
        Outcome(Reply(400, false, "Invalid email format. Please enter a valid email address."), patients, access, None)
      else if domain.None? then
        Outcome(Reply(500, false, "Failed to load SMTP config"), patients, access, None)
      else
        var patientEmailId := r.mobile + domain.value;
        var st := Store(patients, access, faults, r);
        if st.result.Failure? then Outcome(Reply(500, false, st.result.error), st.patients, st.access, None)
        else
          var exists_ := emailExists(r.doctorId, patientEmailId);
          if exists_.Failure? then Outcome(Reply(500, false, "Error checking email server"), st.patients, st.access, None)
          else
            var mail := if exists_.value then None
              else Some(Registration(RegistrationMail.PatientData(r.name, r.email, r.mobile, r.dob, r.gender, r.doctorId, fromName),
                                     patientEmailId, fromName));
            Outcome(Reply(200, true, st.result.value), st.patients, st.access, mail)
  }

  /** The upsert of SavePatientHandler, step by step over the database. */
  method StorePatient(db: Database, r: Request) returns (result: Result<string, string>)
    modifies db
    ensures db.faults == old(db.faults)
    ensures Stored(result, db.patients, db.access) == Store(old(db.patients), old(db.access), db.faults, r)
  {
    var existing := db.GetPatientByMobile(r.mobile);
    if existing.Failure? {
      return Failure("Error querying patient collection");
    }
    if existing.value.None? {
      var err := db.InsertPatient(NewPatient(r));
      if err.Some? {
        return Failure("Failed to save patient");
      }
      err := db.InsertAccess(NewAccess(r));
      if err.Some? {
        return Failure("Failed to create access record");
      }
      return Success("Patient and access saved");
    }
    var found := db.FindAccess(Pair(r.doctorId, r.mobile));
    if found.Failure? {
      return Failure("Error querying access collection");
    }
    if found.value.None? {
      var err := db.InsertAccess(NewAccess(r));
      if err.Some? {
        return Failure("Failed to create access record");
      }
      return Success("Access created for existing patient");
    } else if found.value.value.hasAccess != r.hasAccess {
      var updated := db.UpdateAccess(Pair(r.doctorId, r.mobile), r.hasAccess);
      if updated.Failure? {
        return Failure("Failed to update access");
      }
      return Success("Access updated to " + r.hasAccess);
    }
    return Success("Patient and access already handled");
  }

  /** SavePatientHandler, step by step over the database. */
  method SavePatient(db: Database, input: Option<Request>, sessionName: Option<string>, domain: Option<string>,
                     emailExists: (string, string) -> Result<bool, string>) returns (reply: Reply, mail: Option<Registration>)
    modifies db
    ensures db.faults == old(db.faults)
    ensures Outcome(reply, db.patients, db.access, mail) == Save(old(db.patients), old(db.access), db.faults, input, sessionName, domain, emailExists)
  {
    mail := None;
    if input.None? {
      return Reply(400, false, "Invalid input"), None;
    }
    var r := input.value;
    var fromName := "Doctor";
    if sessionName.Some? {
      fromName := sessionName.value;
    }
    if r.email != "" && !ValidEmailFormat(r.email) {
      return Reply(400, false, "Invalid email format. Please enter a valid email address."), None;
    }
    if domain.None? {
      return Reply(500, false, "Failed to load SMTP config"), None;
    }
    var patientEmailId := r.mobile + domain.value;
    var stored := StorePatient(db, r);
    if stored.Failure? {
      return Reply(500, false, stored.error), None;
    }
    var exists_ := emailExists(r.doctorId, patientEmailId);
    if exists_.Failure? {
      return Reply(500, false, "Error checking email server"), None;
    }
    if !exists_.value {
      mail := Some(Registration(RegistrationMail.PatientData(r.name, r.email, r.mobile, r.dob, r.gender, r.doctorId, fromName),
                                patientEmailId, fromName));
    }
    reply := Reply(200, true, stored.value);
  }

  /* ---------- properties of the save ---------- */

  /** A body that does not bind, a malformed e-mail or a missing configuration is rejected before the store is touched. */
  lemma SaveRejectsEarly(patients: seq<Patient>, access: seq<Access>, faults: set<Fault>, input: Option<Request>,
                         sessionName: Option<string>, domain: Option<string>, emailExists: (string, string) -> Result<bool, string>)
    requires input.None? || (input.value.email != "" && !EmailPattern(input.value.email)) || domain.None?
    ensures var o := Save(patients, access, faults, input, sessionName, domain, emailExists);
      !o.reply.success && o.patients == patients && o.access == access && o.mail.None?
      && o.reply.status == (if input.None? || (input.value.email != "" && !ValidEmailFormat(input.value.email)) then 400 else 500)
  {
    if input.Some? {
      ValidEmailFormatIsPattern(input.value.email);
    }
  }

  /** An empty e-mail is accepted: the format check applies only to a non-empty one. */
  lemma EmptyEmailAccepted(patients: seq<Patient>, access: seq<Access>, faults: set<Fault>, r: Request,
                           sessionName: Option<string>, d: string, emailExists: (string, string) -> Result<bool, string>)
    requires r.email == ""
    ensures Save(patients, access, faults, Some(r), sessionName, Some(d), emailExists).reply.status != 400
  {
  }

  /** A new mobile: the patient is appended, then the access record (DoctorId, mobile, HasAccess). */
  lemma NewPatientSaved(patients: seq<Patient>, access: seq<Access>, faults: set<Fault>, r: Request)
    requires FirstPatient(patients, r.mobile).None?
    ensures var st := Store(patients, access, faults, r);
      st.result.Success? <==> faults * {FindPatientFails, InsertPatientFails, InsertAccessFails} == {}
    ensures var st := Store(patients, access, faults, r);
      st.result.Success? ==>
        st.patients == patients + [Patient(r.name, r.email, r.dob, r.gender, r.mobile)]
        && st.access == access + [Access(r.doctorId, r.mobile, r.hasAccess)]
  {
    var f := {FindPatientFails, InsertPatientFails, InsertAccessFails};
    if FindPatientFails in faults {
      assert FindPatientFails in faults * f;
    } else if InsertPatientFails in faults {
      assert InsertPatientFails in faults * f;
    } else if InsertAccessFails in faults {
      assert InsertAccessFails in faults * f;
    }
  }

  /**
   * A known patient: the access collection changes only when the stored value
   * differs from the requested one, and then only in the pair's first record;
   * with no record for the pair, one is appended.
   */
  lemma ExistingPatientSaved(patients: seq<Patient>, access: seq<Access>, faults: set<Fault>, r: Request)
    requires FirstPatient(patients, r.mobile).Some? && faults == {}
    ensures var st := Store(patients, access, faults, r);
      st.result.Success? && st.patients == patients
    ensures var st := Store(patients, access, faults, r);
      First(access, Pair(r.doctorId, r.mobile)).Some? && AccessValue(access, r.doctorId, r.mobile) == r.hasAccess ==>
        st.access == access
    ensures var st := Store(patients, access, faults, r);
      First(access, Pair(r.doctorId, r.mobile)).None? ==> st.access == access + [NewAccess(r)]
    ensures var st := Store(patients, access, faults, r);
      First(access, Pair(r.doctorId, r.mobile)).Some? ==>
        (|st.access| == |access|
         && forall j :: 0 <= j < |access| && j != First(access, Pair(r.doctorId, r.mobile)).value ==> st.access[j] == access[j])
  {
  }

  /**
   * After a successful save, the pair's first access record (the one every
   * lookup reads) holds the requested value, provided the patient was known
   * or the pair had no record yet.
   */
  lemma {:induction false} SavedAccessIsRead(patients: seq<Patient>, access: seq<Access>, faults: set<Fault>, r: Request)
    requires Store(patients, access, faults, r).result.Success?
    requires FirstPatient(patients, r.mobile).Some? || First(access, Pair(r.doctorId, r.mobile)).None?
    ensures AccessValue(Store(patients, access, faults, r).access, r.doctorId, r.mobile) == r.hasAccess
  {
    var st := Store(patients, access, faults, r);
    var f := Pair(r.doctorId, r.mobile);
    match First(access, f)
    case None =>
      assert st.access == access + [NewAccess(r)];
      FirstOfAppend(access, NewAccess(r), f);
    case Some(i) =>
      if access[i].hasAccess != r.hasAccess {
        SetFirstFirst(access, f, r.hasAccess);
      }
  }

  lemma {:induction false} FirstOfAppend(s: seq<Access>, a: Access, f: Filter)
    requires First(s, f).None? && Matches(a, f)
    ensures First(s + [a], f) == Some(|s|)
  {
    var t := s + [a];
    assert forall j :: 0 <= j < |s| ==> t[j] == s[j];
    assert Matches(t[|s|], f);
  }

  lemma {:induction false} SetFirstFirst(s: seq<Access>, f: Filter, v: string)
    requires First(s, f).Some? && f.hasAccess.None?
    ensures First(SetFirst(s, f, v), f) == First(s, f)
    ensures SetFirst(s, f, v)[First(s, f).value].hasAccess == v
  {
    var i := First(s, f).value;
    var t := SetFirst(s, f, v);
    assert forall j :: 0 <= j < |s| && j != i ==> t[j] == s[j];
    assert Matches(t[i], f);
  }

  /**
   * The proviso is needed: a new mobile whose pair already has a record (one
   * UpdateAccess inserted before the patient was saved) gets a second record
   * appended, and lookups keep reading the older value.
   */
  lemma OlderRecordShadowsNewPatient()
    ensures var r := Request("n", "", "", "", "9876543210", "doc", "Y");
      var st := Store([], [Access("doc", "9876543210", "N")], {}, r);
      st.result.Success? && AccessValue(st.access, r.doctorId, r.mobile) == "N"
  {
    var r := Request("n", "", "", "", "9876543210", "doc", "Y");
    var s := [Access("doc", "9876543210", "N")];
    var st := Store([], s, {}, r);
    assert st.access == s + [NewAccess(r)];
    assert Matches(st.access[0], Pair(r.doctorId, r.mobile));
  }

  /** A registration mail is asked for exactly on success when the server knows no mail between the two, addressed to mobile + domain. */
  lemma RegistrationOnlyForNewContacts(patients: seq<Patient>, access: seq<Access>, faults: set<Fault>, r: Request,
                                      sessionName: Option<string>, d: string, emailExists: (string, string) -> Result<bool, string>)
    ensures var o := Save(patients, access, faults, Some(r), sessionName, Some(d), emailExists);
      o.mail.Some? <==> o.reply.success && emailExists(r.doctorId, r.mobile + d) == Success(false)
    ensures var o := Save(patients, access, faults, Some(r), sessionName, Some(d), emailExists);
      o.mail.Some? ==>
        (o.mail.value.recipient == r.mobile + d
         && o.mail.value.fromName == (if sessionName.Some? then sessionName.value else "Doctor"))
  {
  }

  /**
   * The mail goes to the patient e-mail id unchanged when the configured
   * domain carries its '@', whatever the mobile's length.
   */
  lemma RegistrationRecipient(mobile: string, d: string)
    requires '@' in d
    ensures RegistrationMail.Recipient(mobile + d, d) == mobile + d
  {
    var k :| 0 <= k < |d| && d[k] == '@';
    assert (mobile + d)[|mobile| + k] == '@';
  }
}
