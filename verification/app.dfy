/** The routes of app.py that write or summarise: the role guards, adding, editing and
    deleting a patient, the nurse's treatment update, the admin views, and the gender
    and age statistics of the patients page. The database is an in-memory value; each
    route maps it to a new one. */
module App {
  import opened Base
  import opened Text
  import opened Primitives
  import opened MedicalCrypto
  import opened AuditChain
  import opened Calendar

  // ---------------------------------------------------------------------------
  // Store
  // ---------------------------------------------------------------------------

  /** A row of the `patients` table (its `id` is the key of the table map). The side
      columns are nullable; `dob` holds a date; `encrypted_data` holds the blob. */
  datatype PatientRow = PatientRow(
    name: Option<string>, dob: Option<Day>, gender: Option<string>,
    address: Option<string>, phone: Option<string>, diagnosis: Option<string>,
    treatment: Option<string>, encryptedData: Option<Bytes>)

  /** The two tables. */
  datatype Db = Db(patients: map<nat, PatientRow>, logs: AuditLog)

  /** How a POST ends: redirected by the role guard, aborted by an exception before
      the commit, or committed with the new database. */
  datatype Response = Denied | Failed | Committed(db: Db)

  /** The database after a response: only a commit changes it. */
  function After(db: Db, r: Response): Db {
    if r.Committed? then r.db else db
  }

  /** The seven text fields a patient form posts. */
  datatype PatientForm = PatientForm(
    name: string, dob: string, gender: string, address: string,
    phone: string, diagnosis: string, treatment: string)

  // ---------------------------------------------------------------------------
  // Role guards
  // ---------------------------------------------------------------------------

  datatype Route = PatientsPage | AddPatient | EditPatient | EditTreatment
                 | DeletePatient | AuditLogs | ViewEncrypted

  /** The role each route demands; the patients page demands none. */
  function RequiredRole(route: Route): Option<string> {
    match route
    case PatientsPage => None
    case AddPatient => Some("Doctor")
    case EditPatient => Some("Doctor")
    case DeletePatient => Some("Doctor")
    case EditTreatment => Some("Nurse")
    case AuditLogs => Some("Admin")
    case ViewEncrypted => Some("Admin")
  }

  predicate Permitted(route: Route, role: Option<string>) {
    RequiredRole(route).None? || role == RequiredRole(route)
  }

  /** `request.form.get('role') or request.args.get('role', default)`: an absent or
      empty form value falls back to the query string, then to the route's default. */
  function ResolveRole(formRole: Option<string>, argRole: Option<string>, default: string): (role: string)
    ensures formRole.Some? && formRole.value != "" ==> role == formRole.value
    ensures (formRole.None? || formRole.value == "") && argRole.Some? ==> role == argRole.value
    ensures (formRole.None? || formRole.value == "") && argRole.None? ==> role == default
  {
    if formRole.Some? && formRole.value != "" then formRole.value else argRole.GetOr(default)
  }

  // ---------------------------------------------------------------------------
  // Dictionaries handed to the cipher
  // ---------------------------------------------------------------------------

  /** The `patient_data` dictionary built from a posted form. */
  function FormDict(f: PatientForm): (d: PatientDict)
    ensures Rendered(d) == FormRecord(f)
  {
    map["name" := Str(f.name), "dob" := Str(f.dob), "gender" := Str(f.gender),
        "address" := Str(f.address), "phone" := Str(f.phone),
        "diagnosis" := Str(f.diagnosis), "treatment" := Str(f.treatment)]
  }

  /** The record a form serialises to. */
  function FormRecord(f: PatientForm): Record {
    Record(f.name, f.dob, f.address, f.phone, f.diagnosis, f.treatment, f.gender)
  }

  /** The `dob` column as a Python value (a date object, or `None`). */
  function DobValue(d: Option<Day>): Value {
    match d
    case Some(day) => Str(DateText(day))
    case None => NoneValue
  }

  /** The `dob` column under `patient['dob'] or ''`. */
  function DobOrEmpty(d: Option<Day>): string {
    match d
    case Some(day) => DateText(day)
    case None => ""
  }

  /** The record the side columns give with `None` mapped to `''` (the backfill of
      view_encrypted and the reconstruction of the migration). */
  function SideRecord(row: PatientRow): Record {
    Record(OrEmpty(row.name), DobOrEmpty(row.dob), OrEmpty(row.address), OrEmpty(row.phone),
           OrEmpty(row.diagnosis), OrEmpty(row.treatment), OrEmpty(row.gender))
  }

  /** The same record as a dictionary of strings. */
  function SideDict(row: PatientRow): (d: PatientDict)
    ensures Rendered(d) == SideRecord(row)
  {
    ToDict(SideRecord(row))
  }

  /** The side columns as stored, blob excluded. */
  function SideColumns(row: PatientRow): (Option<string>, Option<Day>, Option<string>, Option<string>,
                                          Option<string>, Option<string>, Option<string>)
  {
    (row.name, row.dob, row.gender, row.address, row.phone, row.diagnosis, row.treatment)
  }

  // ---------------------------------------------------------------------------
  // Audit details of each route
  // ---------------------------------------------------------------------------

  /** Every field of the form occurs in `s`. */
  predicate MentionsForm(f: PatientForm, s: string) {
    && Occurs(f.name, s) && Occurs(f.dob, s) && Occurs(f.gender, s) && Occurs(f.address, s)
    && Occurs(f.phone, s) && Occurs(f.diagnosis, s) && Occurs(f.treatment, s)
  }

  /** add_patient: hashes "Added <name>", stores the full field listing. */
  function AddAudit(role: string, f: PatientForm, now: Timestamp): AuditRequest {
    AuditRequest(role, "Add Patient", Concat(["Added ", f.name]),
      Concat(["Added new patient: Name=", f.name, ", DOB=", f.dob, ", ",
              "Gender=", f.gender, ", Address=", f.address, ", ",
              "Phone=", f.phone, ", Diagnosis=", f.diagnosis, ", ",
              "Treatment=", f.treatment]), now)
  }

  /** edit_patient: hashes "Edited patient: <name>", stores the updated listing. */
  function EditAudit(role: string, f: PatientForm, now: Timestamp): AuditRequest {
    AuditRequest(role, "Edit Patient", Concat(["Edited patient: ", f.name]),
      Concat(["Updated patient ", f.name, ": DOB=", f.dob, ", ",
              "Gender=", f.gender, ", Address=", f.address, ", ",
              "Phone=", f.phone, ", Diagnosis=", f.diagnosis, ", ",
              "Treatment=", f.treatment]), now)
  }

  /** edit_treatment: hashes the name and id, stores the previous and new treatment.
      The name is the current row's `str()`, so a NULL name reads "None". */
  function TreatmentAudit(role: string, id: nat, current: PatientRow, treatment: string,
                          now: Timestamp): AuditRequest
  {
    AuditRequest(role, "Update Treatment",
      Concat(["Updated treatment for patient: ", ColumnStr(current.name), " (ID: ", NatToString(id), ")"]),
      Concat(["Updated treatment for ", ColumnStr(current.name), ": Previous=\"",
              ColumnStr(current.treatment), "\", ", "New=\"", treatment, "\""]), now)
  }

  /** delete_patient: hashes "Deleted <name>", stores "Deleted patient: <name>". */
  function DeleteAudit(role: string, current: PatientRow, now: Timestamp): AuditRequest {
    AuditRequest(role, "Delete Patient", Concat(["Deleted ", ColumnStr(current.name)]),
      Concat(["Deleted patient: ", ColumnStr(current.name)]), now)
  }

  /** add_patient hashes only the name but stores every posted field; the hashed string
      is the shorter, so the two differ. */
  lemma AddAuditDetails(role: string, f: PatientForm, now: Timestamp)
    ensures var a := AddAudit(role, f, now);
      && Occurs(f.name, a.hashedDetails)
      && MentionsForm(f, a.storedDetails)
      && a.hashedDetails != a.storedDetails
  {
    var hashed := ["Added ", f.name];
    var stored := ["Added new patient: Name=", f.name, ", DOB=", f.dob, ", ",
                   "Gender=", f.gender, ", Address=", f.address, ", ",
                   "Phone=", f.phone, ", Diagnosis=", f.diagnosis, ", ",
                   "Treatment=", f.treatment];
    ConcatOccurs(hashed, 1);
    ConcatOccurs(stored, 1); ConcatOccurs(stored, 3); ConcatOccurs(stored, 6); ConcatOccurs(stored, 8);
    ConcatOccurs(stored, 11); ConcatOccurs(stored, 13); ConcatOccurs(stored, 16);
    ConcatFront(hashed);
    ConcatFront(stored);
    assert |Concat(stored)| > |Concat(hashed)|;
  }

  /** edit_patient hashes only the name but stores every posted field; the hashed
      string is the shorter, so the two differ. */
  lemma EditAuditDetails(role: string, f: PatientForm, now: Timestamp)
    ensures var a := EditAudit(role, f, now);
      && Occurs(f.name, a.hashedDetails)
      && MentionsForm(f, a.storedDetails)
      && a.hashedDetails != a.storedDetails
  {
    var hashed := ["Edited patient: ", f.name];
    var stored := ["Updated patient ", f.name, ": DOB=", f.dob, ", ",
                   "Gender=", f.gender, ", Address=", f.address, ", ",
                   "Phone=", f.phone, ", Diagnosis=", f.diagnosis, ", ",
                   "Treatment=", f.treatment];
    ConcatOccurs(hashed, 1);
    ConcatOccurs(stored, 1); ConcatOccurs(stored, 3); ConcatOccurs(stored, 6); ConcatOccurs(stored, 8);
    ConcatOccurs(stored, 11); ConcatOccurs(stored, 13); ConcatOccurs(stored, 16);
    ConcatFront(hashed);
    ConcatFront(stored);
    ConcatFront(stored[2..]);
    assert |Concat(stored)| > |Concat(hashed)|;
  }

  /** edit_treatment hashes the name and the id and stores the previous and the new
      treatment; the hashed string ends with ')', the stored one with '"'. */
  lemma TreatmentAuditDetails(role: string, id: nat, current: PatientRow, treatment: string,
                              now: Timestamp)
    ensures var a := TreatmentAudit(role, id, current, treatment, now);
      && Occurs(ColumnStr(current.name), a.hashedDetails)
      && Occurs(NatToString(id), a.hashedDetails)
      && Occurs(ColumnStr(current.treatment), a.storedDetails)
      && Occurs(treatment, a.storedDetails)
      && a.hashedDetails != a.storedDetails
  {
    var hashed := ["Updated treatment for patient: ", ColumnStr(current.name), " (ID: ", NatToString(id), ")"];
    var stored := ["Updated treatment for ", ColumnStr(current.name), ": Previous=\"",
                   ColumnStr(current.treatment), "\", ", "New=\"", treatment, "\""];
    ConcatOccurs(hashed, 1); ConcatOccurs(hashed, 3);
    ConcatOccurs(stored, 3); ConcatOccurs(stored, 6);
    ConcatLast(hashed);
    ConcatLast(stored);
    assert Concat(hashed)[|Concat(hashed)| - 1] == ')';
    assert Concat(stored)[|Concat(stored)| - 1] == '"';
  }

  /** delete_patient hashes and stores the name; the stored string is nine characters
      longer. */
  lemma DeleteAuditDetails(role: string, current: PatientRow, now: Timestamp)
    ensures var a := DeleteAudit(role, current, now);
      && Occurs(ColumnStr(current.name), a.hashedDetails)
      && Occurs(ColumnStr(current.name), a.storedDetails)
      && a.hashedDetails != a.storedDetails
  {
    var hashed := ["Deleted ", ColumnStr(current.name)];
    var stored := ["Deleted patient: ", ColumnStr(current.name)];
    ConcatOccurs(hashed, 1);
    ConcatOccurs(stored, 1);
    ConcatFront(hashed);
    ConcatFront(stored);
    assert |Concat(stored)| == |Concat(hashed)| + 9;
  }

  /** In every route the hashed details and the stored details are different strings, so
      a stored row never passes recomputation from its own columns except through a
      SHA-256 collision (AuditChain.StoredRowRecomputesOnlyOnCollision). */
  lemma AuditDetailsDiffer(role: string, f: PatientForm, id: nat, current: PatientRow,
                           treatment: string, now: Timestamp)
    ensures AddAudit(role, f, now).hashedDetails != AddAudit(role, f, now).storedDetails
    ensures EditAudit(role, f, now).hashedDetails != EditAudit(role, f, now).storedDetails
    ensures TreatmentAudit(role, id, current, treatment, now).hashedDetails
         != TreatmentAudit(role, id, current, treatment, now).storedDetails
    ensures DeleteAudit(role, current, now).hashedDetails != DeleteAudit(role, current, now).storedDetails
  {
    AddAuditDetails(role, f, now);
    EditAuditDetails(role, f, now);
    TreatmentAuditDetails(role, id, current, treatment, now);
    DeleteAuditDetails(role, current, now);
  }

  // ---------------------------------------------------------------------------
  // Routes that write
  // ---------------------------------------------------------------------------

  /** A string psycopg2 can bind as a statement parameter: one holding a NUL character
      makes the statement raise before it reaches the database. */
  predicate Bindable(s: string) {
    '\0' !in s
  }

  /** Every posted field of the form can be bound. */
  predicate FormBindable(f: PatientForm) {
    && Bindable(f.name) && Bindable(f.dob) && Bindable(f.gender) && Bindable(f.address)
    && Bindable(f.phone) && Bindable(f.diagnosis) && Bindable(f.treatment)
  }

  /** The side columns the INSERT of add_patient and the UPDATE of edit_patient bind
      from a form; the dob column holds the date the database reads from the text. */
  function FormColumns(f: PatientForm): (Option<string>, Option<Day>, Option<string>, Option<string>,
                                         Option<string>, Option<string>, Option<string>)
  {
    (Some(f.name), ParseIsoDate(f.dob), Some(f.gender), Some(f.address), Some(f.phone),
     Some(f.diagnosis), Some(f.treatment))
  }

  /** The row add_patient and edit_patient write from a form. */
  function FormRow(f: PatientForm, dob: Day, blob: Option<Bytes>): (row: PatientRow)
    requires ParseIsoDate(f.dob) == Some(dob)
    ensures SideColumns(row) == FormColumns(f) && row.encryptedData == blob
  {
    PatientRow(Some(f.name), Some(dob), Some(f.gender), Some(f.address), Some(f.phone),
               Some(f.diagnosis), Some(f.treatment), blob)
  }

  /** The table after an INSERT of a row under a fresh id. */
  function InsertRow(patients: map<nat, PatientRow>, newId: nat, row: PatientRow): (t: map<nat, PatientRow>)
    requires newId !in patients
    ensures t.Keys == patients.Keys + {newId}
    ensures forall other :: other in patients ==> t[other] == patients[other]
    ensures t[newId] == row
  {
    patients[newId := row]
  }

  /** POST add_patient. `newId` is the value the table's id sequence hands out; `iv`
      and `now` stand for `os.urandom(12)` and `datetime.now()`. A field holding a NUL
      character, or a dob the database cannot read as a date, aborts the insert. */
  function AddPatientRoute(c: Crypto, db: Db, role: string, f: PatientForm, newId: nat,
                           iv: Bytes, now: Timestamp): (r: Response)
    requires newId !in db.patients && |iv| == IV_LEN
    ensures r.Denied? <==> !Permitted(AddPatient, Some(role))
    ensures Permitted(AddPatient, Some(role)) ==> (r.Failed? <==> !FormBindable(f) || ParseIsoDate(f.dob).None?)
    ensures r.Committed? ==>
      && r.db.patients.Keys == db.patients.Keys + {newId}
      && (forall id :: id in db.patients ==> r.db.patients[id] == db.patients[id])
      && SideColumns(r.db.patients[newId]) == FormColumns(f)
      && r.db.patients[newId].encryptedData == EncryptPatientData(c, FormDict(f), iv)
      && r.db.logs == Append(c.prims, db.logs, AddAudit(role, f, now))
  {
    if role != "Doctor" then Denied
    else if !FormBindable(f) then Failed
    else match ParseIsoDate(f.dob)
      case None => Failed
      case Some(dob) =>
        var blob := EncryptPatientData(c, FormDict(f), iv);
        Committed(Db(InsertRow(db.patients, newId, FormRow(f, dob, blob)),
                     Append(c.prims, db.logs, AddAudit(role, f, now))))
  }

  /** The blob add_patient stores decrypts to the posted fields, and the new audit row
      links to the previous tip. */
  lemma AddedPatientDecrypts(c: Crypto, db: Db, role: string, f: PatientForm, newId: nat,
                             iv: Bytes, now: Timestamp)
    requires newId !in db.patients && |iv| == IV_LEN
    requires Ready(c) && DelimiterFree(FormRecord(f))
    requires AddPatientRoute(c, db, role, f, newId, iv, now).Committed?
    requires EncryptPatientData(c, FormDict(f), iv).Some?
    ensures var out := AddPatientRoute(c, db, role, f, newId, iv, now).db;
      && DecryptPatientData(c, out.patients[newId].encryptedData.value) == FormRecord(f)
      && out.logs[|db.logs|].prevHash == Tip(db.logs)
  {
    DecryptEncrypt(c, FormDict(f), iv);
  }

  /** The table after an UPDATE of row `id`: when no row has that id nothing changes. */
  function UpdateRow(patients: map<nat, PatientRow>, id: nat, row: PatientRow): (t: map<nat, PatientRow>)
    ensures t.Keys == patients.Keys
    ensures forall other :: other in patients && other != id ==> t[other] == patients[other]
    ensures id in patients ==> t[id] == row
  {
    if id in patients then patients[id := row] else patients
  }

  /** POST edit_patient. A field holding a NUL character or a dob that is not a date
      aborts the update. An id with no row updates nothing, yet the audit row is still
      appended and committed. */
  function EditPatientRoute(c: Crypto, db: Db, role: string, id: nat, f: PatientForm,
                            iv: Bytes, now: Timestamp): (r: Response)
    requires |iv| == IV_LEN
    ensures r.Denied? <==> !Permitted(EditPatient, Some(role))
    ensures Permitted(EditPatient, Some(role)) ==> (r.Failed? <==> !FormBindable(f) || ParseIsoDate(f.dob).None?)
    ensures r.Committed? ==>
      && r.db.patients.Keys == db.patients.Keys
      && (forall other :: other in db.patients && other != id ==> r.db.patients[other] == db.patients[other])
      && (id in db.patients ==> SideColumns(r.db.patients[id]) == FormColumns(f))
      && (id in db.patients ==> r.db.patients[id].encryptedData == EncryptPatientData(c, FormDict(f), iv))
      && r.db.logs == Append(c.prims, db.logs, EditAudit(role, f, now))
  {
    if role != "Doctor" then Denied
    else if !FormBindable(f) then Failed
    else match ParseIsoDate(f.dob)
      case None => Failed
      case Some(dob) =>
        var blob := EncryptPatientData(c, FormDict(f), iv);
        Committed(Db(UpdateRow(db.patients, id, FormRow(f, dob, blob)),
                     Append(c.prims, db.logs, EditAudit(role, f, now))))
  }

  /** The dictionary edit_treatment encrypts: the current row with only the treatment
      replaced; NULL columns pass through `str()` and become "None". */
  function TreatmentDict(current: PatientRow, treatment: string): (d: PatientDict)
    ensures Rendered(d) == RowRecord(current).(treatment := treatment)
  {
    map["name" := ColumnValue(current.name), "dob" := DobValue(current.dob),
        "address" := ColumnValue(current.address), "phone" := ColumnValue(current.phone),
        "diagnosis" := ColumnValue(current.diagnosis), "treatment" := Str(treatment),
        "gender" := ColumnValue(current.gender)]
  }

  /** The current row as `str()` renders each column. */
  function RowRecord(row: PatientRow): Record {
    Record(ColumnStr(row.name), PyStr(DobValue(row.dob)), ColumnStr(row.address),
           ColumnStr(row.phone), ColumnStr(row.diagnosis), ColumnStr(row.treatment),
           ColumnStr(row.gender))
  }

  /** POST edit_treatment. A missing id fails at `current['name']` before anything is
      committed, and a treatment holding a NUL character makes the UPDATE raise. Only
      `treatment` and `encrypted_data` of that row are written. */
  function EditTreatmentRoute(c: Crypto, db: Db, role: string, id: nat, treatment: string,
                              iv: Bytes, now: Timestamp): (r: Response)
    requires |iv| == IV_LEN
    ensures r.Denied? <==> !Permitted(EditTreatment, Some(role))
    ensures Permitted(EditTreatment, Some(role)) ==> (r.Failed? <==> id !in db.patients || !Bindable(treatment))
    ensures r.Committed? ==>
      && r.db.patients.Keys == db.patients.Keys
      && (forall other :: other in db.patients && other != id ==> r.db.patients[other] == db.patients[other])
      && r.db.patients[id] == db.patients[id].(treatment := Some(treatment),
                                               encryptedData := r.db.patients[id].encryptedData)
      && r.db.patients[id].encryptedData == EncryptPatientData(c, TreatmentDict(db.patients[id], treatment), iv)
      && r.db.logs == Append(c.prims, db.logs, TreatmentAudit(role, id, db.patients[id], treatment, now))
  {
    if role != "Nurse" then Denied
    else if id !in db.patients || !Bindable(treatment) then Failed
    else
      var current := db.patients[id];
      var blob := EncryptPatientData(c, TreatmentDict(current, treatment), iv);
      Committed(Db(UpdateRow(db.patients, id, current.(treatment := Some(treatment), encryptedData := blob)),
                   Append(c.prims, db.logs, TreatmentAudit(role, id, current, treatment, now))))
  }

  /** The blob the nurse update stores decrypts to the previous row with only the
      treatment replaced. */
  lemma TreatmentBlobDecrypts(c: Crypto, db: Db, role: string, id: nat, treatment: string,
                              iv: Bytes, now: Timestamp)
    requires |iv| == IV_LEN && Ready(c)
    requires EditTreatmentRoute(c, db, role, id, treatment, iv, now).Committed?
    requires DelimiterFree(RowRecord(db.patients[id]).(treatment := treatment))
    requires EncryptPatientData(c, TreatmentDict(db.patients[id], treatment), iv).Some?
    ensures var out := EditTreatmentRoute(c, db, role, id, treatment, iv, now).db;
      DecryptPatientData(c, out.patients[id].encryptedData.value)
        == RowRecord(db.patients[id]).(treatment := treatment)
  {
    DecryptEncrypt(c, TreatmentDict(db.patients[id], treatment), iv);
  }

  /** POST delete_patient. The audit row reads the patient's name, so a missing id
      fails before the commit; otherwise the row goes and one audit row is appended. */
  function DeletePatientRoute(c: Crypto, db: Db, role: string, id: nat, now: Timestamp): (r: Response)
    ensures r.Denied? <==> !Permitted(DeletePatient, Some(role))
    ensures Permitted(DeletePatient, Some(role)) ==> (r.Failed? <==> id !in db.patients)
    ensures r.Committed? ==>
      && r.db.patients.Keys == db.patients.Keys - {id}
      && (forall other :: other in r.db.patients ==> r.db.patients[other] == db.patients[other])
      && r.db.logs == Append(c.prims, db.logs, DeleteAudit(role, db.patients[id], now))
  {
    if role != "Doctor" then Denied
    else if id !in db.patients then Failed
    else
      Committed(Db(db.patients - {id}, Append(c.prims, db.logs, DeleteAudit(role, db.patients[id], now))))
  }

  /** A request the role guard redirects, or one that raises before the commit (a field
      holding a NUL character, a dob the database cannot read, an id with no row),
      writes nothing at all. */
  lemma RejectedRequestsWriteNothing(c: Crypto, db: Db, role: string, f: PatientForm, newId: nat,
                                     id: nat, treatment: string, iv: Bytes, now: Timestamp)
    requires |iv| == IV_LEN && newId !in db.patients
    ensures role != "Doctor" ==>
      && AddPatientRoute(c, db, role, f, newId, iv, now).Denied?
      && EditPatientRoute(c, db, role, id, f, iv, now).Denied?
      && DeletePatientRoute(c, db, role, id, now).Denied?
      && After(db, AddPatientRoute(c, db, role, f, newId, iv, now)) == db
      && After(db, EditPatientRoute(c, db, role, id, f, iv, now)) == db
      && After(db, DeletePatientRoute(c, db, role, id, now)) == db
    ensures role != "Nurse" ==>
      && EditTreatmentRoute(c, db, role, id, treatment, iv, now).Denied?
      && After(db, EditTreatmentRoute(c, db, role, id, treatment, iv, now)) == db
    ensures role != "Admin" ==>
      && ViewEncryptedRoute(c, db, Some(role), id, iv).response.Denied?
      && After(db, ViewEncryptedRoute(c, db, Some(role), id, iv).response) == db
    ensures role == "Doctor" && (!FormBindable(f) || ParseIsoDate(f.dob).None?) ==>
      && AddPatientRoute(c, db, role, f, newId, iv, now).Failed?
      && EditPatientRoute(c, db, role, id, f, iv, now).Failed?
      && After(db, AddPatientRoute(c, db, role, f, newId, iv, now)) == db
      && After(db, EditPatientRoute(c, db, role, id, f, iv, now)) == db
    ensures role == "Nurse" && (id !in db.patients || !Bindable(treatment)) ==>
      && EditTreatmentRoute(c, db, role, id, treatment, iv, now).Failed?
      && After(db, EditTreatmentRoute(c, db, role, id, treatment, iv, now)) == db
    ensures role == "Doctor" && id !in db.patients ==>
      && DeletePatientRoute(c, db, role, id, now).Failed?
      && After(db, DeletePatientRoute(c, db, role, id, now)) == db
  {
  }

  /** How the resolved role meets the guards of the four write routes: with neither a
      form nor a query role the route's own default (Doctor for add, edit and delete,
      Nurse for the treatment update) passes its guard; a non-empty form role decides
      alone; an empty or absent form role defers to the query role. */
  lemma ResolvedRoleMeetsGuards(c: Crypto, db: Db, formRole: Option<string>, argRole: Option<string>,
                                f: PatientForm, newId: nat, id: nat, treatment: string,
                                iv: Bytes, now: Timestamp)
    requires |iv| == IV_LEN && newId !in db.patients
    ensures (formRole.None? || formRole.value == "") && argRole.None? ==>
      && !AddPatientRoute(c, db, ResolveRole(formRole, argRole, "Doctor"), f, newId, iv, now).Denied?
      && !EditPatientRoute(c, db, ResolveRole(formRole, argRole, "Doctor"), id, f, iv, now).Denied?
      && !DeletePatientRoute(c, db, ResolveRole(formRole, argRole, "Doctor"), id, now).Denied?
      && !EditTreatmentRoute(c, db, ResolveRole(formRole, argRole, "Nurse"), id, treatment, iv, now).Denied?
    ensures formRole.Some? && formRole.value != "" ==>
      && (AddPatientRoute(c, db, ResolveRole(formRole, argRole, "Doctor"), f, newId, iv, now).Denied? <==>
          formRole.value != "Doctor")
      && (EditPatientRoute(c, db, ResolveRole(formRole, argRole, "Doctor"), id, f, iv, now).Denied? <==>
          formRole.value != "Doctor")
      && (DeletePatientRoute(c, db, ResolveRole(formRole, argRole, "Doctor"), id, now).Denied? <==>
          formRole.value != "Doctor")
      && (EditTreatmentRoute(c, db, ResolveRole(formRole, argRole, "Nurse"), id, treatment, iv, now).Denied? <==>
          formRole.value != "Nurse")
    ensures (formRole.None? || formRole.value == "") && argRole.Some? ==>
      && (AddPatientRoute(c, db, ResolveRole(formRole, argRole, "Doctor"), f, newId, iv, now).Denied? <==>
          argRole.value != "Doctor")
      && (EditPatientRoute(c, db, ResolveRole(formRole, argRole, "Doctor"), id, f, iv, now).Denied? <==>
          argRole.value != "Doctor")
      && (DeletePatientRoute(c, db, ResolveRole(formRole, argRole, "Doctor"), id, now).Denied? <==>
          argRole.value != "Doctor")
      && (EditTreatmentRoute(c, db, ResolveRole(formRole, argRole, "Nurse"), id, treatment, iv, now).Denied? <==>
          argRole.value != "Nurse")
  {
  }

  /** A dob posted in the canonical `YYYY-MM-DD` spelling is never refused when no field
      holds a NUL character, and the side columns of the row written from it read back,
      with `None` mapped to `''` as the backfill and the migration read them, as exactly
      the posted form. */
  lemma CanonicalDobReadsBack(c: Crypto, db: Db, role: string, f: PatientForm, newId: nat,
                              id: nat, iv: Bytes, now: Timestamp, d: Day)
    requires |iv| == IV_LEN && newId !in db.patients
    requires f.dob == DateText(d)
    ensures role == "Doctor" && FormBindable(f) ==> AddPatientRoute(c, db, role, f, newId, iv, now).Committed?
    ensures role == "Doctor" && FormBindable(f) ==> EditPatientRoute(c, db, role, id, f, iv, now).Committed?
    ensures AddPatientRoute(c, db, role, f, newId, iv, now).Committed? ==>
      SideRecord(AddPatientRoute(c, db, role, f, newId, iv, now).db.patients[newId]) == FormRecord(f)
    ensures EditPatientRoute(c, db, role, id, f, iv, now).Committed? && id in db.patients ==>
      SideRecord(EditPatientRoute(c, db, role, id, f, iv, now).db.patients[id]) == FormRecord(f)
  {
    ParseDateText(d);
  }

  /** A committed response appended exactly one audit row after the old ones, with the
      previous tip as its `prev_hash`. */
  predicate AppendsOneRow(db: Db, r: Response) {
    r.Committed? ==>
      && |r.db.logs| == |db.logs| + 1
      && r.db.logs[..|db.logs|] == db.logs
      && r.db.logs[|db.logs|].prevHash == Tip(db.logs)
  }

  /** Every committed write route appends exactly one audit row whose `prev_hash` is
      the tip before it, and keeps all older rows. `newId` is the id add_patient
      receives; `id` is the row the other three routes address. */
  lemma WriteRoutesAppendOneRow(c: Crypto, db: Db, role: string, f: PatientForm, newId: nat,
                                id: nat, treatment: string, iv: Bytes, now: Timestamp)
    requires |iv| == IV_LEN && newId !in db.patients
    ensures AppendsOneRow(db, AddPatientRoute(c, db, role, f, newId, iv, now))
    ensures AppendsOneRow(db, EditPatientRoute(c, db, role, id, f, iv, now))
    ensures AppendsOneRow(db, EditTreatmentRoute(c, db, role, id, treatment, iv, now))
    ensures AppendsOneRow(db, DeletePatientRoute(c, db, role, id, now))
  {
  }

  // ---------------------------------------------------------------------------
  // Admin views
  // ---------------------------------------------------------------------------

  /** GET logs: the audit rows for an admin, nothing otherwise. The query orders the
      rows by `timestamp DESC`; the model returns them in insertion order. */
  function LogsRoute(db: Db, role: Option<string>): (r: Option<AuditLog>)
    ensures r.Some? <==> Permitted(AuditLogs, role)
    ensures r.Some? ==> r.value == db.logs
  {
    if role != Some("Admin") then None else Some(db.logs)
  }

  /** What view_encrypted renders: the response and the decrypted record, if any. */
  datatype Page = Page(response: Response, decrypted: Option<Record>)

  /** GET view_encrypted. A row whose blob is NULL or empty is first backfilled by
      encrypting its side columns with `None` mapped to `''`; then the blob is shown
      as text and decrypted. A blob that is not UTF-8 text shows no record. */
  function ViewEncryptedRoute(c: Crypto, db: Db, role: Option<string>, id: nat, iv: Bytes): (r: Page)
    requires |iv| == IV_LEN
    ensures r.response.Denied? <==> !Permitted(ViewEncrypted, role)
    ensures !r.response.Failed?
    ensures r.response.Committed? ==>
      && r.response.db.logs == db.logs
      && r.response.db.patients.Keys == db.patients.Keys
      && (forall other :: other in db.patients && other != id ==> r.response.db.patients[other] == db.patients[other])
    ensures r.response.Committed? && id in db.patients ==>
      var row := r.response.db.patients[id];
      && SideColumns(row) == SideColumns(db.patients[id])
      && (Truthy(db.patients[id].encryptedData) ==> row == db.patients[id])
      && (!Truthy(db.patients[id].encryptedData) ==> row.encryptedData == EncryptPatientData(c, SideDict(db.patients[id]), iv))
      && (r.decrypted.Some? <==> Truthy(row.encryptedData) && c.prims.utf8decode(row.encryptedData.value).Some?)
      && (r.decrypted.Some? ==> r.decrypted.value == DecryptPatientData(c, row.encryptedData.value))
    ensures id !in db.patients ==> r.decrypted.None?
  {
    if role != Some("Admin") then Page(Denied, None)
    else if id !in db.patients then Page(Committed(db), None)
    else
      var row := db.patients[id];
      var row' := if Truthy(row.encryptedData) then row
                  else row.(encryptedData := EncryptPatientData(c, SideDict(row), iv));
      var db' := db.(patients := UpdateRow(db.patients, id, row'));
      var shown :=
        if !Truthy(row'.encryptedData) then None
        else if c.prims.utf8decode(row'.encryptedData.value).None? then None
        else Some(DecryptPatientData(c, row'.encryptedData.value));
      Page(Committed(db'), shown)
  }

  /** A backfilled row shows exactly its side columns (with `None` as `''`) when no
      column holds the delimiter. */
  lemma BackfillShowsSideColumns(c: Crypto, db: Db, id: nat, iv: Bytes)
    requires |iv| == IV_LEN && Ready(c)
    requires id in db.patients && !Truthy(db.patients[id].encryptedData)
    requires DelimiterFree(SideRecord(db.patients[id]))
    requires EncryptPatientData(c, SideDict(db.patients[id]), iv).Some?
    ensures ViewEncryptedRoute(c, db, Some("Admin"), id, iv).decrypted == Some(SideRecord(db.patients[id]))
  {
    var d := SideDict(db.patients[id]);
    var blob := EncryptPatientData(c, d, iv).value;
    var ct := c.prims.seal(c.key, iv, c.prims.utf8encode(Plaintext(d))).value;
    assert blob == c.prims.b64encode(iv + ct);
    assert c.prims.utf8decode(blob).Some?;
    DecryptEncrypt(c, d, iv);
  }

  // ---------------------------------------------------------------------------
  // Patients page statistics
  // ---------------------------------------------------------------------------

  /** How many rows satisfy `f`. */
  function CountIf(rows: seq<PatientRow>, f: PatientRow -> bool): (n: nat)
    ensures n <= |rows|
    decreases |rows|
  {
    if |rows| == 0 then 0
    else CountIf(rows[..|rows| - 1], f) + (if f(rows[|rows| - 1]) then 1 else 0)
  }

  predicate IsMale(row: PatientRow) { row.gender == Some("Male") }
  predicate IsFemale(row: PatientRow) { row.gender == Some("Female") }
  /** `gender not in ["Male", "Female"]`, NULL included. */
  predicate IsOtherGender(row: PatientRow) { !IsMale(row) && !IsFemale(row) }

  datatype GenderCounts = GenderCounts(male: nat, female: nat, other: nat)

  /** Three predicates of which each row satisfies exactly one split the rows. */
  lemma {:induction false} CountPartition3(rows: seq<PatientRow>, f: PatientRow -> bool,
                                           g: PatientRow -> bool, h: PatientRow -> bool)
    requires forall k :: 0 <= k < |rows| ==>
      (if f(rows[k]) then 1 else 0) + (if g(rows[k]) then 1 else 0) + (if h(rows[k]) then 1 else 0) == 1
    ensures CountIf(rows, f) + CountIf(rows, g) + CountIf(rows, h) == |rows|
    decreases |rows|
  {
    if |rows| > 0 {
      var init := rows[..|rows| - 1];
      assert forall k :: 0 <= k < |init| ==> init[k] == rows[k];
      CountPartition3(init, f, g, h);
    }
  }

  /** The `gender` column of the rows, in order. */
  function GenderColumn(rows: seq<PatientRow>): (gs: seq<Option<string>>)
    ensures |gs| == |rows|
    ensures forall k :: 0 <= k < |rows| ==> gs[k] == rows[k].gender
  {
    seq(|rows|, k requires 0 <= k < |rows| => rows[k].gender)
  }

  /** Counting the rows whose gender is `g` gives the multiplicity of `g` in the gender
      column. */
  lemma {:induction false} CountIfIsMultiplicity(rows: seq<PatientRow>, f: PatientRow -> bool, g: string)
    requires forall row :: f(row) == (row.gender == Some(g))
    ensures CountIf(rows, f) == multiset(GenderColumn(rows))[Some(g)]
    decreases |rows|
  {
    if |rows| > 0 {
      var init := rows[..|rows| - 1];
      CountIfIsMultiplicity(init, f, g);
      assert GenderColumn(rows) == GenderColumn(init) + [rows[|rows| - 1].gender];
    }
  }

  /** The gender counts of the patients page: "Male" and "Female" are counted by their
      multiplicity in the gender column, everything else (NULL included) is "other",
      and the three partition the patients. */
  function GenderDistribution(rows: seq<PatientRow>): (g: GenderCounts)
    ensures g.male == multiset(GenderColumn(rows))[Some("Male")]
    ensures g.female == multiset(GenderColumn(rows))[Some("Female")]
    ensures g.male + g.female + g.other == |rows|
  {
    CountPartition3(rows, IsMale, IsFemale, IsOtherGender);
    CountIfIsMultiplicity(rows, IsMale, "Male");
    CountIfIsMultiplicity(rows, IsFemale, "Female");
    GenderCounts(CountIf(rows, IsMale), CountIf(rows, IsFemale), CountIf(rows, IsOtherGender))
  }

  /** The bin of an age: "<20", "20-39", "40-59", "60+" as 0 to 3. */
  function AgeBin(age: int): (b: nat)
    ensures b < 4
    ensures b == 0 <==> age < 20
    ensures b == 1 <==> 20 <= age < 40
    ensures b == 2 <==> 40 <= age < 60
    ensures b == 3 <==> 60 <= age
  {
    if age < 20 then 0 else if age < 40 then 1 else if age < 60 then 2 else 3
  }

  /** How many rows have an age that computes: their dob is not NULL. */
  function CountDated(rows: seq<PatientRow>): (n: nat)
    ensures n <= |rows|
    decreases |rows|
  {
    if |rows| == 0 then 0
    else CountDated(rows[..|rows| - 1]) + (if rows[|rows| - 1].dob.Some? then 1 else 0)
  }

  lemma CountDatedStep(rows: seq<PatientRow>, i: nat)
    requires i < |rows|
    ensures CountDated(rows[..i + 1]) == CountDated(rows[..i]) + (if rows[i].dob.Some? then 1 else 0)
  {
    assert rows[..i + 1][..i] == rows[..i];
  }

  /** The row's age computes and falls in bin `b`. */
  predicate InAgeBin(row: PatientRow, today: Day, b: nat) {
    row.dob.Some? && AgeBin(AgeInYears(row.dob.value, today)) == b
  }

  /** How many rows fall in bin `b`. */
  function CountInBin(rows: seq<PatientRow>, today: Day, b: nat): (n: nat)
    ensures n <= |rows|
    decreases |rows|
  {
    if |rows| == 0 then 0
    else CountInBin(rows[..|rows| - 1], today, b) + (if InAgeBin(rows[|rows| - 1], today, b) then 1 else 0)
  }

  /** Counting over one more row adds one to the bin that row falls in. */
  lemma CountInBinStep(rows: seq<PatientRow>, today: Day, b: nat, i: nat)
    requires i < |rows|
    ensures CountInBin(rows[..i + 1], today, b)
         == CountInBin(rows[..i], today, b) + (if InAgeBin(rows[i], today, b) then 1 else 0)
  {
    assert rows[..i + 1][..i] == rows[..i];
  }

  datatype AgeBins = AgeBins(under20: nat, from20to39: nat, from40to59: nat, over60: nat)

  function BinTotal(bins: AgeBins): nat {
    bins.under20 + bins.from20to39 + bins.from40to59 + bins.over60
  }

  /** The age loop of the patients page: each row with a date of birth lands in exactly
      one bin; a NULL date of birth raises inside the try and the row is skipped. */
  method AgeDistribution(rows: seq<PatientRow>, today: Day) returns (bins: AgeBins)
    ensures bins.under20 == CountInBin(rows, today, 0)
    ensures bins.from20to39 == CountInBin(rows, today, 1)
    ensures bins.from40to59 == CountInBin(rows, today, 2)
    ensures bins.over60 == CountInBin(rows, today, 3)
    ensures BinTotal(bins) == CountDated(rows) <= |rows|
  {
    var under20, from20to39, from40to59, over60 := 0, 0, 0, 0;
    var i := 0;
    while i < |rows|
      invariant 0 <= i <= |rows|
      invariant under20 == CountInBin(rows[..i], today, 0)
      invariant from20to39 == CountInBin(rows[..i], today, 1)
      invariant from40to59 == CountInBin(rows[..i], today, 2)
      invariant over60 == CountInBin(rows[..i], today, 3)
      invariant under20 + from20to39 + from40to59 + over60 == CountDated(rows[..i])
    {
      CountInBinStep(rows, today, 0, i);
      CountInBinStep(rows, today, 1, i);
      CountInBinStep(rows, today, 2, i);
      CountInBinStep(rows, today, 3, i);
      CountDatedStep(rows, i);
      if rows[i].dob.Some? {
        var age := AgeInYears(rows[i].dob.value, today);
        if age < 20 {
          under20 := under20 + 1;
        } else if age < 40 {
          from20to39 := from20to39 + 1;
        } else if age < 60 {
          from40to59 := from40to59 + 1;
        } else {
          over60 := over60 + 1;
        }
      }
      i := i + 1;
    }
    assert rows[..|rows|] == rows;
    bins := AgeBins(under20, from20to39, from40to59, over60);
  }
}
