/** The one-off migration of migrate_encryption.py: every row with a non-NULL blob is
    decrypted; an all-empty result is rebuilt from the side columns; the record is
    re-encrypted and only `encrypted_data` is written back. Success, failure and
    reconstruction are counted. */
module Migration {
  import opened Base
  import opened Primitives
  import opened MedicalCrypto
  import opened App

  /** A row as `SELECT * FROM patients WHERE encrypted_data IS NOT NULL` returns it. */
  datatype Fetched = Fetched(id: nat, row: PatientRow)

  predicate NoDuplicates(ids: seq<nat>) {
    forall i, j :: 0 <= i < j < |ids| ==> ids[i] != ids[j]
  }

  /** The ids of fetched rows, in fetch order. */
  function Ids(rows: seq<Fetched>): (ids: seq<nat>)
    ensures |ids| == |rows|
    ensures forall k :: 0 <= k < |rows| ==> ids[k] == rows[k].id
  {
    seq(|rows|, k requires 0 <= k < |rows| => rows[k].id)
  }

  /** The ids whose row has a non-NULL blob: what `WHERE encrypted_data IS NOT NULL`
      selects. */
  function BlobIds(table: map<nat, PatientRow>): set<nat> {
    set id | id in table && table[id].encryptedData.Some?
  }

  /** The ids a sequence holds, as a set. */
  function Elems(ids: seq<nat>): (e: set<nat>)
    ensures forall x :: x in e <==> x in ids
    decreases |ids|
  {
    if |ids| == 0 then {} else Elems(ids[..|ids| - 1]) + {ids[|ids| - 1]}
  }

  /** A sequence without duplicates has as many distinct elements as entries. */
  lemma {:induction false} DistinctCount(ids: seq<nat>)
    requires NoDuplicates(ids)
    ensures |Elems(ids)| == |ids|
    decreases |ids|
  {
    if |ids| > 0 {
      var init := ids[..|ids| - 1];
      assert NoDuplicates(init);
      DistinctCount(init);
      assert ids[|ids| - 1] !in init;
    }
  }

  /** The query: the rows of `table`, in the database's order `order`, whose blob is
      not NULL. */
  function Select(table: map<nat, PatientRow>, order: seq<nat>): (rows: seq<Fetched>)
    requires forall k :: 0 <= k < |order| ==> order[k] in table
    ensures forall k :: 0 <= k < |rows| ==>
      rows[k].id in table && rows[k].row == table[rows[k].id] && rows[k].row.encryptedData.Some?
    ensures forall id :: id in Ids(rows) <==> id in order && id in table && table[id].encryptedData.Some?
    ensures NoDuplicates(order) ==> NoDuplicates(Ids(rows))
    decreases |order|
  {
    if |order| == 0 then []
    else
      var rest := Select(table, order[1..]);
      var id := order[0];
      assert forall x :: x in order <==> x == id || x in order[1..];
      if table[id].encryptedData.Some? then
        var rows := [Fetched(id, table[id])] + rest;
        assert Ids(rows) == [id] + Ids(rest);
        assert NoDuplicates(order) ==> NoDuplicates(Ids(rows)) by {
          if NoDuplicates(order) {
            assert forall k :: 0 <= k < |order| - 1 ==> order[1..][k] == order[k + 1] != id;
            assert id !in Ids(rest);
          }
        }
        rows
      else rest
  }

  /** What happened to one fetched row. */
  datatype RowOutcome =
    | Reencrypted(blob: Bytes)       // decryption gave a non-empty record, re-encrypted
    | Reconstructed(blob: Bytes)     // all-empty record, rebuilt from the side columns
    | EncryptFailed(rebuilding: bool) // encryption gave nothing, no update issued

  predicate Succeeded(o: RowOutcome) { !o.EncryptFailed? }

  predicate IsReconstructed(o: RowOutcome) { o.Reconstructed? }

  /** Whether a row took the reconstruction branch. */
  predicate Rebuilt(o: RowOutcome) {
    o.Reconstructed? || (o.EncryptFailed? && o.rebuilding)
  }

  /** One iteration of the loop body for a row, with `iv` standing for the
      `os.urandom(12)` its single encryption draws. */
  function ProcessRow(c: Crypto, f: Fetched, iv: Bytes): (o: RowOutcome)
    requires f.row.encryptedData.Some? && |iv| == IV_LEN
    ensures Rebuilt(o) <==> AllEmpty(DecryptPatientData(c, f.row.encryptedData.value))
    ensures o.Reencrypted? ==>
      EncryptPatientData(c, ToDict(DecryptPatientData(c, f.row.encryptedData.value)), iv) == Some(o.blob)
    ensures o.Reconstructed? ==> EncryptPatientData(c, SideDict(f.row), iv) == Some(o.blob)
    ensures Ready(c) ==> (o.EncryptFailed? <==> EncryptPatientData(c,
      if Rebuilt(o) then SideDict(f.row) else ToDict(DecryptPatientData(c, f.row.encryptedData.value)), iv).None?)
  {
    var decrypted := DecryptPatientData(c, f.row.encryptedData.value);
    if AllEmpty(decrypted) then
      var blob := EncryptPatientData(c, SideDict(f.row), iv);
      if Truthy(blob) then Reconstructed(blob.value) else EncryptFailed(true)
    else
      var blob := EncryptPatientData(c, ToDict(decrypted), iv);
      if Truthy(blob) then Reencrypted(blob.value) else EncryptFailed(false)
  }

  /** The outcome of every fetched row, the k-th drawing the k-th IV. */
  function Outcomes(c: Crypto, rows: seq<Fetched>, ivs: seq<Bytes>): (os: seq<RowOutcome>)
    requires |ivs| == |rows|
    requires forall k :: 0 <= k < |rows| ==> rows[k].row.encryptedData.Some? && |ivs[k]| == IV_LEN
    ensures |os| == |rows|
    ensures forall k :: 0 <= k < |rows| ==> os[k] == ProcessRow(c, rows[k], ivs[k])
  {
    seq(|rows|, k requires 0 <= k < |rows| => ProcessRow(c, rows[k], ivs[k]))
  }

  /** How many rows succeeded. */
  function Successes(os: seq<RowOutcome>): (n: nat)
    ensures n <= |os|
    decreases |os|
  {
    if |os| == 0 then 0
    else Successes(os[..|os| - 1]) + (if Succeeded(os[|os| - 1]) then 1 else 0)
  }

  /** How many rows were reconstructed. */
  function Reconstructions(os: seq<RowOutcome>): (n: nat)
    ensures n <= |os|
    decreases |os|
  {
    if |os| == 0 then 0
    else Reconstructions(os[..|os| - 1]) + (if IsReconstructed(os[|os| - 1]) then 1 else 0)
  }

  /** Counting over one more outcome adds that outcome's contribution. */
  lemma CountStep(os: seq<RowOutcome>, i: nat)
    requires i < |os|
    ensures Successes(os[..i + 1]) == Successes(os[..i]) + (if Succeeded(os[i]) then 1 else 0)
    ensures Reconstructions(os[..i + 1]) == Reconstructions(os[..i]) + (if IsReconstructed(os[i]) then 1 else 0)
  {
    assert os[..i + 1][..i] == os[..i];
  }

  /** The three counters after the first `i` outcomes: every row bumps exactly one of
      success and failure, and the counters equal the counts of those outcomes. */
  ghost predicate Counted(os: seq<RowOutcome>, i: nat, success: nat, fail: nat, reconstructed: nat)
    requires i <= |os|
  {
    && success + fail == i
    && reconstructed <= success
    && success == Successes(os[..i])
    && reconstructed == Reconstructions(os[..i])
  }

  /** Tallying outcome `i` keeps the counters exact. */
  lemma TallyStep(os: seq<RowOutcome>, i: nat, success: nat, fail: nat, reconstructed: nat)
    requires i < |os|
    requires Counted(os, i, success, fail, reconstructed)
    ensures Counted(os, i + 1,
                    success + (if Succeeded(os[i]) then 1 else 0),
                    fail + (if Succeeded(os[i]) then 0 else 1),
                    reconstructed + (if IsReconstructed(os[i]) then 1 else 0))
  {
    CountStep(os, i);
  }

  /** The printed summary. */
  datatype Summary = Summary(total: nat, success: nat, fail: nat, reconstructed: nat)

  /** The blob a row holds after its outcome: the new one on success, the old one
      otherwise. */
  function BlobAfter(o: RowOutcome, previous: Option<Bytes>): Option<Bytes> {
    if Succeeded(o) then Some(o.blob) else previous
  }

  /** The UPDATE a successful row issues: only `encrypted_data` of row `id` changes. */
  function ApplyOutcome(table: map<nat, PatientRow>, id: nat, o: RowOutcome): (t: map<nat, PatientRow>)
    requires id in table
    ensures t.Keys == table.Keys
    ensures forall x :: x in table && x != id ==> t[x] == table[x]
    ensures forall x :: x in table ==> SideColumns(t[x]) == SideColumns(table[x])
    ensures t[id].encryptedData == BlobAfter(o, table[id].encryptedData)
  {
    if Succeeded(o) then table[id := table[id].(encryptedData := Some(o.blob))] else table
  }

  /** After the first `i` rows: keys and side columns are untouched, rows not yet
      reached are as they were, and each row reached holds the blob its outcome
      leaves. */
  ghost predicate AppliedUpTo(table: map<nat, PatientRow>, migrated: map<nat, PatientRow>,
                              rows: seq<Fetched>, os: seq<RowOutcome>, i: nat)
    requires i <= |rows| == |os|
  {
    && migrated.Keys == table.Keys
    && (forall id :: id in table ==> SideColumns(migrated[id]) == SideColumns(table[id]))
    && (forall id :: id in table && id !in Ids(rows)[..i] ==> migrated[id] == table[id])
    && (forall k :: 0 <= k < i ==>
          rows[k].id in migrated
          && migrated[rows[k].id].encryptedData == BlobAfter(os[k], rows[k].row.encryptedData))
  }

  /** Applying the outcome of row `i` extends the applied prefix by one row. */
  lemma ApplyStep(table: map<nat, PatientRow>, migrated: map<nat, PatientRow>,
                  rows: seq<Fetched>, os: seq<RowOutcome>, i: nat)
    requires i < |rows| == |os|
    requires forall k :: 0 <= k < |rows| ==> rows[k].id in table && rows[k].row == table[rows[k].id]
    requires NoDuplicates(Ids(rows))
    requires AppliedUpTo(table, migrated, rows, os, i)
    ensures AppliedUpTo(table, ApplyOutcome(migrated, rows[i].id, os[i]), rows, os, i + 1)
  {
    var ids := Ids(rows);
    var next := ApplyOutcome(migrated, rows[i].id, os[i]);
    assert ids[..i + 1] == ids[..i] + [rows[i].id];
    assert rows[i].id !in ids[..i];
    forall k | 0 <= k < i
      ensures next[rows[k].id].encryptedData == BlobAfter(os[k], rows[k].row.encryptedData)
    {
      assert ids[k] != ids[i];
    }
  }

  /** The loop of `migrate_encrypted_data()` once each row's outcome is known: every
      row bumps exactly one of the success and failure counters, a reconstruction also
      counts as a success, and each successful row's blob is replaced. */
  method ApplyOutcomes(table: map<nat, PatientRow>, rows: seq<Fetched>, os: seq<RowOutcome>)
    returns (migrated: map<nat, PatientRow>, success: nat, fail: nat, reconstructed: nat)
    requires |os| == |rows|
    requires forall k :: 0 <= k < |rows| ==> rows[k].id in table && rows[k].row == table[rows[k].id]
    requires NoDuplicates(Ids(rows))
    ensures success + fail == |rows|
    ensures reconstructed <= success
    ensures success == Successes(os)
    ensures reconstructed == Reconstructions(os)
    ensures migrated.Keys == table.Keys
    ensures forall id :: id in table ==> SideColumns(migrated[id]) == SideColumns(table[id])
    ensures forall id :: id in table && id !in Ids(rows) ==> migrated[id] == table[id]
    ensures forall k :: 0 <= k < |rows| ==>
      migrated[rows[k].id].encryptedData == BlobAfter(os[k], rows[k].row.encryptedData)
  {
    migrated := table;
    success, fail, reconstructed := 0, 0, 0;
    var i := 0;
    while i < |rows|
      invariant 0 <= i <= |rows|
      invariant Counted(os, i, success, fail, reconstructed)
      invariant AppliedUpTo(table, migrated, rows, os, i)
    {
      TallyStep(os, i, success, fail, reconstructed);
      ApplyStep(table, migrated, rows, os, i);
      var outcome := os[i];
      migrated := ApplyOutcome(migrated, rows[i].id, outcome);
      match outcome {
        case Reconstructed(_) =>
          assert Succeeded(os[i]) && IsReconstructed(os[i]);
          reconstructed := reconstructed + 1;
          success := success + 1;
        case Reencrypted(_) =>
          assert Succeeded(os[i]) && !IsReconstructed(os[i]);
          success := success + 1;
        case EncryptFailed(_) =>
          assert !Succeeded(os[i]) && !IsReconstructed(os[i]);
          fail := fail + 1;
      }
      i := i + 1;
    }
    assert os[..|rows|] == os;
    assert Ids(rows)[..|rows|] == Ids(rows);
  }

  /** `migrate_encrypted_data()`. `order` is the order in which the database scans the
      table (every id once); `ivs[k]` is the IV drawn for the k-th fetched row. All
      updates take effect together at the final commit. */
  method MigrateEncryptedData(c: Crypto, table: map<nat, PatientRow>, order: seq<nat>, ivs: seq<Bytes>)
    returns (migrated: map<nat, PatientRow>, summary: Summary)
    requires NoDuplicates(order)
    requires forall k :: 0 <= k < |order| ==> order[k] in table
    requires forall id :: id in table ==> id in order
    requires |ivs| == |Select(table, order)|
    requires forall k :: 0 <= k < |ivs| ==> |ivs[k]| == IV_LEN
    ensures summary.total == |Select(table, order)| == |BlobIds(table)|
    ensures forall id :: id in table ==> (id in Ids(Select(table, order)) <==> table[id].encryptedData.Some?)
    ensures summary.success + summary.fail == summary.total
    ensures summary.reconstructed <= summary.success
    ensures summary.success == Successes(Outcomes(c, Select(table, order), ivs))
    ensures summary.reconstructed == Reconstructions(Outcomes(c, Select(table, order), ivs))
    ensures migrated.Keys == table.Keys
    ensures forall id :: id in table ==> SideColumns(migrated[id]) == SideColumns(table[id])
    ensures forall id :: id in table && id !in Ids(Select(table, order)) ==> migrated[id] == table[id]
    ensures forall k :: 0 <= k < |Select(table, order)| ==>
      var f := Select(table, order)[k];
      migrated[f.id].encryptedData == BlobAfter(Outcomes(c, Select(table, order), ivs)[k], f.row.encryptedData)
  {
    var rows := Select(table, order);
    DistinctCount(Ids(rows));
    assert Elems(Ids(rows)) == BlobIds(table);
    var os := Outcomes(c, rows, ivs);
    var success, fail, reconstructed;
    migrated, success, fail, reconstructed := ApplyOutcomes(table, rows, os);
    summary := Summary(|rows|, success, fail, reconstructed);
  }

  // ---------------------------------------------------------------------------
  // A second pass
  // ---------------------------------------------------------------------------

  /** A re-encrypted row keeps its content, so a second run re-encrypts it again and
      does not reconstruct it. */
  lemma ReencryptedRowIsStable(c: Crypto, f: Fetched, iv: Bytes)
    requires Ready(c) && f.row.encryptedData.Some? && |iv| == IV_LEN
    requires ProcessRow(c, f, iv).Reencrypted?
    ensures var b := ProcessRow(c, f, iv).blob;
      && DecryptPatientData(c, b) == DecryptPatientData(c, f.row.encryptedData.value)
      && !AllEmpty(DecryptPatientData(c, b))
  {
    RecordRoundTrip(c, DecryptPatientData(c, f.row.encryptedData.value), iv);
  }

  /** A reconstructed row decrypts to its side columns when none holds the delimiter;
      a second run then reconstructs it again exactly when those columns are all empty
      or NULL. */
  lemma ReconstructedRowDecryptsToSideColumns(c: Crypto, f: Fetched, iv: Bytes)
    requires Ready(c) && f.row.encryptedData.Some? && |iv| == IV_LEN
    requires ProcessRow(c, f, iv).Reconstructed?
    requires DelimiterFree(SideRecord(f.row))
    ensures var b := ProcessRow(c, f, iv).blob;
      && DecryptPatientData(c, b) == SideRecord(f.row)
      && (AllEmpty(DecryptPatientData(c, b)) <==> AllEmpty(SideRecord(f.row)))
  {
    DecryptEncrypt(c, SideDict(f.row), iv);
  }
}
