/** The audit log as the routes of app.py append to it: each new row stores the hash of
    the latest row (by timestamp) as `prev_hash` and a SHA-256 `hash` computed over a
    SHORT details string, while the `details` column receives a different, LONG string. */
module AuditChain {
  import opened Base
  import opened Text
  import opened Primitives
  import opened MedicalCrypto

  /** A row of the `audit_logs` table. */
  datatype AuditEntry = AuditEntry(
    role: string, action: string, details: string, timestamp: Timestamp,
    prevHash: string, hash: string)

  /** The audit table in insertion order. */
  type AuditLog = seq<AuditEntry>

  /** The `prev_hash` used when the table is empty: 64 '0' characters. */
  const GENESIS_HASH: string := "0000000000000000000000000000000000000000000000000000000000000000"

  /** Position of the row `SELECT ... ORDER BY timestamp DESC LIMIT 1` returns: one with
      the greatest timestamp (among equal timestamps, the one inserted last). */
  function LatestIndex(log: AuditLog): (i: nat)
    requires |log| > 0
    ensures i < |log|
    ensures forall j :: 0 <= j < |log| ==> log[j].timestamp <= log[i].timestamp
    decreases |log|
  {
    if |log| == 1 then 0
    else
      var k := LatestIndex(log[..|log| - 1]);
      if log[|log| - 1].timestamp >= log[k].timestamp then |log| - 1 else k
  }

  /** The `prev_hash` for the next row: the hash of the latest row by timestamp, or the
      genesis value when the table is empty. */
  function Tip(log: AuditLog): (h: string)
    ensures |log| == 0 ==> h == GENESIS_HASH
    ensures |log| > 0 ==> exists i :: 0 <= i < |log| && h == log[i].hash
                           && forall j :: 0 <= j < |log| ==> log[j].timestamp <= log[i].timestamp
  {
    if |log| == 0 then GENESIS_HASH else log[LatestIndex(log)].hash
  }

  /** What one route asks the audit log to record. `hashedDetails` is the string given to
      `create_log_hash`; `storedDetails` is the string written to the `details` column. */
  datatype AuditRequest = AuditRequest(
    role: string, action: string, hashedDetails: string, storedDetails: string,
    timestamp: Timestamp)

  /** Row `e` records request `req`: its columns are the request's, its `details` is the
      stored string, and its `hash` is computed from its own `prev_hash` and the hashed
      string. */
  ghost predicate Records(p: Primitives, e: AuditEntry, req: AuditRequest) {
    && e.role == req.role && e.action == req.action && e.timestamp == req.timestamp
    && e.details == req.storedDetails
    && e.hash == CreateLogHash(p, e.prevHash, req.role, req.action, req.hashedDetails, req.timestamp)
  }

  /** The row a request produces on top of `log`. */
  function NewEntry(p: Primitives, log: AuditLog, req: AuditRequest): (e: AuditEntry)
    ensures e.prevHash == Tip(log)
    ensures e.details == req.storedDetails
    ensures Records(p, e, req)
    ensures Sound(p) ==> |e.hash| == 64 && IsLowerHex(e.hash)
  {
    var prev := Tip(log);
    AuditEntry(req.role, req.action, req.storedDetails, req.timestamp, prev,
               CreateLogHash(p, prev, req.role, req.action, req.hashedDetails, req.timestamp))
  }

  /** The tip-read then insert of one route, performed sequentially: append-only. */
  function Append(p: Primitives, log: AuditLog, req: AuditRequest): (log': AuditLog)
    ensures |log'| == |log| + 1
    ensures log'[..|log|] == log
    ensures log'[|log|].prevHash == Tip(log)
  {
    log + [NewEntry(p, log, req)]
  }

  // ---------------------------------------------------------------------------
  // Sequential chaining
  // ---------------------------------------------------------------------------

  /** Timestamps strictly increase along the insertion order, so no two rows tie for
      the latest. */
  ghost predicate Monotone(log: AuditLog) {
    forall i, j :: 0 <= i < j < |log| ==> log[i].timestamp < log[j].timestamp
  }

  /** Each row's `prev_hash` is its predecessor's `hash`; the first row's is genesis. */
  ghost predicate Linked(log: AuditLog) {
    && (|log| > 0 ==> log[0].prevHash == GENESIS_HASH)
    && (forall i :: 0 < i < |log| ==> log[i].prevHash == log[i - 1].hash)
  }

  /** When timestamps strictly increase, the last row inserted is the only row with the
      greatest timestamp, so whichever latest row the query returns, the tip is its hash. */
  lemma TipOfMonotone(log: AuditLog)
    requires Monotone(log) && |log| > 0
    ensures forall i :: 0 <= i < |log| && (forall j :: 0 <= j < |log| ==> log[j].timestamp <= log[i].timestamp)
              ==> i == |log| - 1
    ensures Tip(log) == log[|log| - 1].hash
  {
    var last := |log| - 1;
    forall i | 0 <= i < |log| && (forall j :: 0 <= j < |log| ==> log[j].timestamp <= log[i].timestamp)
      ensures i == last
    {
      assert log[last].timestamp <= log[i].timestamp;
    }
    if |log| > 1 {
      var k := LatestIndex(log[..|log| - 1]);
      assert log[..|log| - 1][k] == log[k];
    }
  }

  /** Appending at a time later than every row keeps the log monotone and linked. */
  lemma AppendKeepsLinked(p: Primitives, log: AuditLog, req: AuditRequest)
    requires Monotone(log) && Linked(log)
    requires forall i :: 0 <= i < |log| ==> log[i].timestamp < req.timestamp
    ensures Monotone(Append(p, log, req)) && Linked(Append(p, log, req))
  {
    if |log| > 0 {
      TipOfMonotone(log);
    }
  }

  /** Several requests appended one after the other. */
  function AppendAll(p: Primitives, log: AuditLog, reqs: seq<AuditRequest>): (log': AuditLog)
    ensures |log'| == |log| + |reqs|
    ensures log'[..|log|] == log
    decreases |reqs|
  {
    if |reqs| == 0 then log else AppendAll(p, Append(p, log, reqs[0]), reqs[1..])
  }

  /** Requests whose timestamps strictly increase and are later than every row of the
      log. */
  ghost predicate InOrderAfter(log: AuditLog, reqs: seq<AuditRequest>) {
    && (forall i, j :: 0 <= i < j < |reqs| ==> reqs[i].timestamp < reqs[j].timestamp)
    && (forall i, k :: 0 <= i < |log| && 0 <= k < |reqs| ==> log[i].timestamp < reqs[k].timestamp)
  }

  /** Row `|log| + k` of a run of appends records request k. */
  lemma {:induction false} AppendAllRecords(p: Primitives, log: AuditLog, reqs: seq<AuditRequest>, k: nat)
    requires k < |reqs|
    ensures Records(p, AppendAll(p, log, reqs)[|log| + k], reqs[k])
    decreases |reqs|
  {
    var log1 := Append(p, log, reqs[0]);
    var out := AppendAll(p, log, reqs);
    assert out == AppendAll(p, log1, reqs[1..]);
    if k == 0 {
      assert out[..|log1|][|log|] == log1[|log|];
    } else {
      AppendAllRecords(p, log1, reqs[1..], k - 1);
      assert reqs[1..][k - 1] == reqs[k];
    }
  }

  /** In a sequential run with a clock that strictly advances, every appended row
      links to the row before it (the first to the genesis value when the log starts
      empty), and timestamps stay ordered. */
  lemma {:induction false} SequentialAppendsLink(p: Primitives, log: AuditLog, reqs: seq<AuditRequest>)
    requires Monotone(log) && Linked(log)
    requires InOrderAfter(log, reqs)
    ensures Monotone(AppendAll(p, log, reqs)) && Linked(AppendAll(p, log, reqs))
    decreases |reqs|
  {
    if |reqs| > 0 {
      var log1 := Append(p, log, reqs[0]);
      AppendKeepsLinked(p, log, reqs[0]);
      assert InOrderAfter(log1, reqs[1..]) by {
        forall i, k | 0 <= i < |log1| && 0 <= k < |reqs[1..]|
          ensures log1[i].timestamp < reqs[1..][k].timestamp
        {
          if i < |log| {
            assert log1[i] == log[i];
          }
        }
      }
      SequentialAppendsLink(p, log1, reqs[1..]);
    }
  }

  /** The first row ever appended starts from the genesis value. */
  lemma GenesisAppend(p: Primitives, req: AuditRequest)
    ensures Append(p, [], req)[0].prevHash == GENESIS_HASH
    ensures Linked(Append(p, [], req))
  {
  }

  // ---------------------------------------------------------------------------
  // Stored details versus hashed details
  // ---------------------------------------------------------------------------

  /** A validity check one could run over stored rows: the stored hash is recomputable
      from the row's own columns. app.py defines no such check; it is stated here to
      show what the stored rows do and do not satisfy. */
  ghost predicate Recomputes(p: Primitives, e: AuditEntry) {
    e.hash == CreateLogHash(p, e.prevHash, e.role, e.action, e.details, e.timestamp)
  }

  /** Strings that differ only in a middle part are different. */
  lemma MiddleDiffers(a: string, x: string, y: string, t: string)
    requires x != y
    ensures a + x + t != a + y + t
  {
    if |x| != |y| {
      assert |a + x + t| != |a + y + t|;
    } else {
      var i :| 0 <= i < |x| && x[i] != y[i];
      assert (a + x + t)[|a| + i] == x[i];
      assert (a + y + t)[|a| + i] == y[i];
    }
  }

  /** A freshly appended row whose hashed and stored details differ passes the
      recomputation check only through a SHA-256 collision between two different
      messages: recomputing from the stored columns does not reproduce the hash. */
  lemma StoredRowRecomputesOnlyOnCollision(p: Primitives, log: AuditLog, req: AuditRequest)
    requires Sound(p)
    requires req.hashedDetails != req.storedDetails
    ensures var e := NewEntry(p, log, req);
      var stored := p.utf8encode(LogMessage(p, e.prevHash, e.role, e.action, req.storedDetails, e.timestamp));
      var hashed := p.utf8encode(LogMessage(p, e.prevHash, e.role, e.action, req.hashedDetails, e.timestamp));
      && stored != hashed
      && (Recomputes(p, e) <==> p.sha256(stored) == p.sha256(hashed))
  {
    var e := NewEntry(p, log, req);
    var a := e.prevHash + e.role + e.action;
    var t := p.timeText(e.timestamp);
    var ms := LogMessage(p, e.prevHash, e.role, e.action, req.storedDetails, e.timestamp);
    var mh := LogMessage(p, e.prevHash, e.role, e.action, req.hashedDetails, e.timestamp);
    assert ms == a + req.storedDetails + t;
    assert mh == a + req.hashedDetails + t;
    MiddleDiffers(a, req.storedDetails, req.hashedDetails, t);
    if p.utf8encode(ms) == p.utf8encode(mh) {
      Utf8Injective(p, ms, mh);
    }
    LogHashEqualIff(p, ms, mh);
  }
}
