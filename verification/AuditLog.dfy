/**
 The tamper-evident audit log: hash-chained append, sealing rotation, restart and verification.

 The database file is a value `Db`; a transaction that fails leaves it as it was. The digest is a
 parameter of everything below, so no result assumes that it has no collisions.
 */
module AuditLog {
  import opened Basics
  import opened AuditCanonical

  /** The previous hash of the first record: 64 zeros. */
  function Genesis(): string {
    seq(64, i => '0')
  }

  /** The hash of a record, from the previous hash, its sequence number and its event. */
  type RecordDigest = (string, int, Event) -> string

  /** `sha256_hex(prev_hash + canonicalize(seq, event))`. */
  function DigestOver(sha: string -> string): RecordDigest {
    (prevHash, seqNo, e) => sha(prevHash + Canonicalize(seqNo, e))
  }

  datatype Row = Row(seqNo: int, event: Event, prevHash: string, recordHash: string)

  datatype ChainHead = ChainHead(seqNo: int, recordHash: string)

  datatype Anchor = Anchor(sealedAtNs: int, lastHash: string)

  /** The tables of the audit database; `rows` is `audit_log` in primary key order. */
  datatype Db = Db(rows: seq<Row>, head: Option<ChainHead>, anchors: map<int, Anchor>)

  const EMPTY_DB := Db([], None, map[])

  /** An open log: the file and the fields of the object that has it open. */
  datatype Log = Log(db: Db, head: ChainHead, retention: nat, rotationFailures: nat)

  /** How the two transactions of an append end. */
  datatype AppendIo = AppendIo(commits: bool, rotationCommits: bool)

  datatype VerifyResult = VerifyResult(ok: bool, checked: nat, badSeq: int)

  // ---------------------------------------------------------------- SQL over the row table

  function SelectRow(rows: seq<Row>, q: int): Option<Row> {
    if rows == [] then None else if rows[0].seqNo == q then Some(rows[0]) else SelectRow(rows[1..], q)
  }

  function DeleteUpTo(rows: seq<Row>, q: int): (kept: seq<Row>)
    ensures |kept| <= |rows|
  {
    if rows == [] then []
    else if rows[0].seqNo <= q then DeleteUpTo(rows[1..], q)
    else [rows[0]] + DeleteUpTo(rows[1..], q)
  }

  // ---------------------------------------------------------------- operations on values

  function LoadHead(db: Db): ChainHead {
    if db.head.Some? then db.head.value else ChainHead(0, Genesis())
  }

  function Opened(db: Db, retentionMaxRecords: int): Log {
    Log(db, LoadHead(db), if retentionMaxRecords < 0 then 0 else retentionMaxRecords, 0)
  }

  function Hashed(h: RecordDigest, seqNo: int, e: Event, prevHash: string): Row {
    Row(seqNo, e, prevHash, h(prevHash, seqNo, e))
  }

  function InsertAnchor(anchors: map<int, Anchor>, lastSeq: int, a: Anchor): map<int, Anchor> {
    if lastSeq in anchors then anchors else anchors[lastSeq := a]
  }

  function DeleteAnchorsBelow(anchors: map<int, Anchor>, q: int): map<int, Anchor> {
    map k | k in anchors && k >= q :: anchors[k]
  }

  function PrunedAt(db: Db, boundary: Row): Db {
    var anchor := Anchor(boundary.event.occurredAtNs, boundary.recordHash);
    Db(DeleteUpTo(db.rows, boundary.seqNo), db.head,
       DeleteAnchorsBelow(InsertAnchor(db.anchors, boundary.seqNo, anchor), boundary.seqNo))
  }

  function BoundarySeq(log: Log): int
    requires |log.db.rows| > log.retention > 0
  {
    log.db.rows[0].seqNo + (|log.db.rows| - log.retention) - 1
  }

  /** `rotate_if_needed_locked`, with the failure counting of its caller. */
  function Rotated(log: Log, commits: bool): Log {
    if log.retention == 0 || |log.db.rows| <= log.retention then log
    else match SelectRow(log.db.rows, BoundarySeq(log))
      case None => log
      case Some(boundary) =>
        if commits then log.(db := PrunedAt(log.db, boundary))
        else log.(rotationFailures := log.rotationFailures + 1)
  }

  /** The log after the insert transaction of an append, before any rotation. */
  function Inserted(h: RecordDigest, log: Log, e: Event): Log {
    var row := Hashed(h, log.head.seqNo + 1, e, log.head.recordHash);
    var head := ChainHead(row.seqNo, row.recordHash);
    log.(db := Db(log.db.rows + [row], Some(head), log.db.anchors), head := head)
  }

  /** `append`: the insert and the head move together or not at all; rotation follows a committed insert only. */
  function Appended(h: RecordDigest, log: Log, e: Event, io: AppendIo): Log {
    if io.commits then Rotated(Inserted(h, log, e), io.rotationCommits) else log
  }

  // ---------------------------------------------------------------- what an intact log is

  predicate FirstLinks(db: Db)
    requires db.rows != []
  {
    var r := db.rows[0];
    if r.seqNo == 1 then r.prevHash == Genesis()
    else r.seqNo - 1 in db.anchors && db.anchors[r.seqNo - 1].lastHash == r.prevHash
  }

  predicate Follows(r: Row, next: Row) {
    next.seqNo == r.seqNo + 1 && next.prevHash == r.recordHash
  }

  predicate HashOk(h: RecordDigest, r: Row) {
    r.recordHash == h(r.prevHash, r.seqNo, r.event)
  }

  predicate RowOk(h: RecordDigest, db: Db, i: nat)
    requires i < |db.rows|
  {
    && (if i == 0 then FirstLinks(db) else Follows(db.rows[i - 1], db.rows[i]))
    && HashOk(h, db.rows[i])
  }

  predicate HeadOk(db: Db) {
    if db.rows != [] then
      var last := db.rows[|db.rows| - 1];
      db.head == Some(ChainHead(last.seqNo, last.recordHash))
    else
      db.head.Some? && db.head.value.seqNo != 0 ==>
        db.head.value.seqNo in db.anchors && db.anchors[db.head.value.seqNo].lastHash == db.head.value.recordHash
  }

  /** Every retained record links and hashes, and the persisted head names the last of them. */
  predicate Intact(h: RecordDigest, db: Db) {
    (forall i: nat :: i < |db.rows| ==> RowOk(h, db, i)) && HeadOk(db)
  }

  // ---------------------------------------------------------------- the object

  class FaultAuditLog {
    const digest: RecordDigest   // SHA-256 over the previous hash and the canonical text
    const retention: nat
    var db: Db
    var head: ChainHead
    var rotationFailures: nat

    ghost function Model(): Log
      reads this
    {
      Log(db, head, retention, rotationFailures)
    }

    constructor (sha: string -> string, file: Db, retentionMaxRecords: int)
      ensures Model() == Opened(file, retentionMaxRecords) && digest == DigestOver(sha)
    {
      this.digest := DigestOver(sha);
      this.retention := if retentionMaxRecords < 0 then 0 else retentionMaxRecords;
      this.db := file;
      this.head := LoadHead(file);
      this.rotationFailures := 0;
    }

    method Append(e: Event, io: AppendIo) returns (seqNo: Option<int>)
      modifies this
      ensures Model() == Appended(digest, old(Model()), e, io)
      ensures seqNo == if io.commits then Some(old(head).seqNo + 1) else None
    {
      var newSeq := head.seqNo + 1;
      var prevHash := head.recordHash;
      var recordHash := digest(prevHash, newSeq, e);
      if !io.commits {
        return None;
      }
      var newHead := ChainHead(newSeq, recordHash);
      db := Db(db.rows + [Row(newSeq, e, prevHash, recordHash)], Some(newHead), db.anchors);
      head := newHead;
      RotateIfNeeded(io.rotationCommits);
      return Some(newSeq);
    }

    method RotateIfNeeded(commits: bool)
      modifies this`db, this`rotationFailures
      ensures Model() == Rotated(old(Model()), commits)
    {
      if retention <= 0 {
        return;
      }
      var count := |db.rows|;
      if count <= retention {
        return;
      }
      var pruneCount := count - retention;
      var boundarySeq := db.rows[0].seqNo + pruneCount - 1;
      var boundary := SelectRow(db.rows, boundarySeq);
      if boundary.None? {
        return;
      }
      if commits {
        db := PrunedAt(db, boundary.value);
      } else {
        rotationFailures := rotationFailures + 1;
      }
    }

    /**
     Accepts exactly the intact logs, and otherwise names the first record that is wrong or, if only the
     head is, the record the head names or the newest one it should name.
     */
    method Verify() returns (r: VerifyResult)
      ensures r.ok <==> Intact(digest, db)
      ensures r.checked <= |db.rows| && forall i: nat :: i < r.checked ==> RowOk(digest, db, i)
      ensures r.ok ==> r.checked == |db.rows|
      ensures r.checked < |db.rows| ==> !RowOk(digest, db, r.checked) && r.badSeq == db.rows[r.checked].seqNo
      ensures !r.ok && r.checked == |db.rows| && db.head.Some? ==> r.badSeq == db.head.value.seqNo
      ensures !r.ok && r.checked == |db.rows| && db.head.None? ==>
                db.rows != [] && r.badSeq == db.rows[|db.rows| - 1].seqNo
    {
      var checked := 0;
      var expectedSeq, expectedPrev := 0, "";
      while checked < |db.rows|
        invariant checked <= |db.rows|
        invariant forall i: nat :: i < checked ==> RowOk(digest, db, i)
        invariant checked > 0 ==> expectedSeq == db.rows[checked - 1].seqNo + 1
        invariant checked > 0 ==> expectedPrev == db.rows[checked - 1].recordHash
      {
        var rec := db.rows[checked];
        if checked == 0 {
          if rec.seqNo == 1 {
            if rec.prevHash != Genesis() {
              assert !RowOk(digest, db, checked);
              return VerifyResult(false, checked, rec.seqNo);
            }
          } else {
            if rec.seqNo - 1 !in db.anchors || rec.prevHash != db.anchors[rec.seqNo - 1].lastHash {
              assert !RowOk(digest, db, checked);
              return VerifyResult(false, checked, rec.seqNo);
            }
          }
        } else {
          if rec.seqNo != expectedSeq || rec.prevHash != expectedPrev {
            assert !RowOk(digest, db, checked);
            return VerifyResult(false, checked, rec.seqNo);
          }
        }
        var recomputed := digest(rec.prevHash, rec.seqNo, rec.event);
        if recomputed != rec.recordHash {
          assert !RowOk(digest, db, checked);
          return VerifyResult(false, checked, rec.seqNo);
        }
        assert RowOk(digest, db, checked);
        checked := checked + 1;
        expectedPrev := rec.recordHash;
        expectedSeq := rec.seqNo + 1;
      }
      if checked > 0 {
        if db.head.None? {
          return VerifyResult(false, checked, expectedSeq - 1);
        }
        if db.head.value.seqNo != expectedSeq - 1 || db.head.value.recordHash != expectedPrev {
          return VerifyResult(false, checked, db.head.value.seqNo);
        }
      } else if db.head.Some? && db.head.value.seqNo != 0 {
        var q := db.head.value.seqNo;
        if q !in db.anchors || db.anchors[q].lastHash != db.head.value.recordHash {
          return VerifyResult(false, checked, q);
        }
      }
      return VerifyResult(true, checked, 0);
    }
  }

  // ---------------------------------------------------------------- every run

  datatype Step =
    | Append(event: Event, io: AppendIo)
    | Restart(retentionMaxRecords: int)

  function Next(h: RecordDigest, log: Log, step: Step): Log {
    match step
    case Append(e, io) => Appended(h, log, e, io)
    case Restart(r) => Opened(log.db, r)
  }

  /** A log created on an empty file, then driven through `steps`. */
  function Run(h: RecordDigest, retentionMaxRecords: int, steps: seq<Step>): Log {
    if steps == [] then Opened(EMPTY_DB, retentionMaxRecords)
    else Next(h, Run(h, retentionMaxRecords, steps[..|steps| - 1]), steps[|steps| - 1])
  }

  function CommittedBy(step: Step): seq<Event> {
    if step.Append? && step.io.commits then [step.event] else []
  }

  /** The events whose append committed, in order. */
  function Committed(steps: seq<Step>): seq<Event> {
    if steps == [] then [] else Committed(steps[..|steps| - 1]) + CommittedBy(steps[|steps| - 1])
  }

  /** The whole history as one unbroken chain from genesis, nothing ever pruned. */
  function ChainOf(h: RecordDigest, events: seq<Event>): (rows: seq<Row>)
    ensures |rows| == |events|
  {
    if events == [] then []
    else
      var before := ChainOf(h, events[..|events| - 1]);
      before + [Hashed(h, |events|, events[|events| - 1], HashBefore(before))]
  }

  function HashBefore(rows: seq<Row>): string {
    if rows == [] then Genesis() else rows[|rows| - 1].recordHash
  }

  predicate GenesisLink(h: RecordDigest, rows: seq<Row>, i: nat)
    requires i < |rows|
  {
    && rows[i].seqNo == i + 1
    && rows[i].prevHash == (if i == 0 then Genesis() else rows[i - 1].recordHash)
    && HashOk(h, rows[i])
  }

  predicate GenesisChain(h: RecordDigest, rows: seq<Row>) {
    forall i: nat :: i < |rows| ==> GenesisLink(h, rows, i)
  }

  lemma GenesisChainExtends(h: RecordDigest, rows: seq<Row>, e: Event)
    requires GenesisChain(h, rows)
    ensures GenesisChain(h, rows + [Hashed(h, |rows| + 1, e, HashBefore(rows))])
  {
    var longer := rows + [Hashed(h, |rows| + 1, e, HashBefore(rows))];
    forall i: nat | i < |longer|
      ensures GenesisLink(h, longer, i)
    {
      assert i < |rows| ==> GenesisLink(h, rows, i);
    }
  }

  lemma {:induction false} ChainOfIsChain(h: RecordDigest, events: seq<Event>)
    ensures GenesisChain(h, ChainOf(h, events))
  {
    if events == [] {
    } else {
      var before := events[..|events| - 1];
      ChainOfIsChain(h, before);
      GenesisChainExtends(h, ChainOf(h, before), events[|events| - 1]);
    }
  }

  lemma ChainOfSnoc(h: RecordDigest, events: seq<Event>, e: Event)
    ensures ChainOf(h, events + [e]) ==
            ChainOf(h, events) + [Hashed(h, |events| + 1, e, HashBefore(ChainOf(h, events)))]
  {
    assert (events + [e])[..|events|] == events;
  }

  /** What the file and the object hold, given the whole history `full` and how many of its rows were pruned. */
  predicate Represents(h: RecordDigest, log: Log, full: seq<Row>, pruned: nat) {
    && GenesisChain(h, full)
    && (pruned < |full| || pruned == |full| == 0)
    && log.db.rows == full[pruned..]
    && log.db.head == (if full == [] then None else Some(ChainHead(|full|, full[|full| - 1].recordHash)))
    && log.head == LoadHead(log.db)
    && SealsBefore(log.db.anchors, full, pruned)
  }

  /** The only anchor, if any row was pruned, seals the last of the first `pruned` rows. */
  predicate SealsBefore(anchors: map<int, Anchor>, full: seq<Row>, pruned: nat)
    requires pruned <= |full|
  {
    if pruned == 0 then anchors == map[]
    else anchors.Keys == {pruned} && anchors[pruned].lastHash == full[pruned - 1].recordHash
  }

  lemma SealMovesUp(anchors: map<int, Anchor>, full: seq<Row>, pruned: nat, b: nat, sealedAtNs: int)
    requires pruned < b <= |full| && SealsBefore(anchors, full, pruned)
    ensures var a := Anchor(sealedAtNs, full[b - 1].recordHash);
            SealsBefore(DeleteAnchorsBelow(InsertAnchor(anchors, b, a), b), full, b)
  {
    var a := Anchor(sealedAtNs, full[b - 1].recordHash);
    assert b !in anchors;
    assert DeleteAnchorsBelow(InsertAnchor(anchors, b, a), b).Keys == {b};
  }

  lemma {:induction false} ChainSelect(h: RecordDigest, full: seq<Row>, from: nat, q: int)
    requires GenesisChain(h, full)
    requires from < q <= |full|
    ensures SelectRow(full[from..], q) == Some(full[q - 1])
    decreases |full| - from
  {
    assert GenesisLink(h, full, from);
    if from + 1 >= q {
    } else {
      assert full[from..][1..] == full[from + 1..];
      assert GenesisLink(h, full, from);
      ChainSelect(h, full, from + 1, q);
    }
  }

  lemma {:induction false} ChainDelete(h: RecordDigest, full: seq<Row>, from: nat, q: nat)
    requires GenesisChain(h, full)
    requires from <= q <= |full|
    ensures DeleteUpTo(full[from..], q) == full[q..]
    decreases |full| - from
  {
    if from >= |full| {
    } else {
      assert full[from..][1..] == full[from + 1..];
      assert GenesisLink(h, full, from);
      if from < q {
        ChainDelete(h, full, from + 1, q);
      } else {
        DeleteLowerBound(h, full, from + 1, q);
      }
    }
  }

  /** Nothing above the bound is deleted. */
  lemma {:induction false} DeleteLowerBound(h: RecordDigest, full: seq<Row>, from: nat, q: int)
    requires GenesisChain(h, full)
    requires q <= from <= |full|
    ensures DeleteUpTo(full[from..], q) == full[from..]
    decreases |full| - from
  {
    if from >= |full| {
    } else {
      assert full[from..][1..] == full[from + 1..];
      assert GenesisLink(h, full, from);
      DeleteLowerBound(h, full, from + 1, q);
    }
  }

  /** Sealing and pruning up to `full[b - 1]` leaves the tail after it. */
  lemma PruneRepresents(h: RecordDigest, log: Log, full: seq<Row>, pruned: nat, b: nat)
    requires Represents(h, log, full, pruned) && pruned < b < |full|
    ensures Represents(h, log.(db := PrunedAt(log.db, full[b - 1])), full, b)
  {
    assert GenesisLink(h, full, b - 1);
    ChainDelete(h, full, pruned, b);
    SealMovesUp(log.db.anchors, full, pruned, b, full[b - 1].event.occurredAtNs);
  }

  /** How many rows of a history of length `n` are gone after a rotation. */
  function PrunedAfter(log: Log, n: nat, pruned: nat, commits: bool): nat {
    if commits && log.retention > 0 && n > pruned + log.retention then n - log.retention else pruned
  }

  lemma RotateRepresents(h: RecordDigest, log: Log, full: seq<Row>, pruned: nat, commits: bool)
    requires Represents(h, log, full, pruned)
    ensures Represents(h, Rotated(log, commits), full, PrunedAfter(log, |full|, pruned, commits))
  {
    var r := log.retention;
    if r > 0 && |log.db.rows| > r {
      assert GenesisLink(h, full, pruned);
      ChainSelect(h, full, pruned, |full| - r);
      PruneRepresents(h, log, full, pruned, |full| - r);
    }
  }

  lemma InsertRepresents(h: RecordDigest, log: Log, full: seq<Row>, pruned: nat, e: Event)
    requires Represents(h, log, full, pruned)
    ensures Represents(h, Inserted(h, log, e), full + [Hashed(h, |full| + 1, e, HashBefore(full))], pruned)
  {
    var row := Hashed(h, |full| + 1, e, HashBefore(full));
    GenesisChainExtends(h, full, e);
    assert (full + [row])[pruned..] == full[pruned..] + [row];
    assert SealsBefore(log.db.anchors, full + [row], pruned);
  }

  lemma AppendRepresents(h: RecordDigest, log: Log, full: seq<Row>, pruned: nat, e: Event, io: AppendIo)
    requires io.commits && Represents(h, log, full, pruned)
    ensures Represents(h, Appended(h, log, e, io), full + [Hashed(h, |full| + 1, e, HashBefore(full))],
                       PrunedAfter(log, |full| + 1, pruned, io.rotationCommits))
  {
    var longer := full + [Hashed(h, |full| + 1, e, HashBefore(full))];
    var mid := Inserted(h, log, e);
    InsertRepresents(h, log, full, pruned, e);
    RotateRepresents(h, mid, longer, pruned, io.rotationCommits);
    assert PrunedAfter(mid, |longer|, pruned, io.rotationCommits) ==
           PrunedAfter(log, |full| + 1, pruned, io.rotationCommits);
  }

  lemma RepresentsIntact(h: RecordDigest, log: Log, full: seq<Row>, pruned: nat)
    requires Represents(h, log, full, pruned)
    ensures Intact(h, log.db) && |log.db.rows| == |full| - pruned
  {
    var db := log.db;
    if db.rows != [] {
      assert GenesisLink(h, full, |full| - 1);
      assert db.rows[|db.rows| - 1] == full[|full| - 1];
    }
    forall i: nat | i < |db.rows|
      ensures RowOk(h, db, i)
    {
      assert db.rows[i] == full[pruned + i];
      assert GenesisLink(h, full, pruned + i);
      if pruned + i > 0 {
        assert GenesisLink(h, full, pruned + i - 1);
      }
    }
  }

  lemma NextRepresents(h: RecordDigest, log: Log, events: seq<Event>, pruned: nat, step: Step) returns (left: nat)
    requires Represents(h, log, ChainOf(h, events), pruned)
    ensures Represents(h, Next(h, log, step), ChainOf(h, events + CommittedBy(step)), left)
  {
    var full := ChainOf(h, events);
    var longer := ChainOf(h, events + CommittedBy(step));
    if CommittedBy(step) == [] {
      assert events + CommittedBy(step) == events;
      left := pruned;
    } else {
      assert longer == full + [Hashed(h, |full| + 1, step.event, HashBefore(full))] by {
        ChainOfSnoc(h, events, step.event);
      }
      AppendRepresents(h, log, full, pruned, step.event, step.io);
      left := PrunedAfter(log, |full| + 1, pruned, step.io.rotationCommits);
    }
  }

  lemma {:induction false} RunRepresents(h: RecordDigest, retentionMaxRecords: int, steps: seq<Step>)
    returns (pruned: nat)
    ensures Represents(h, Run(h, retentionMaxRecords, steps), ChainOf(h, Committed(steps)), pruned)
  {
    if steps == [] {
      pruned := 0;
    } else {
      var before := steps[..|steps| - 1];
      pruned := RunRepresents(h, retentionMaxRecords, before);
      pruned := NextRepresents(h, Run(h, retentionMaxRecords, before), Committed(before), pruned, steps[|steps| - 1]);
    }
  }

  /**
   Every run of appends, failed appends, rotations that commit or roll back, and restarts with any
   retention: the file is intact, so `Verify` accepts it and counts every record; the retained rows
   are the tail of the whole history that ends at the persisted head; and the only anchor seals
   exactly the row before the oldest retained one.
   */
  lemma RunsStayIntact(h: RecordDigest, retentionMaxRecords: int, steps: seq<Step>)
    ensures var log := Run(h, retentionMaxRecords, steps);
            var full := ChainOf(h, Committed(steps));
            && Intact(h, log.db)
            && |log.db.rows| <= |full|
            && Represents(h, log, full, |full| - |log.db.rows|)
  {
    var pruned := RunRepresents(h, retentionMaxRecords, steps);
    var log, full := Run(h, retentionMaxRecords, steps), ChainOf(h, Committed(steps));
    RepresentsIntact(h, log, full, pruned);
    assert |full| - |log.db.rows| == pruned;
  }

  /** After an append whose rotation committed, at most the retained number of rows is left, and the newest survives. */
  lemma RotationBoundsRows(h: RecordDigest, retentionMaxRecords: int, steps: seq<Step>, e: Event)
    ensures var log := Run(h, retentionMaxRecords, steps);
            var rows := Appended(h, log, e, AppendIo(true, true)).db.rows;
            && (log.retention > 0 ==> |rows| <= log.retention)
            && rows != [] && rows[|rows| - 1].event == e && rows[|rows| - 1].seqNo == |Committed(steps)| + 1
  {
    var pruned := RunRepresents(h, retentionMaxRecords, steps);
    var log := Run(h, retentionMaxRecords, steps);
    var events := Committed(steps);
    AppendRepresents(h, log, ChainOf(h, events), pruned, e, AppendIo(true, true));
  }

  // ---------------------------------------------------------------- what an accepted file proves

  predicate Collision(sha: string -> string, x: string, y: string) {
    x != y && sha(x) == sha(y)
  }

  predicate SameRecord(r: Row, s: Row) {
    && r.seqNo == s.seqNo
    && CanonicalForm(r.event) == CanonicalForm(s.event)
    && r.prevHash == s.prevHash
    && r.recordHash == s.recordHash
  }

  function HashedText(r: Row): string {
    r.prevHash + Canonicalize(r.seqNo, r.event)
  }

  /** Two records with one digest that are not the same record. */
  predicate Clash(h: RecordDigest, r: Row, s: Row) {
    && h(r.prevHash, r.seqNo, r.event) == h(s.prevHash, s.seqNo, s.event)
    && !(r.prevHash == s.prevHash && r.seqNo == s.seqNo && CanonicalForm(r.event) == CanonicalForm(s.event))
  }

  /** A clash of records is a collision of the digest: the hashed text loses nothing. */
  lemma ClashIsCollision(sha: string -> string, r: Row, s: Row)
    requires Clash(DigestOver(sha), r, s)
    ensures Collision(sha, HashedText(r), HashedText(s))
  {
    if HashedText(r) == HashedText(s) {
      HashedTextInjective(r.prevHash, r.seqNo, r.event, s.prevHash, s.seqNo, s.event);
    }
  }

  lemma {:induction false} ContiguousRows(h: RecordDigest, db: Db, i: nat)
    requires Intact(h, db) && i < |db.rows|
    ensures db.rows[i].seqNo == db.rows[|db.rows| - 1].seqNo - (|db.rows| - 1 - i)
    decreases |db.rows| - i
  {
    if i + 1 >= |db.rows| {
    } else {
      ContiguousRows(h, db, i + 1);
      assert RowOk(h, db, i + 1);
    }
  }

  /** Counting `back` records from the end, two accepted files with one head hold the same record, or records clash. */
  lemma {:induction false} SameTail(h: RecordDigest, a: Db, b: Db, back: nat) returns (r: Row, s: Row)
    requires Intact(h, a) && Intact(h, b) && a.head == b.head
    requires back < |a.rows| && back < |b.rows|
    ensures SameRecord(a.rows[|a.rows| - 1 - back], b.rows[|b.rows| - 1 - back]) || Clash(h, r, s)
  {
    var i, j := |a.rows| - 1 - back, |b.rows| - 1 - back;
    assert RowOk(h, a, i) && RowOk(h, b, j);
    if back == 0 {
    } else {
      r, s := SameTail(h, a, b, back - 1);
      if Clash(h, r, s) {
        return;
      }
      assert RowOk(h, a, i + 1) && RowOk(h, b, j + 1);
    }
    r, s := a.rows[i], b.rows[j];
  }

  lemma SameSeqSameRecord(h: RecordDigest, a: Db, b: Db, i: nat, j: nat) returns (r: Row, s: Row)
    requires Intact(h, a) && Intact(h, b) && a.head == b.head
    requires i < |a.rows| && j < |b.rows| && a.rows[i].seqNo == b.rows[j].seqNo
    ensures SameRecord(a.rows[i], b.rows[j]) || Clash(h, r, s)
  {
    ContiguousRows(h, a, i);
    ContiguousRows(h, b, j);
    r, s := SameTail(h, a, b, |a.rows| - 1 - i);
  }

  /**
   Two non-empty files that verification accepts and that carry the same persisted head agree on
   every record they both retain, or they exhibit two different texts with the same digest. Nothing
   is assumed about the digest, or about the length of the stored hashes.
   */
  lemma SameHeadSameContent(sha: string -> string, a: Db, b: Db, i: nat, j: nat) returns (x: string, y: string)
    requires Intact(DigestOver(sha), a) && Intact(DigestOver(sha), b) && a.head == b.head
    requires i < |a.rows| && j < |b.rows| && a.rows[i].seqNo == b.rows[j].seqNo
    ensures SameRecord(a.rows[i], b.rows[j]) || Collision(sha, x, y)
  {
    var r, s := SameSeqSameRecord(DigestOver(sha), a, b, i, j);
    if Clash(DigestOver(sha), r, s) {
      ClashIsCollision(sha, r, s);
    }
    x, y := HashedText(r), HashedText(s);
  }

  lemma TailsAgree(h: RecordDigest, a: Db, b: Db) returns (r: Row, s: Row)
    requires Intact(h, a) && Intact(h, b) && a.head == b.head && 0 < |a.rows| <= |b.rows|
    ensures (forall i :: 0 <= i < |a.rows| ==> SameRecord(a.rows[i], b.rows[|b.rows| - |a.rows| + i])) || Clash(h, r, s)
  {
    var n := 0;
    while n < |a.rows|
      invariant n <= |a.rows|
      invariant forall i :: 0 <= i < n ==> SameRecord(a.rows[i], b.rows[|b.rows| - |a.rows| + i])
    {
      r, s := SameTail(h, a, b, |a.rows| - 1 - n);
      if Clash(h, r, s) {
        return;
      }
      n := n + 1;
    }
    r, s := a.rows[0], b.rows[0];
  }

  /** Under an unchanged head the shorter accepted file is, record for record, the tail of the longer one. */
  lemma RetainedRangeIsFixed(sha: string -> string, a: Db, b: Db) returns (x: string, y: string)
    requires Intact(DigestOver(sha), a) && Intact(DigestOver(sha), b) && a.head == b.head && 0 < |a.rows| <= |b.rows|
    ensures (forall i :: 0 <= i < |a.rows| ==> SameRecord(a.rows[i], b.rows[|b.rows| - |a.rows| + i]))
            || Collision(sha, x, y)
  {
    var r, s := TailsAgree(DigestOver(sha), a, b);
    if Clash(DigestOver(sha), r, s) {
      ClashIsCollision(sha, r, s);
    }
    x, y := HashedText(r), HashedText(s);
  }

  /** The documented limit: dropping the newest rows and moving the head back to the new last row is accepted. */
  lemma TailTruncationAccepted(h: RecordDigest, db: Db, n: nat)
    requires Intact(h, db) && 0 < n <= |db.rows|
    ensures Intact(h, Db(db.rows[..n], Some(ChainHead(db.rows[n - 1].seqNo, db.rows[n - 1].recordHash)), db.anchors))
  {
    var cut := Db(db.rows[..n], Some(ChainHead(db.rows[n - 1].seqNo, db.rows[n - 1].recordHash)), db.anchors);
    forall i: nat | i < |cut.rows|
      ensures RowOk(h, cut, i)
    {
      assert RowOk(h, db, i);
    }
  }

  /** The other documented limit: a prefix cut that forges the matching anchor looks like a rotation. */
  lemma PrefixTruncationAccepted(h: RecordDigest, db: Db, n: nat, sealedAtNs: int)
    requires Intact(h, db) && 0 < n < |db.rows| && db.rows[n].seqNo != 1
    ensures Intact(h, Db(db.rows[n..], db.head,
                           db.anchors[db.rows[n].seqNo - 1 := Anchor(sealedAtNs, db.rows[n - 1].recordHash)]))
  {
    var cut := Db(db.rows[n..], db.head,
                  db.anchors[db.rows[n].seqNo - 1 := Anchor(sealedAtNs, db.rows[n - 1].recordHash)]);
    forall i: nat | i < |cut.rows|
      ensures RowOk(h, cut, i)
    {
      assert RowOk(h, db, n + i);
    }
  }
}
