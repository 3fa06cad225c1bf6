/** What the sealed anchor pins: where an accepted file may start, and what an unchanged head and anchor leave open. */
module AuditSeals {
  import opened Basics
  import opened AuditCanonical
  import opened AuditLog

  predicate AllZeros(hash: string) {
    |hash| == 64 && forall i :: 0 <= i < 64 ==> hash[i] == '0'
  }

  lemma GenesisIsZeros(hash: string)
    ensures hash == Genesis() <==> AllZeros(hash)
  {
  }

  /** An accepted file that starts with record 1 links it to 64 zeros. */
  lemma FirstRecordLinksToZeros(h: RecordDigest, db: Db)
    requires Intact(h, db) && db.rows != [] && db.rows[0].seqNo == 1
    ensures AllZeros(db.rows[0].prevHash)
  {
    assert RowOk(h, db, 0);
    GenesisIsZeros(db.rows[0].prevHash);
  }

  /** An accepted file that starts right after the sealed row links to that row's hash. */
  lemma OldestLinksToSeal(h: RecordDigest, log: Log, full: seq<Row>, pruned: nat, db: Db)
    requires Represents(h, log, full, pruned) && pruned > 0
    requires db.anchors == log.db.anchors && Intact(h, db) && db.rows != [] && db.rows[0].seqNo == pruned + 1
    ensures db.rows[0].prevHash == full[pruned - 1].recordHash
  {
    assert RowOk(h, db, 0);
  }

  /** Whatever the rows, a file with the anchors of a run is accepted only if it starts at record 1 or at the seal. */
  lemma AcceptedStarts(h: RecordDigest, log: Log, full: seq<Row>, pruned: nat, db: Db)
    requires Represents(h, log, full, pruned)
    requires db.anchors == log.db.anchors && Intact(h, db) && db.rows != []
    ensures db.rows[0].seqNo == 1 || (pruned > 0 && db.rows[0].seqNo == pruned + 1)
  {
    assert RowOk(h, db, 0);
  }

  /** An emptied file is accepted only without a head, with a head at zero, or with the sealed row as its head. */
  lemma EmptiedFileNeedsSeal(h: RecordDigest, log: Log, full: seq<Row>, pruned: nat, db: Db)
    requires Represents(h, log, full, pruned)
    requires db.anchors == log.db.anchors && db.rows == []
    ensures Intact(h, db) <==>
            || db.head.None?
            || db.head.value.seqNo == 0
            || (pruned > 0 && db.head.value == ChainHead(pruned, full[pruned - 1].recordHash))
  {
  }

  /** In particular no file of a run can be emptied under its own head. */
  lemma EmptyingIsDetected(h: RecordDigest, log: Log, full: seq<Row>, pruned: nat, db: Db)
    requires Represents(h, log, full, pruned) && full != []
    requires db.anchors == log.db.anchors && db.head == log.db.head && db.rows == []
    ensures !Intact(h, db)
  {
    EmptiedFileNeedsSeal(h, log, full, pruned, db);
    assert GenesisLink(h, full, |full| - 1);
  }

  /** The last rows of `longer` are the records of `rows`. */
  predicate EndsWith(longer: seq<Row>, rows: seq<Row>) {
    |rows| <= |longer| && forall i :: 0 <= i < |rows| ==> SameRecord(rows[i], longer[|longer| - |rows| + i])
  }

  lemma LengthByStart(h: RecordDigest, db: Db)
    requires Intact(h, db) && db.rows != []
    ensures db.head.Some? && |db.rows| == db.head.value.seqNo - db.rows[0].seqNo + 1
  {
    ContiguousRows(h, db, 0);
  }

  /** A file under the head and the anchors of a log is as long as that log, or reaches back to record 1. */
  lemma LengthUnderSeal(h: RecordDigest, log: Log, full: seq<Row>, pruned: nat, db: Db)
    requires Represents(h, log, full, pruned) && full != [] && Intact(h, db)
    requires db.head == log.db.head && db.anchors == log.db.anchors
    ensures |db.rows| == |log.db.rows| || (|db.rows| == |full| && db.rows[0].seqNo == 1)
  {
    if db.rows == [] {
      EmptyingIsDetected(h, log, full, pruned, db);
    } else {
      AcceptedStarts(h, log, full, pruned, db);
      LengthByStart(h, db);
    }
  }

  /** An accepted file under the head and anchors of `log` holds its records, and beyond them only record 1 onwards. */
  predicate HoldsUnderSeal(rows: seq<Row>, retained: seq<Row>, total: nat) {
    EndsWith(rows, retained) && (|rows| == |retained| || (|rows| == total && rows[0].seqNo == 1))
  }

  lemma SealedFileIsFixed(sha: string -> string, log: Log, full: seq<Row>, pruned: nat, db: Db)
    returns (x: string, y: string)
    requires Represents(DigestOver(sha), log, full, pruned) && full != [] && Intact(DigestOver(sha), db)
    requires db.head == log.db.head && db.anchors == log.db.anchors
    ensures HoldsUnderSeal(db.rows, log.db.rows, |full|) || Collision(sha, x, y)
  {
    RepresentsIntact(DigestOver(sha), log, full, pruned);
    LengthUnderSeal(DigestOver(sha), log, full, pruned, db);
    x, y := RetainedRangeIsFixed(sha, log.db, db);
  }

  /**
   In every run of the log, for every other file with the same head and the same anchors that verification
   accepts: it is record for record the file of the run, or it holds the whole history from record 1 with
   that file as its tail, or two texts with one digest are exhibited. Rows can be neither cut from either
   end, edited nor replaced.
   */
  lemma SameHeadAndSealSameFile(
    sha: string -> string, retentionMaxRecords: int, steps: seq<Step>, db: Db) returns (x: string, y: string)
    requires var file := Run(DigestOver(sha), retentionMaxRecords, steps).db;
             db.head == file.head && db.anchors == file.anchors
    requires Committed(steps) != [] && Intact(DigestOver(sha), db)
    ensures HoldsUnderSeal(db.rows, Run(DigestOver(sha), retentionMaxRecords, steps).db.rows, |Committed(steps)|) ||
            Collision(sha, x, y)
  {
    var h := DigestOver(sha);
    var pruned := RunRepresents(h, retentionMaxRecords, steps);
    x, y := SealedFileIsFixed(sha, Run(h, retentionMaxRecords, steps), ChainOf(h, Committed(steps)), pruned, db);
  }

  // ---------------------------------------------------------------- how much a rotation keeps

  /** The newest `n` rows. */
  function NewestRows(rows: seq<Row>, n: nat): seq<Row> {
    if |rows| > n then rows[|rows| - n..] else rows
  }

  /**
   What an append to a log with history `full` leaves: the newest rows the retention allows, all of them
   without a rotation, or no change.
   */
  predicate LeavesNewest(h: RecordDigest, log: Log, full: seq<Row>, e: Event, io: AppendIo) {
    var rows, after := log.db.rows + [Hashed(h, |full| + 1, e, HashBefore(full))], Appended(h, log, e, io);
    if !io.commits then after == log
    else if log.retention > 0 && io.rotationCommits then after.db.rows == NewestRows(rows, log.retention)
    else after.db.rows == rows
  }

  lemma SealedAppendKeeps(h: RecordDigest, log: Log, full: seq<Row>, pruned: nat, e: Event, io: AppendIo)
    requires Represents(h, log, full, pruned)
    ensures LeavesNewest(h, log, full, e, io)
  {
    var row := Hashed(h, |full| + 1, e, HashBefore(full));
    if io.commits {
      AppendRepresents(h, log, full, pruned, e, io);
      assert log.db.rows + [row] == (full + [row])[pruned..];
    }
  }

  /**
   In every run, an append that commits leaves exactly the newest rows the retention allows, the new one
   last; with no retention, or a rotation that rolls back, it leaves all of them. One that does not commit
   leaves the file as it was.
   */
  lemma AppendKeepsNewest(h: RecordDigest, retentionMaxRecords: int, steps: seq<Step>, e: Event, io: AppendIo)
    ensures LeavesNewest(h, Run(h, retentionMaxRecords, steps), ChainOf(h, Committed(steps)), e, io)
  {
    var pruned := RunRepresents(h, retentionMaxRecords, steps);
    SealedAppendKeeps(h, Run(h, retentionMaxRecords, steps), ChainOf(h, Committed(steps)), pruned, e, io);
  }

  lemma SealedFailureCounted(h: RecordDigest, log: Log, full: seq<Row>, pruned: nat, e: Event, io: AppendIo)
    requires Represents(h, log, full, pruned)
    ensures var due := log.retention > 0 && |log.db.rows| >= log.retention;
            Appended(h, log, e, io).rotationFailures ==
            log.rotationFailures + if io.commits && due && !io.rotationCommits then 1 else 0
  {
    if io.commits {
      var mid, longer := Inserted(h, log, e), full + [Hashed(h, |full| + 1, e, HashBefore(full))];
      InsertRepresents(h, log, full, pruned, e);
      if mid.retention > 0 && |mid.db.rows| > mid.retention {
        assert GenesisLink(h, longer, pruned);
        ChainSelect(h, longer, pruned, |longer| - mid.retention);
      }
    }
  }

  /** In every run exactly the rotations that were due after a committed append and rolled back are counted. */
  lemma FailedRotationsCounted(h: RecordDigest, retentionMaxRecords: int, steps: seq<Step>, e: Event, io: AppendIo)
    ensures var log := Run(h, retentionMaxRecords, steps);
            var due := log.retention > 0 && |log.db.rows| >= log.retention;
            Appended(h, log, e, io).rotationFailures ==
            log.rotationFailures + if io.commits && due && !io.rotationCommits then 1 else 0
  {
    var pruned := RunRepresents(h, retentionMaxRecords, steps);
    SealedFailureCounted(h, Run(h, retentionMaxRecords, steps), ChainOf(h, Committed(steps)), pruned, e, io);
  }
}
