/** The database object: its commit, checkpoint and open are runs of the crash-safety machine. */
module Database {
  import opened Bytes
  import opened OrderedMap
  import opened Values
  import opened Wal
  import opened Recovery
  import C = CrashSafety
  import S = Serialization
  import F = DataFile

  function BeginRecord(lsn: U64, txn: U64): LogRecord {
    LogRecord(lsn, txn, 0, BEGIN, [])
  }

  function Logged(d: C.Disk, lsn: U64, txn: U64, ts: Tables): C.Disk {
    var begun := C.Append(d, BeginRecord(lsn, txn));
    var updated := C.Append(begun, LogRecord(Next(lsn), txn, lsn, UPDATE, Snapshot(ts)));
    C.Append(updated, LogRecord(Next(Next(lsn)), txn, Next(lsn), COMMIT, []))
  }

  function PersistedDisk(d: C.Disk, sync: bool, lsn: U64, txn: U64, ts: Tables): C.Disk {
    var logged := Logged(d, lsn, txn, ts);
    C.Disk(logged.wal, if sync then |logged.wal| else d.synced, Some(S.Serialize(ts)))
  }

  datatype Result = Done | LogClosed | TooBig | BadData | BadSnapshot

  class Database {
    const sync: bool
    const wal: LogManager
    var data: Option<Bytes>
    var tables: Tables
    var nextTxn: U64
    var generation: nat
    ghost var failed: bool
    ghost var stable: Tables

    constructor (sync: bool, wal: LogManager, data: Option<Bytes>, ghost stable: Tables)
      ensures this.sync == sync && this.wal == wal && this.data == data && this.stable == stable
      ensures tables == [] && nextTxn == 1 && generation == 0 && !failed
    {
      this.sync, this.wal, this.data, this.stable := sync, wal, data, stable;
      tables, nextTxn, generation, failed := [], 1, 0, false;
    }

    ghost function Disk(): C.Disk
      reads this, wal
    {
      C.Disk(wal.file, wal.synced, data)
    }

    /** The state of the machine this object stands for while no operation is under way. */
    ghost function View(): C.System
      reads this, wal
    {
      C.System(sync, Disk(), C.Up(C.Db(tables, wal.nextLsn, nextTxn, failed), C.Idle), stable)
    }

    /** PersistCommittedTables: BEGIN, UPDATE and COMMIT into the log, flush, replace the data file. */
    method Persist() returns (r: Result)
      modifies this, wal
      ensures tables == old(tables) && generation == old(generation) && nextTxn == Next(old(nextTxn))
      ensures !old(wal.isOpen) ==> r == LogClosed
      ensures old(wal.isOpen) ==>
                && wal.isOpen
                && r == (if |Snapshot(tables)| <= MAX_LENGTH - HEADER then Done else TooBig)
      ensures r == TooBig ==>
                && Disk() == C.Append(old(Disk()), BeginRecord(old(wal.nextLsn), old(nextTxn)))
                && wal.nextLsn == Next(old(wal.nextLsn)) && failed && stable == old(stable)
      ensures r == Done ==>
                && Disk() == PersistedDisk(old(Disk()), sync, old(wal.nextLsn), old(nextTxn), tables)
                && wal.nextLsn == Next(Next(Next(old(wal.nextLsn)))) && !failed && stable == tables
    {
      hide S.Serialize, Encode, Snapshot;
      var txn := nextTxn;
      nextTxn := Next(nextTxn);
      var begin := wal.Append(txn, 0, BEGIN, []);
      if !begin.Ok? {
        return LogClosed;
      }
      var serialized := F.SerializeTables(tables);
      SnapshotIs(tables);
      var update := wal.Append(txn, begin.value, UPDATE, PREFIX + serialized);
      failed := true;
      if !update.Ok? {
        return TooBig;
      }
      var commit := wal.Append(txn, update.value, COMMIT, []);
      if sync {
        var flushed := wal.Flush(commit.value);
      }
      data := Some(serialized);
      failed, stable := false, tables;
      r := Done;
    }

    /** The end of a commit: install the new tables, move to the next generation, persist. */
    method Commit(ts: Tables) returns (r: Result)
      modifies this, wal
      ensures !old(wal.isOpen) ==> r == LogClosed
      ensures old(wal.isOpen) ==>
                && r == (if |Snapshot(ts)| <= MAX_LENGTH - HEADER then Done else TooBig)
                && tables == ts && generation == old(generation) + 1 && wal.isOpen
      ensures old(wal.isOpen && C.CountersLeft(View().process.db)) ==>
                && (r == Done ==> View() == C.Run(old(View()), C.CommitActions(ts)))
                && (r == TooBig ==> View() == C.Run(old(View()), [C.Commit(ts), C.Tick, C.Tick]))
    {
      hide S.Serialize, S.Fits, C.Run, C.Append, PersistedDisk, Snapshot, C.CommitActions;
      ghost var s := View();
      tables := ts;
      generation := generation + 1;
      r := Persist();
      if s.process.db.nextLsn + 3 <= MAX64 && s.process.db.nextTxn < MAX64 {
        if r == Done {
          CommitRun(s, ts);
        } else if r == TooBig {
          C.TooBigSteps(s, ts);
        }
      }
    }

    method Checkpoint() returns (r: Result)
      modifies this, wal
      ensures r == (if old(wal.isOpen) then Done else LogClosed)
      ensures r == Done ==> View() == C.Run(old(View()), [C.Checkpoint, C.Tick, C.Tick])
    {
      hide S.Serialize, C.Run, C.Step;
      ghost var s := View();
      var serialized := F.SerializeTables(tables);
      data := Some(serialized);
      var truncated := wal.Truncate();
      if !truncated.Ok? {
        return LogClosed;
      }
      failed, stable := false, tables;
      C.CheckpointSteps(s);
      r := Done;
    }

    /** Load the data file, or make an empty one; an unreadable one is replaced by the tables in memory. */
    method LoadData() returns (ok: bool)
      requires tables == []
      modifies this
      ensures ok == C.DataReadable(old(data))
      ensures ok ==> tables == C.DataTables(old(data))
      ensures ok ==> data == if old(data).None? then Some(S.Serialize([])) else old(data)
      ensures !ok ==> data == Some(S.Serialize([]))
      ensures nextTxn == old(nextTxn) && generation == old(generation) && stable == old(stable)
    {
      hide S.Serialize, S.Load;
      if data.None? {
        var bytes := F.SerializeTables([]);
        data := Some(bytes);
        return true;
      }
      var loaded := F.LoadTablesBytes(data.value);
      if !loaded.Loaded? {
        var bytes := F.SerializeTables(tables);
        data := Some(bytes);
        return false;
      }
      tables := loaded.tables;
      ok := true;
    }

    /** Take over what was replayed, and save it if a commit was among it. */
    method Install(replay: Replay)
      requires replay.Replay?
      modifies this
      ensures tables == replay.tables && stable == old(stable) && !failed
      ensures nextTxn == if Next(replay.largest) > 1 then Next(replay.largest) else 1
      ensures data == if replay.recovered then Some(S.Serialize(replay.tables)) else old(data)
      ensures generation == old(generation) + if replay.recovered then 1 else 0
    {
      hide S.Serialize;
      tables := replay.tables;
      nextTxn := if Next(replay.largest) > 1 then Next(replay.largest) else 1;
      if replay.recovered {
        var bytes := F.SerializeTables(tables);
        data := Some(bytes);
        generation := generation + 1;
      }
      failed := false;
    }

    /**
     * Load the data file, repair the log, replay it, and save what was replayed. When it fails, the database that was
     * being opened is closed, and its tables in memory replace the data file.
     */
    method Open() returns (r: Result)
      requires !wal.isOpen && nextTxn == 1 && wal.nextLsn == 1 && tables == []
      modifies this, wal
      ensures var replay := old(C.Reopened(Disk()));
              && r == (if !C.DataReadable(old(data)) then BadData
                       else if replay.InvalidSnapshot? then BadSnapshot
                       else Done)
              && (r == Done ==>
                    tables == replay.tables && generation == old(generation) + if replay.recovered then 1 else 0)
              && (r == BadData ==> Disk() == C.Save(old(Disk()), []))
              && (r == BadSnapshot ==>
                    data == Some(S.Serialize(replay.left)) && wal.file == EncodeAll(Records(old(wal.file))))
      ensures old(C.DiskInv(Disk())) ==>
                r == Done && View() == C.Run(old(C.System(sync, Disk(), C.Down, stable)), C.OPEN)
    {
      hide S.Serialize, S.Load, Records, EncodeAll, ReplayAll, C.Run, C.Step, C.DiskInv, LastCommit, Log, Encode, S.Fits,
           C.OPEN;
      ghost var s := C.System(sync, Disk(), C.Down, stable);
      assert C.Reopened(s.disk)
          == if C.DataReadable(s.disk.data) then ReplayAll(Records(s.disk.wal), C.DataTables(s.disk.data))
             else InvalidSnapshot([]);
      hide C.DataTables, C.DataReadable, C.Reopened;
      assert C.DiskInv(s.disk) ==> C.DataReadable(s.disk.data) by { ReadableData(s); }
      var readable := LoadData();
      if !readable {
        return BadData;
      }
      var status := wal.Open();
      var records := wal.ReadAll();
      var replay := RecoverCommittedTables(records, tables);
      if replay.InvalidSnapshot? {
        assert !C.DiskInv(s.disk) by { if C.DiskInv(s.disk) { OpenSteps(s); } }
        tables := replay.left;
        var bytes := F.SerializeTables(tables);
        data := Some(bytes);
        return BadSnapshot;
      }
      Install(replay);
      if C.DiskInv(s.disk) {
        OpenSteps(s);
      }
      r := Done;
    }
  }

  lemma SnapshotIs(ts: Tables)
    ensures Snapshot(ts) == PREFIX + S.Serialize(ts)
  {
  }

  lemma EmptyLoads()
    ensures S.Load(S.Serialize([])) == S.Loaded([])
  {
    C.EmptyFits();
    C.SavedTables([]);
  }

  lemma CommitRun(s: C.System, ts: Tables)
    requires s.process.Up? && s.process.op == C.Idle && C.CountersLeft(s.process.db)
    requires |Snapshot(ts)| <= MAX_LENGTH - HEADER
    ensures C.Run(s, C.CommitActions(ts))
         == C.System(s.sync, PersistedDisk(s.disk, s.sync, s.process.db.nextLsn, s.process.db.nextTxn, ts),
                     C.Up(C.Db(ts, s.process.db.nextLsn + 3, s.process.db.nextTxn + 1, false), C.Idle), ts)
  {
    hide S.Serialize, S.Fits, C.Run, Encode, Snapshot;
    var added := C.CommitRecords(s.process.db, ts);
    var d1 := C.Append(s.disk, added[0]);
    var d2 := C.Append(d1, added[1]);
    C.CommitSteps(s, ts, d1, d2, C.Append(d2, added[2]));
  }

  lemma ReadableData(s: C.System)
    ensures C.DiskInv(s.disk) ==> C.DataReadable(s.disk.data)
  {
    hide S.Load, Records, Log;
  }

  lemma OpenSteps(s: C.System)
    requires C.DiskInv(s.disk) && s.process.Down?
    ensures var base := C.DataTables(s.disk.data);
            var rs := Records(s.disk.wal);
            var r := ReplayAll(rs, base);
            && r.Replay? && r.largest < MAX64 && (rs != [] ==> Last(rs).lsn < MAX64)
            && Records(EncodeAll(rs)) == rs
            && C.Run(s, C.OPEN)
            == s.(disk := C.Disk(EncodeAll(rs), Min(s.disk.synced, |EncodeAll(rs)|),
                                 if r.recovered then Some(S.Serialize(r.tables))
                                 else if s.disk.data.None? then Some(S.Serialize([])) else s.disk.data),
                  process := C.Up(C.Db(r.tables, C.NextLsn(rs), r.largest + 1, false), C.Idle))
  {
    hide S.Serialize, S.Load, Records, EncodeAll, ReplayAll, C.Run, LastCommit, Log, C.TickOp, C.Survivor, C.CountersLeft,
         S.Fits;
    var rs := Records(s.disk.wal);
    EmptyLoads();
    RecordsAreAPrefix(s.disk.wal);
    ReadAllBack(rs);
    var base := C.DataTables(s.disk.data);
    ReplayOfLog(rs, base);
    LastBelow(rs);
    var s1 := C.Step(s, C.Open);
    var s2 := C.Step(s1, C.Tick);
    assert s2.process == C.Repairing(base) && s2.disk.wal == s.disk.wal;
    var s3 := C.Step(s2, C.Tick);
    assert s3.process == C.Replaying(base, C.NextLsn(rs)) && Records(s3.disk.wal) == rs;
    assert s3.disk == C.Disk(EncodeAll(rs), Min(s.disk.synced, |EncodeAll(rs)|), s2.disk.data);
    var r := ReplayAll(rs, base);
    var s4 := C.Step(s3, C.Tick);
    assert s4 == s3.(process := C.Saving(r.tables, C.NextLsn(rs), r.largest + 1, r.recovered));
    C.FiveSteps(s, C.Open);
  }

  lemma LastBelow(rs: seq<LogRecord>)
    requires Log(rs)
    ensures rs != [] ==> Last(rs).txn < MAX64 && Last(rs).lsn < MAX64
  {
  }
}
