/**
 * Commit, checkpoint, close, crash and restart as one machine over a disk and a process. Every step is one
 * disk or memory action, a crash may come between any two of them, and it may cut the log at any byte that
 * was not yet flushed. The theorem is about every run of the machine.
 */
module CrashSafety {
  import opened Bytes
  import opened OrderedMap
  import opened Values
  import opened Wal
  import opened Catalog
  import opened Recovery
  import S = Serialization

  // ---- The machine ----

  /** The log with its durable length, and the data file, which is replaced as a whole. */
  datatype Disk = Disk(wal: Bytes, synced: nat, data: Option<Bytes>)

  datatype Db = Db(tables: Tables, nextLsn: nat, nextTxn: nat, failed: bool)

  /** What an open database is about to do next. */
  datatype Op =
    | Idle
    | ToBegin
    | ToUpdate(txn: nat, begin: nat)
    | ToCommit(txn: nat, update: nat)
    | ToFlush
    | ToSave
    | ToCheckpoint
    | ToTruncate
    | ToClose

  datatype Process =
    | Down
    | Loading
    | Repairing(loaded: Tables)
    | Replaying(loaded: Tables, lsn: nat)
    | Saving(replayed: Tables, lsn: nat, txn: nat, recovered: bool)
    | Up(db: Db, op: Op)

  /** stable is a history variable: the tables every crash from here on recovers at least. */
  datatype System = System(sync: bool, disk: Disk, process: Process, stable: Tables)

  datatype Action =
    | Open
    | Commit(tables: Tables)
    | Checkpoint
    | Close
    | Refresh(tables: Tables)
    | Leave(tables: Tables)
    | Tick
    | Crash(at: nat)

  /** The tables an action brings into memory fit the data-file format. */
  predicate Fitting(a: Action) {
    a.Commit? || a.Refresh? || a.Leave? ==> S.Fits(a.tables)
  }

  ghost predicate AllFitting(actions: seq<Action>) {
    forall a :: a in actions ==> Fitting(a)
  }

  function Init(sync: bool): System {
    System(sync, Disk([], 0, None), Down, [])
  }

  function DataTables(data: Option<Bytes>): Tables {
    match data
    case None => []
    case Some(bytes) =>
      match S.Load(bytes) {
        case Loaded(ts) => ts
        case _ => []
      }
  }

  predicate DataReadable(data: Option<Bytes>) {
    data.Some? ==> S.Load(data.value).Loaded?
  }

  function Append(disk: Disk, r: LogRecord): Disk {
    disk.(wal := disk.wal + Encode(r))
  }

  function Save(disk: Disk, ts: Tables): Disk {
    disk.(data := Some(S.Serialize(ts)))
  }

  /** What a crash that leaves k bytes of log makes of the commit in progress. */
  function Survivor(s: System, k: nat): Tables {
    if s.process.Up? && (s.process.op == ToSave || (s.process.op == ToFlush && k == |s.disk.wal|))
    then s.process.db.tables
    else s.stable
  }

  /** The 64-bit counters have not run out: a commit takes three LSNs and one transaction id. */
  predicate CountersLeft(db: Db) {
    db.nextLsn + 3 <= MAX64 && db.nextTxn < MAX64
  }

  function Word(n: nat): U64 {
    n % 0x1_0000_0000_0000_0000
  }

  function TickOp(s: System): System
    requires s.process.Up?
  {
    var Up(db, op) := s.process;
    match op
    case Idle => s
    case ToBegin =>
      var r := LogRecord(Word(db.nextLsn), Word(db.nextTxn), 0, BEGIN, []);
      s.(disk := Append(s.disk, r),
         process := Up(db.(nextLsn := db.nextLsn + 1, nextTxn := db.nextTxn + 1), ToUpdate(db.nextTxn, db.nextLsn)))
    case ToUpdate(txn, begin) =>
      var r := LogRecord(Word(db.nextLsn), Word(txn), Word(begin), UPDATE, Snapshot(db.tables));
      if !Fits(r) then s.(process := Up(db.(failed := true), Idle))
      else
        s.(disk := Append(s.disk, r), process := Up(db.(nextLsn := db.nextLsn + 1), ToCommit(txn, db.nextLsn)))
    case ToCommit(txn, update) =>
      var r := LogRecord(Word(db.nextLsn), Word(txn), Word(update), COMMIT, []);
      s.(disk := Append(s.disk, r), process := Up(db.(nextLsn := db.nextLsn + 1), ToFlush))
    case ToFlush =>
      s.(disk := if s.sync then s.disk.(synced := |s.disk.wal|) else s.disk, process := Up(db, ToSave))
    case ToSave =>
      s.(disk := Save(s.disk, db.tables), process := Up(db.(failed := false), Idle), stable := db.tables)
    case ToCheckpoint =>
      s.(disk := Save(s.disk, db.tables), process := Up(db, ToTruncate), stable := Kept(s))
    case ToTruncate =>
      s.(disk := s.disk.(wal := [], synced := 0), process := Up(db.(nextLsn := 1, failed := false), Idle),
         stable := db.tables)
    case ToClose =>
      s.(disk := Save(s.disk, db.tables), process := Down, stable := Kept(s))
  }

  /** Writing the data file matters only when no COMMIT in the log will be replayed over it. */
  function Kept(s: System): Tables
    requires s.process.Up?
  {
    if LastCommit(Records(s.disk.wal)).Some? then s.stable else s.process.db.tables
  }

  function NextLsn(rs: seq<LogRecord>): nat {
    if rs == [] then 1 else Last(rs).lsn + 1
  }

  /**
   * One step. Refresh recomputes the catalog of the tables in memory, and Leave stands for a statement that fails
   * half way and leaves some of its rows in memory. A restart that fails still closes the database it was opening,
   * and so replaces the data file by what it had in memory.
   */
  function Step(s: System, a: Action): System {
    match a
    case Open => if s.process.Down? then s.(process := Loading) else s
    case Commit(ts) =>
      if s.process.Up? && s.process.op == Idle && CountersLeft(s.process.db) then
        s.(process := Up(s.process.db.(tables := ts), ToBegin))
      else s
    case Checkpoint =>
      if s.process.Up? && s.process.op == Idle then s.(process := s.process.(op := ToCheckpoint)) else s
    case Close =>
      if s.process.Up? && s.process.op == Idle then s.(process := s.process.(op := ToClose)) else s
    case Refresh(ts) =>
      if s.process.Up? && s.process.op == Idle && User(ts) == User(s.process.db.tables) then
        s.(process := s.process.(db := s.process.db.(tables := ts)))
      else s
    case Leave(ts) =>
      if s.process.Up? && s.process.op == Idle then
        s.(process := s.process.(db := s.process.db.(tables := ts, failed := true)))
      else s
    case Crash(k) =>
      if s.disk.synced <= k <= |s.disk.wal| then
        System(s.sync, Disk(s.disk.wal[..k], k, s.disk.data), Down, Survivor(s, k))
      else s
    case Tick =>
      match s.process
      case Down => s
      case Loading =>
        var disk := if s.disk.data.None? || !DataReadable(s.disk.data) then Save(s.disk, []) else s.disk;
        if DataReadable(s.disk.data) then s.(disk := disk, process := Repairing(DataTables(disk.data)))
        else s.(disk := disk, process := Down)
      case Repairing(ts) =>
        var rs := Records(s.disk.wal);
        s.(disk := s.disk.(wal := EncodeAll(rs), synced := Min(s.disk.synced, |EncodeAll(rs)|)),
           process := Replaying(ts, NextLsn(rs)))
      case Replaying(ts, lsn) =>
        var r := ReplayAll(Records(s.disk.wal), ts);
        if r.InvalidSnapshot? then s.(disk := Save(s.disk, r.left), process := Down)
        else s.(process := Saving(r.tables, lsn, r.largest + 1, r.recovered))
      case Saving(ts, lsn, txn, recovered) =>
        s.(disk := if recovered then Save(s.disk, ts) else s.disk, process := Up(Db(ts, lsn, txn, false), Idle))
      case Up(_, _) => TickOp(s)
  }

  function Run(s: System, actions: seq<Action>): System {
    if actions == [] then s else Step(Run(s, Front(actions)), Last(actions))
  }

  /** What a restart that is left in peace makes of a disk; it fails on unreadable data and unreadable snapshots. */
  function Reopened(disk: Disk): Replay {
    if DataReadable(disk.data) then ReplayAll(Records(disk.wal), DataTables(disk.data)) else InvalidSnapshot([])
  }

  // ---- The invariant ----

  /** The tables a log and a data file stand for. */
  function Standing(rs: seq<LogRecord>, data: Option<Bytes>): Tables {
    if LastCommit(rs).Some? then LastCommit(rs).value else DataTables(data)
  }

  /** How many records are durable. */
  function Durable(d: Disk): nat {
    Whole(Records(d.wal), d.synced)
  }

  ghost predicate DiskInv(d: Disk) {
    && d.synced <= |d.wal|
    && Log(Records(d.wal))
    && DataReadable(d.data)
  }

  /** No torn tail, and counters ahead of everything in the log. */
  ghost predicate Intact(d: Disk, lsn: nat) {
    && d.wal == EncodeAll(Records(d.wal))
    && NextLsn(Records(d.wal)) <= lsn
  }

  ghost predicate Settled(d: Disk, stable: Tables) {
    && NoCommitFrom(Records(d.wal), Durable(d))
    && Standing(Records(d.wal), d.data) == stable
  }

  /** Between processes the log may end in a torn record, but then a crash has left nothing more to lose. */
  ghost predicate AtRest(d: Disk, stable: Tables) {
    && Standing(Records(d.wal), d.data) == stable
    && (d.synced == |d.wal| || (Intact(d, NextLsn(Records(d.wal))) && NoCommitFrom(Records(d.wal), Durable(d))))
  }

  ghost predicate EndsWith(rs: seq<LogRecord>, kind: Byte, txn: nat) {
    rs != [] && Last(rs).kind == kind && Last(rs).txn == txn
  }

  ghost predicate OpInv(d: Disk, db: Db, op: Op, stable: Tables) {
    var rs := Records(d.wal);
    match op
    case ToBegin => CountersLeft(db) && Settled(d, stable)
    case ToUpdate(txn, _) => db.nextLsn + 2 <= MAX64 && EndsWith(rs, BEGIN, txn) && Settled(d, stable)
    case ToCommit(txn, _) =>
      && db.nextLsn + 1 <= MAX64 && EndsWith(rs, UPDATE, txn) && Last(rs).payload == Snapshot(db.tables)
      && Settled(d, stable)
    case ToFlush =>
      && rs != [] && Last(rs).kind == COMMIT && Durable(d) < |rs|
      && NoCommitFrom(Front(rs), Durable(d))
      && Standing(Front(rs), d.data) == stable
      && LastCommit(rs) == Some(db.tables)
    case ToSave => d.synced == |d.wal| && LastCommit(rs) == Some(db.tables)
    case ToTruncate => Settled(d, stable) && d.data == Some(S.Serialize(db.tables))
    case _ => Settled(d, stable)
  }

  ghost predicate UpInv(d: Disk, db: Db, op: Op, stable: Tables) {
    && S.Fits(db.tables)
    && Intact(d, db.nextLsn)
    && (Records(d.wal) != [] ==> Last(Records(d.wal)).txn < db.nextTxn)
    && OpInv(d, db, op, stable)
    && ((op == Idle || op == ToCheckpoint || op == ToClose || op == ToTruncate) && !db.failed ==> Same(db.tables, stable))
  }

  ghost predicate ProcessInv(d: Disk, p: Process, stable: Tables) {
    match p
    case Down => AtRest(d, stable)
    case Loading => AtRest(d, stable)
    case Repairing(ts) => AtRest(d, stable) && d.data.Some? && ts == DataTables(d.data)
    case Replaying(ts, lsn) => Settled(d, stable) && d.data.Some? && ts == DataTables(d.data) && Intact(d, lsn)
    case Saving(ts, lsn, txn, recovered) =>
      && Settled(d, stable)
      && S.Fits(ts) && ts == Standing(Records(d.wal), d.data)
      && Intact(d, lsn)
      && (Records(d.wal) != [] ==> Last(Records(d.wal)).txn < txn)
      && recovered == LastCommit(Records(d.wal)).Some?
    case Up(db, op) => UpInv(d, db, op, stable)
  }

  ghost predicate Inv(s: System) {
    s.sync && DiskInv(s.disk) && ProcessInv(s.disk, s.process, s.stable)
  }

  // ---- What a log shows after a cut ----

  lemma CutRecords(wal: Bytes, k: nat)
    requires wal == EncodeAll(Records(wal)) && k <= |wal|
    ensures Records(wal[..k]) == Records(wal)[..Whole(Records(wal), k)]
  {
    hide Records, EncodeAll;
    RecordsAreAPrefix(wal);
    CutAnywhere(Records(wal), k);
  }

  lemma {:induction false} WholeMonotonic(rs: seq<LogRecord>, j: nat, k: nat)
    requires j <= k
    ensures Whole(rs, j) <= Whole(rs, k)
    decreases rs
  {
    hide Encode;
    if rs != [] && j >= |Encode(rs[0])| {
      WholeMonotonic(rs[1..], j - |Encode(rs[0])|, k - |Encode(rs[0])|);
    }
  }

  lemma CutSettled(d: Disk, k: nat, lsn: nat)
    requires DiskInv(d) && Intact(d, lsn) && d.synced <= k <= |d.wal|
    requires NoCommitFrom(Records(d.wal), Durable(d))
    ensures Log(Records(d.wal[..k]))
    ensures LastCommit(Records(d.wal[..k])) == LastCommit(Records(d.wal))
  {
    hide Records, EncodeAll, Log, LastCommit, Whole;
    var rs := Records(d.wal);
    var n := Whole(rs, k);
    CutRecords(d.wal, k);
    WholeMonotonic(rs, d.synced, k);
    LogPrefix(rs, n);
    LastCommitStable(rs, n);
  }

  /** Cutting anywhere before the end of an unflushed COMMIT loses exactly that commit. */
  lemma CutUnflushed(d: Disk, k: nat, lsn: nat)
    requires DiskInv(d) && Intact(d, lsn) && d.synced <= k < |d.wal|
    requires Records(d.wal) != [] && Durable(d) < |Records(d.wal)|
    requires NoCommitFrom(Front(Records(d.wal)), Durable(d))
    ensures Log(Records(d.wal[..k]))
    ensures LastCommit(Records(d.wal[..k])) == LastCommit(Front(Records(d.wal)))
  {
    hide Records, EncodeAll, Log, LastCommit, Whole;
    var rs := Records(d.wal);
    var n := Whole(rs, k);
    CutRecords(d.wal, k);
    WholeMonotonic(rs, d.synced, k);
    WholeIsExact(rs, k);
    assert rs[..|rs|] == rs;
    LogPrefix(rs, n);
    assert Front(rs)[..n] == rs[..n];
    LastCommitStable(Front(rs), n);
  }

  lemma WholeOfWal(wal: Bytes)
    requires wal == EncodeAll(Records(wal))
    ensures Whole(Records(wal), |wal|) == |Records(wal)|
  {
    hide Records, EncodeAll;
    WholeOfAll(Records(wal));
  }

  /** A crash in any phase recovers exactly the survivor. */
  lemma CutValue(s: System, k: nat)
    requires Inv(s) && s.disk.synced <= k <= |s.disk.wal|
    ensures var rs := Records(s.disk.wal[..k]);
            Log(rs) && Standing(rs, s.disk.data) == Survivor(s, k)
  {
    hide Records, EncodeAll, Log, LastCommit, Whole, User, DataTables, Snapshot, S.Fits, S.Load, S.Serialize;
    var d := s.disk;
    assert d.wal[..|d.wal|] == d.wal;
    if s.process.Up? {
      var Up(db, op) := s.process;
      if op == ToFlush {
        if k < |d.wal| {
          CutUnflushed(d, k, db.nextLsn);
        }
      } else if op != ToSave {
        CutSettled(d, k, db.nextLsn);
      }
    } else if k < |d.wal| {
      CutSettled(d, k, NextLsn(Records(d.wal)));
    }
  }

  // ---- Every step keeps the invariant ----

  lemma {:induction false} WholeAppend(rs: seq<LogRecord>, r: LogRecord, k: nat)
    requires k <= |EncodeAll(rs)|
    ensures Whole(rs + [r], k) == Whole(rs, k)
    decreases rs
  {
    hide Encode;
    if rs == [] {
      assert rs + [r] == [r];
    } else {
      assert (rs + [r])[1..] == rs[1..] + [r];
      if k >= |Encode(rs[0])| {
        WholeAppend(rs[1..], r, k - |Encode(rs[0])|);
      }
    }
  }

  lemma AppendIntact(d: Disk, r: LogRecord, lsn: nat)
    requires d.synced <= |d.wal| && Intact(d, lsn) && Fits(r) && r.lsn == lsn
    ensures var d' := Append(d, r);
            && Records(d'.wal) == Records(d.wal) + [r]
            && d'.synced <= |d'.wal| && Intact(d', lsn + 1)
            && Durable(d') == Durable(d)
  {
    hide Records, EncodeAll, Whole, Encode, Fits;
    var rs := Records(d.wal);
    AppendsAfterRepairReadable(d.wal, [r]);
    EncodeAllAppend(rs, [r]);
    EncodeOne(r);
    WholeAppend(rs, r, d.synced);
  }

  lemma AppendRecord(d: Disk, r: LogRecord, lsn: nat)
    requires DiskInv(d) && Intact(d, lsn)
    requires Follows(Records(d.wal), r) && r.lsn == lsn
    ensures var d' := Append(d, r);
            && Records(d'.wal) == Records(d.wal) + [r]
            && DiskInv(d') && Intact(d', lsn + 1)
            && Durable(d') == Durable(d)
  {
    hide Records, EncodeAll, Log, Whole, Encode, Fits, Intact;
    FollowsFits(Records(d.wal), r);
    AppendIntact(d, r, lsn);
    LogSnoc(Records(d.wal), r);
  }

  lemma EncodeOne(r: LogRecord)
    ensures EncodeAll([r]) == Encode(r)
  {
    hide Encode;
    assert [r][1..] == [];
  }

  lemma LogSnoc(rs: seq<LogRecord>, r: LogRecord)
    requires Log(rs) && Follows(rs, r)
    ensures Log(rs + [r])
  {
    hide Follows;
    assert Front(rs + [r]) == rs && Last(rs + [r]) == r;
  }

  lemma LastCommitSnoc(rs: seq<LogRecord>, r: LogRecord)
    ensures r.kind != COMMIT ==> LastCommit(rs + [r]) == LastCommit(rs)
    ensures r.kind == COMMIT && rs != [] ==> LastCommit(rs + [r]) == Some(Carried(Last(rs)))
  {
    hide Carried;
    assert Front(rs + [r]) == rs && Last(rs + [r]) == r;
  }

  lemma LastInRange(rs: seq<LogRecord>)
    requires Log(rs) && rs != []
    ensures Last(rs).txn < MAX64
  {
  }

  lemma FittingTables(bytes: Bytes)
    requires S.Load(bytes).Loaded?
    ensures S.Fits(S.Load(bytes).tables)
  {
    S.LoadedFits(bytes);
  }

  lemma SavedTables(ts: Tables)
    requires S.Fits(ts)
    ensures S.Load(S.Serialize(ts)) == S.Loaded(ts)
    ensures DataTables(Some(S.Serialize(ts))) == ts
  {
    hide S.Fits, S.Load, S.Serialize;
    S.RoundTrip(ts);
  }

  lemma EmptyFits()
    ensures S.Fits([])
  {
  }

  lemma TickBegin(s: System)
    requires Inv(s) && s.process.Up? && s.process.op == ToBegin
    ensures Inv(Step(s, Tick))
  {
    hide Records, EncodeAll, Log, LastCommit, Whole, User, DataTables, Snapshot, S.Fits, S.Load, S.Serialize, Encode;
    var db := s.process.db;
    var r := LogRecord(Word(db.nextLsn), Word(db.nextTxn), 0, BEGIN, []);
    var rs := Records(s.disk.wal);
    AppendRecord(s.disk, r, db.nextLsn);
    LastCommitSnoc(rs, r);
    assert Last(rs + [r]) == r;
  }

  lemma TickUpdate(s: System)
    requires Inv(s) && s.process.Up? && s.process.op.ToUpdate?
    ensures Inv(Step(s, Tick))
  {
    hide Records, EncodeAll, Log, LastCommit, Whole, User, DataTables, Snapshot, S.Fits, S.Load, S.Serialize, Encode;
    var db := s.process.db;
    var r := LogRecord(Word(db.nextLsn), Word(s.process.op.txn), Word(s.process.op.begin), UPDATE, Snapshot(db.tables));
    if Fits(r) {
      var rs := Records(s.disk.wal);
      assert IsSnapshot(r.payload, db.tables);
      LastInRange(rs);
      AppendRecord(s.disk, r, db.nextLsn);
      LastCommitSnoc(rs, r);
      assert Last(rs + [r]) == r;
    }
  }

  lemma TickCommit(s: System)
    requires Inv(s) && s.process.Up? && s.process.op.ToCommit?
    ensures Inv(Step(s, Tick))
  {
    hide Records, EncodeAll, Log, LastCommit, Whole, User, DataTables, Snapshot, S.Fits, S.Load, S.Serialize, Encode,
         Carried;
    var db := s.process.db;
    var r := LogRecord(Word(db.nextLsn), Word(s.process.op.txn), Word(s.process.op.update), COMMIT, []);
    var rs := Records(s.disk.wal);
    LastInRange(rs);
    AppendRecord(s.disk, r, db.nextLsn);
    LastCommitSnoc(rs, r);
    CarriedIs(Last(rs), db.tables);
    assert Front(rs + [r]) == rs && Last(rs + [r]) == r;
  }

  lemma TickFlush(s: System)
    requires Inv(s) && s.process.Up? && s.process.op == ToFlush
    ensures Inv(Step(s, Tick))
  {
    hide Records, EncodeAll, Log, LastCommit, Whole, User, DataTables, S.Fits, S.Load, S.Serialize;
  }

  /** The commit is acknowledged here: its tables are what every later crash recovers at least. */
  lemma TickSave(s: System)
    requires Inv(s) && s.process.Up? && s.process.op == ToSave
    ensures Inv(Step(s, Tick))
  {
    hide Records, EncodeAll, Log, LastCommit, Whole, User, DataTables, S.Fits, S.Load, S.Serialize;
    SavedTables(s.process.db.tables);
    WholeOfWal(s.disk.wal);
  }

  lemma TickCheckpoint(s: System)
    requires Inv(s) && s.process.Up? && (s.process.op == ToCheckpoint || s.process.op == ToClose)
    ensures Inv(Step(s, Tick))
  {
    hide Records, EncodeAll, Log, LastCommit, Whole, User, DataTables, S.Fits, S.Load, S.Serialize;
    SavedTables(s.process.db.tables);
  }

  lemma EmptyLog()
    ensures Records([]) == [] && EncodeAll([]) == [] && Log([]) && LastCommit([]).None? && Whole([], 0) == 0
  {
    NothingInNothing();
  }

  lemma TickTruncate(s: System)
    requires Inv(s) && s.process.Up? && s.process.op == ToTruncate
    ensures Inv(Step(s, Tick))
  {
    hide Records, EncodeAll, Log, LastCommit, Whole, User, DataTables, S.Fits, S.Load, S.Serialize;
    SavedTables(s.process.db.tables);
    EmptyLog();
  }

  lemma TickLoading(s: System)
    requires Inv(s) && s.process.Loading?
    ensures Inv(Step(s, Tick))
  {
    hide Records, EncodeAll, Log, LastCommit, Whole, User, S.Fits, S.Load, S.Serialize;
    EmptyFits();
    SavedTables([]);
  }

  lemma TickRepairing(s: System)
    requires Inv(s) && s.process.Repairing?
    ensures Inv(Step(s, Tick))
  {
    hide Records, EncodeAll, Log, LastCommit, Whole, User, DataTables, S.Fits, S.Load, S.Serialize;
    var d, rs := s.disk, Records(s.disk.wal);
    RecordsAreAPrefix(d.wal);
    ReadAllBack(rs);
    WholeOfAll(rs);
    if d.synced >= |EncodeAll(rs)| {
      WholeOfWal(EncodeAll(rs));
    }
  }

  lemma CommittedFits(rs: seq<LogRecord>)
    requires Log(rs) && LastCommit(rs).Some?
    ensures S.Fits(LastCommit(rs).value)
    decreases rs
  {
    hide S.Fits, S.Load, S.Serialize, Fits, Carried;
    if Last(rs).kind == COMMIT {
      var u := Last(Front(rs));
      assert Log(Front(rs)) && Follows(Front(Front(rs)), u);
      var ts :| IsSnapshot(u.payload, ts);
      CarriedIs(u, ts);
    } else {
      CommittedFits(Front(rs));
    }
  }

  lemma TickReplaying(s: System)
    requires Inv(s) && s.process.Replaying?
    ensures Inv(Step(s, Tick))
  {
    hide Records, EncodeAll, Log, LastCommit, Whole, User, S.Fits, S.Load, S.Serialize, ReplayAll;
    var rs := Records(s.disk.wal);
    ReplayOfLog(rs, s.process.loaded);
    if LastCommit(rs).Some? {
      CommittedFits(rs);
    } else {
      FittingTables(s.disk.data.value);
    }
  }

  lemma TickSaving(s: System)
    requires Inv(s) && s.process.Saving?
    ensures Inv(Step(s, Tick))
  {
    hide Records, EncodeAll, Log, LastCommit, Whole, User, DataTables, S.Fits, S.Load, S.Serialize;
    SavedTables(s.process.replayed);
    WholeOfWal(s.disk.wal);
  }

  lemma CrashKeeps(s: System, k: nat)
    requires Inv(s)
    ensures Inv(Step(s, Crash(k)))
  {
    hide Records, EncodeAll, Log, LastCommit, Whole, User, DataTables, S.Fits, S.Load, S.Serialize, ProcessInv;
    if s.disk.synced <= k <= |s.disk.wal| {
      CutValue(s, k);
      DownInv(Step(s, Crash(k)));
    }
  }

  lemma DownInv(s: System)
    requires s.process.Down? && s.disk.synced == |s.disk.wal|
    requires Standing(Records(s.disk.wal), s.disk.data) == s.stable
    ensures ProcessInv(s.disk, s.process, s.stable)
  {
  }

  lemma StepKeeps(s: System, a: Action)
    requires Inv(s) && Fitting(a)
    ensures Inv(Step(s, a))
  {
    hide Records, EncodeAll, Log, LastCommit, Whole, User, DataTables, S.Fits, S.Load, S.Serialize;
    match a
    case Crash(k) => CrashKeeps(s, k);
    case Tick =>
      match s.process {
        case Down =>
        case Loading => TickLoading(s);
        case Repairing(_) => TickRepairing(s);
        case Replaying(_, _) => TickReplaying(s);
        case Saving(_, _, _, _) => TickSaving(s);
        case Up(_, op) =>
          match op {
            case Idle =>
            case ToBegin => TickBegin(s);
            case ToUpdate(_, _) => TickUpdate(s);
            case ToCommit(_, _) => TickCommit(s);
            case ToFlush => TickFlush(s);
            case ToSave => TickSave(s);
            case ToCheckpoint => TickCheckpoint(s);
            case ToTruncate => TickTruncate(s);
            case ToClose => TickCheckpoint(s);
          }
      }
    case _ =>
  }

  // ---- Every run ----

  lemma InitInv()
    ensures Inv(Init(true))
  {
    hide Records, EncodeAll, Log, LastCommit, Whole;
    EmptyLog();
  }

  lemma {:induction false} RunKeeps(s: System, actions: seq<Action>)
    requires Inv(s) && AllFitting(actions)
    ensures Inv(Run(s, actions))
    decreases actions
  {
    hide Inv, Step, Fitting;
    if actions != [] {
      RunKeeps(s, Front(actions));
      StepKeeps(Run(s, Front(actions)), Last(actions));
    }
  }

  function Cut(d: Disk, k: nat): Disk
    requires k <= |d.wal|
  {
    Disk(d.wal[..k], k, d.data)
  }

  /** A crash that leaves k bytes of log recovers the survivor, and it is the last commit left or the data file. */
  ghost predicate CrashSafe(s: System, k: nat) {
    s.disk.synced <= k <= |s.disk.wal| ==>
      var d := Cut(s.disk, k);
      && Reopened(d).Replay?
      && Reopened(d).tables == Standing(Records(d.wal), d.data)
      && Reopened(d).tables == Survivor(s, k)
  }

  lemma InvIsCrashSafe(s: System, k: nat)
    requires Inv(s)
    ensures CrashSafe(s, k)
  {
    hide Records, EncodeAll, Log, LastCommit, Whole, User, DataTables, S.Fits, S.Load, S.Serialize, ProcessInv, ReplayAll;
    if s.disk.synced <= k <= |s.disk.wal| {
      CutValue(s, k);
      ReplayOfLog(Records(s.disk.wal[..k]), DataTables(s.disk.data));
    }
  }

  /**
   * With sync_on_commit, every run of commits, failing statements, checkpoints, crashes and restarts whose tables fit
   * the format is safe at every cut.
   */
  lemma EveryRunIsSafe(actions: seq<Action>, k: nat)
    requires AllFitting(actions)
    ensures Inv(Run(Init(true), actions))
    ensures CrashSafe(Run(Init(true), actions), k)
  {
    hide Inv, CrashSafe, Run, AllFitting;
    InitInv();
    RunKeeps(Init(true), actions);
    InvIsCrashSafe(Run(Init(true), actions), k);
  }

  lemma RunOne(s: System, actions: seq<Action>, a: Action)
    ensures Run(s, actions + [a]) == Step(Run(s, actions), a)
  {
    assert Front(actions + [a]) == actions;
  }

  lemma RunNone(s: System)
    ensures Run(s, []) == s
  {
  }

  /** A restart left in peace ends with an open database that holds the stable tables. */
  lemma RestartCompletes(s: System)
    requires Inv(s) && s.process.Down?
    ensures var s' := Run(s, [Open, Tick, Tick, Tick, Tick]);
            && s'.process.Up? && s'.process.op == Idle
            && Reopened(s.disk).Replay? && s'.process.db.tables == Reopened(s.disk).tables
            && s'.process.db.tables == s.stable
  {
    hide Records, EncodeAll, Log, LastCommit, Whole, User, S.Fits, S.Load, S.Serialize, ReplayAll, Run;
    var s1 := Step(s, Open);
    var s2 := Step(s1, Tick);
    var s3 := Step(s2, Tick);
    var s4 := Step(s3, Tick);
    var s5 := Step(s4, Tick);
    assert s5 == Run(s, [Open, Tick, Tick, Tick, Tick]) by { FiveSteps(s, Open); }
    EmptyFits();
    SavedTables([]);
    RecordsAreAPrefix(s.disk.wal);
    ReadAllBack(Records(s.disk.wal));
    assert s3.disk.data == s2.disk.data && DataTables(s2.disk.data) == DataTables(s.disk.data);
    ReplayOfLog(Records(s.disk.wal), DataTables(s.disk.data));
  }

  lemma FiveSteps(s: System, a: Action)
    ensures Run(s, [a, Tick, Tick, Tick, Tick]) == Step(Step(Step(Step(Step(s, a), Tick), Tick), Tick), Tick)
  {
    hide Step;
    RunOne(s, [], a);
    RunOne(s, [a], Tick);
    RunOne(s, [a, Tick], Tick);
    RunOne(s, [a, Tick, Tick], Tick);
    RunOne(s, [a, Tick, Tick, Tick], Tick);
    assert [] + [a] == [a];
    assert [a] + [Tick] == [a, Tick];
    assert [a, Tick] + [Tick] == [a, Tick, Tick];
    assert [a, Tick, Tick] + [Tick] == [a, Tick, Tick, Tick];
    assert [a, Tick, Tick, Tick] + [Tick] == [a, Tick, Tick, Tick, Tick];
  }

  // ---- Acknowledged commits ----

  /** No commit is under way, and none has failed since the last restart, commit or checkpoint. */
  ghost predicate Calm(s: System) {
    s.process.Up? ==>
      && !s.process.db.failed
      && (s.process.op == Idle || s.process.op == ToCheckpoint || s.process.op == ToTruncate || s.process.op == ToClose)
  }

  lemma CalmStep(s: System, a: Action)
    requires Inv(s) && Calm(s) && !a.Commit? && !a.Leave?
    ensures Calm(Step(s, a)) && Same(Step(s, a).stable, s.stable)
  {
    hide Records, EncodeAll, Log, LastCommit, Whole, User, DataTables, S.Fits, S.Load, S.Serialize, ReplayAll;
  }

  /** What was acknowledged stays recoverable through any run until another commit is tried. */
  lemma {:induction false} AcknowledgedStays(s: System, actions: seq<Action>)
    requires Inv(s) && Calm(s)
    requires AllFitting(actions) && forall a :: a in actions ==> !a.Commit? && !a.Leave?
    ensures Calm(Run(s, actions)) && Same(Run(s, actions).stable, s.stable)
    decreases actions
  {
    hide Inv, Step, User, Calm, Fitting;
    if actions != [] {
      AcknowledgedStays(s, Front(actions));
      RunKeeps(s, Front(actions));
      CalmStep(Run(s, Front(actions)), Last(actions));
    }
  }

  /**
   * From a database that is down or restarting, any number of crashes, restarts and checkpoints, finished or
   * not, and then a crash at any cut, recover the same user tables that a restart would have recovered at once.
   */
  lemma RecoveryIsIdempotent(s: System, actions: seq<Action>, k: nat)
    requires Inv(s) && !s.process.Up?
    requires AllFitting(actions) && forall a :: a in actions ==> !a.Commit? && !a.Leave?
    ensures var d := Run(s, actions).disk;
            d.synced <= k <= |d.wal| ==>
              && Reopened(s.disk).Replay? && Reopened(Cut(d, k)).Replay?
              && Same(Reopened(Cut(d, k)).tables, Reopened(s.disk).tables)
  {
    hide Inv, Run, User, Records, ReplayAll, DataTables, Standing;
    var s' := Run(s, actions);
    AcknowledgedStays(s, actions);
    RunKeeps(s, actions);
    InvIsCrashSafe(s', k);
    assert s.disk.synced <= |s.disk.wal| by { DurableWithin(s); }
    InvIsCrashSafe(s, |s.disk.wal|);
    assert s.disk.wal[..|s.disk.wal|] == s.disk.wal;
  }

  lemma DurableWithin(s: System)
    requires Inv(s)
    ensures s.disk.synced <= |s.disk.wal|
  {
  }

  /** Ready for a commit, whatever the sync option: what CommitCompletes needs of its start. */
  ghost predicate Ready(s: System) {
    && s.process.Up? && s.process.op == Idle
    && DiskInv(s.disk) && Intact(s.disk, s.process.db.nextLsn)
    && (Records(s.disk.wal) != [] ==> Last(Records(s.disk.wal)).txn < s.process.db.nextTxn)
    && CountersLeft(s.process.db)
  }

  function CommitRecords(db: Db, ts: Tables): seq<LogRecord> {
    [LogRecord(Word(db.nextLsn), Word(db.nextTxn), 0, BEGIN, []),
     LogRecord(Word(db.nextLsn + 1), Word(db.nextTxn), Word(db.nextLsn), UPDATE, Snapshot(ts)),
     LogRecord(Word(db.nextLsn + 2), Word(db.nextTxn), Word(db.nextLsn + 1), COMMIT, [])]
  }

  /** The log can take the tables in one record. */
  ghost predicate Loggable(ts: Tables) {
    |Snapshot(ts)| <= MAX_LENGTH - HEADER
  }

  ghost predicate Committable(ts: Tables) {
    S.Fits(ts) && Loggable(ts)
  }

  /** A commit left in peace is logged, saved and acknowledged; the log then ends in its COMMIT. */
  lemma CommitCompletes(s: System, ts: Tables)
    requires Ready(s) && Committable(ts)
    ensures var s' := Run(s, [Commit(ts), Tick, Tick, Tick, Tick, Tick]);
            && s'.process.Up? && s'.process.op == Idle && s'.sync == s.sync
            && s'.process.db == Db(ts, s.process.db.nextLsn + 3, s.process.db.nextTxn + 1, false)
            && s'.disk == Disk(s.disk.wal + EncodeAll(CommitRecords(s.process.db, ts)),
                               if s.sync then |s'.disk.wal| else s.disk.synced, Some(S.Serialize(ts)))
            && s'.stable == ts
            && DiskInv(s'.disk) && Intact(s'.disk, s'.process.db.nextLsn)
            && Records(s'.disk.wal) == Records(s.disk.wal) + CommitRecords(s.process.db, ts)
            && LastCommit(Records(s'.disk.wal)) == Some(ts)
  {
    hide Records, EncodeAll, Log, LastCommit, Whole, User, DataTables, S.Fits, S.Load, S.Serialize, Encode, Run, Carried,
         Snapshot;
    var db := s.process.db;
    var rs, added := Records(s.disk.wal), CommitRecords(db, ts);
    var d1 := Append(s.disk, added[0]);
    var d2 := Append(d1, added[1]);
    var d3 := Append(d2, added[2]);
    AppendRecord(s.disk, added[0], db.nextLsn);
    assert Last(rs + [added[0]]) == added[0];
    assert IsSnapshot(added[1].payload, ts);
    AppendRecord(d1, added[1], db.nextLsn + 1);
    assert Last(rs + [added[0]] + [added[1]]) == added[1];
    AppendRecord(d2, added[2], db.nextLsn + 2);
    LastCommitSnoc(rs + [added[0]] + [added[1]], added[2]);
    CarriedIs(added[1], ts);
    SavedTables(ts);
    assert rs + [added[0]] + [added[1]] + [added[2]] == rs + added;
    EncodeThree(added[0], added[1], added[2]);
    assert d3.wal == s.disk.wal + EncodeAll(added);
    CommitSteps(s, ts, d1, d2, d3);
  }

  lemma EncodeThree(a: LogRecord, b: LogRecord, c: LogRecord)
    ensures EncodeAll([a, b, c]) == Encode(a) + Encode(b) + Encode(c)
  {
    hide Encode, EncodeAll;
    EncodeAllAppend([a, b], [c]);
    EncodeAllAppend([a], [b]);
    assert [a, b] + [c] == [a, b, c] && [a] + [b] == [a, b];
    EncodeOne(a);
    EncodeOne(b);
    EncodeOne(c);
  }

  lemma CommitSteps(s: System, ts: Tables, d1: Disk, d2: Disk, d3: Disk)
    requires s.process.Up? && s.process.op == Idle && CountersLeft(s.process.db) && Loggable(ts)
    requires d1 == Append(s.disk, CommitRecords(s.process.db, ts)[0])
    requires d2 == Append(d1, CommitRecords(s.process.db, ts)[1])
    requires d3 == Append(d2, CommitRecords(s.process.db, ts)[2])
    ensures Run(s, [Commit(ts), Tick, Tick, Tick, Tick, Tick])
         == System(s.sync, Disk(d3.wal, if s.sync then |d3.wal| else s.disk.synced, Some(S.Serialize(ts))),
                   Up(Db(ts, s.process.db.nextLsn + 3, s.process.db.nextTxn + 1, false), Idle), ts)
  {
    hide Records, EncodeAll, LastCommit, S.Fits, S.Load, S.Serialize, Encode, Run, Snapshot, Word, DataTables, ReplayAll,
         User, Survivor, Kept, NextLsn, DataReadable;
    var db := s.process.db.(tables := ts);
    var s1 := Step(s, Commit(ts));
    assert s1 == s.(process := Up(db, ToBegin));
    var s2 := Step(s1, Tick);
    assert s2 == System(s.sync, d1, Up(db.(nextLsn := db.nextLsn + 1, nextTxn := db.nextTxn + 1),
                                       ToUpdate(db.nextTxn, db.nextLsn)), s.stable);
    var s3 := Step(s2, Tick);
    assert s3 == System(s.sync, d2, Up(db.(nextLsn := db.nextLsn + 2, nextTxn := db.nextTxn + 1),
                                       ToCommit(db.nextTxn, db.nextLsn + 1)), s.stable);
    var s4 := Step(s3, Tick);
    assert s4 == System(s.sync, d3, Up(db.(nextLsn := db.nextLsn + 3, nextTxn := db.nextTxn + 1), ToFlush), s.stable);
    SixSteps(s, Commit(ts));
  }

  lemma SixSteps(s: System, a: Action)
    ensures Run(s, [a, Tick, Tick, Tick, Tick, Tick])
         == Step(Step(Step(Step(Step(Step(s, a), Tick), Tick), Tick), Tick), Tick)
  {
    hide Step, Run;
    FiveSteps(s, a);
    RunOne(s, [a, Tick, Tick, Tick, Tick], Tick);
    assert [a, Tick, Tick, Tick, Tick] + [Tick] == [a, Tick, Tick, Tick, Tick, Tick];
  }

  // ---- Without sync_on_commit ----

  lemma OpenEmpty(sync: bool)
    ensures var s := Run(Init(sync), [Open, Tick, Tick, Tick, Tick]);
            && s == System(sync, Disk([], 0, Some(S.Serialize([]))), Up(Db([], 1, 1, false), Idle), [])
            && Ready(s)
  {
    hide S.Serialize, S.Load, S.Fits, Run;
    FiveSteps(Init(sync), Open);
    EmptyFits();
    SavedTables([]);
    NothingInNothing();
    assert Records([]) == [];
  }

  const OPEN: seq<Action> := [Open, Tick, Tick, Tick, Tick]

  function CommitActions(ts: Tables): seq<Action> {
    [Commit(ts), Tick, Tick, Tick, Tick, Tick]
  }

  lemma {:induction false} RunAppend(s: System, a: seq<Action>, b: seq<Action>)
    ensures Run(s, a + b) == Run(Run(s, a), b)
    decreases b
  {
    hide Step;
    if b == [] {
      assert a + b == a;
    } else {
      assert Front(a + b) == a + Front(b) && Last(a + b) == Last(b);
      RunAppend(s, a, Front(b));
    }
  }

  /** Without it, two commits are acknowledged, and a crash that cuts the log between them brings back the first. */
  lemma UnsyncedLosesCommit(a: Tables, b: Tables)
    requires Committable(a) && Committable(b)
    ensures var first := Run(Init(false), OPEN + CommitActions(a));
            var both := Run(Init(false), OPEN + CommitActions(a) + CommitActions(b));
            var k := |first.disk.wal|;
            && first.stable == a && both.stable == b && both.process.Up? && both.process.op == Idle
            && both.disk.synced <= k <= |both.disk.wal|
            && Reopened(Cut(both.disk, k)).Replay? && Reopened(Cut(both.disk, k)).tables == a
  {
    hide Records, EncodeAll, Log, LastCommit, Whole, User, DataTables, S.Fits, S.Load, S.Serialize, Run, ReplayAll,
         Snapshot, Step, Committable;
    OpenEmpty(false);
    var s0 := Run(Init(false), OPEN);
    CommitCompletes(s0, a);
    var s1 := Run(s0, CommitActions(a));
    assert Records(s0.disk.wal) == [] by { NothingRead(); }
    assert Ready(s1);
    CommitCompletes(s1, b);
    var s2 := Run(s1, CommitActions(b));
    RunAppend(Init(false), OPEN, CommitActions(a));
    RunAppend(Init(false), OPEN + CommitActions(a), CommitActions(b));
    var k := |s1.disk.wal|;
    assert s2.disk.wal[..k] == s1.disk.wal;
    ReplayOfLog(Records(s1.disk.wal), DataTables(s2.disk.data));
  }

  lemma NothingRead()
    ensures Records([]) == []
  {
    NothingInNothing();
  }

  /** An empty table named t. */
  const SAMPLE: Tables := [([116], Table([], []))]

  lemma SamplesDiffer()
    ensures Committable([]) && Committable(SAMPLE) && SAMPLE != [] && S.Fits([]) && S.Fits(SAMPLE)
  {
    assert Lower([116]) == [116];
    assert S.Fits(SAMPLE);
    assert |S.PutTables([])| == 0 && |S.Serialize([])| == 25;
    assert S.PutTables(SAMPLE[1..]) == [] && |S.PutTables(SAMPLE)| == 13;
    assert |S.Serialize(SAMPLE)| == 38;
  }

  // ---- Tables outside the format ----

  lemma RunTwo(s: System, a: Action)
    ensures Run(s, [a, Tick, Tick]) == Step(Step(Step(s, a), Tick), Tick)
  {
    hide Step, Run;
    RunNone(s);
    RunOne(s, [], a);
    RunOne(s, [a], Tick);
    RunOne(s, [a, Tick], Tick);
    assert [] + [a] == [a] && [a] + [Tick] == [a, Tick] && [a, Tick] + [Tick] == [a, Tick, Tick];
  }

  /** A commit too large for one record fails after its BEGIN, and its tables stay in memory. */
  lemma TooBigSteps(s: System, ts: Tables)
    requires s.process.Up? && s.process.op == Idle && CountersLeft(s.process.db) && !Loggable(ts)
    ensures Run(s, [Commit(ts), Tick, Tick])
         == s.(disk := Append(s.disk, LogRecord(s.process.db.nextLsn, s.process.db.nextTxn, 0, BEGIN, [])),
               process := Up(Db(ts, s.process.db.nextLsn + 1, s.process.db.nextTxn + 1, true), Idle))
  {
    hide S.Serialize, S.Fits, S.Load, Encode, Run, Snapshot, Records, EncodeAll, DataTables, ReplayAll, Survivor, Kept, NextLsn,
         User, Append, LastCommit, DataReadable;
    var db := s.process.db.(tables := ts);
    var s1 := Step(s, Commit(ts));
    assert s1 == s.(process := Up(db, ToBegin));
    var s2 := Step(s1, Tick);
    assert s2.process == Up(db.(nextLsn := db.nextLsn + 1, nextTxn := db.nextTxn + 1), ToUpdate(db.nextTxn, db.nextLsn));
    RunTwo(s, Commit(ts));
  }

  lemma CheckpointSteps(s: System)
    requires s.process.Up? && s.process.op == Idle
    ensures Run(s, [Checkpoint, Tick, Tick])
         == s.(disk := Disk([], 0, Some(S.Serialize(s.process.db.tables))),
               process := Up(s.process.db.(nextLsn := 1, failed := false), Idle),
               stable := s.process.db.tables)
  {
    hide S.Serialize, S.Load, S.Fits, Encode, Run, Snapshot, Records, EncodeAll, LastCommit, DataTables, ReplayAll, Survivor,
         NextLsn, User;
    RunTwo(s, Checkpoint);
  }

  /** Replaying one commit gives what its snapshot loads to, or fails where it does not load. */
  lemma ReplayOne(db: Db, ts: Tables, base: Tables)
    ensures var r := ReplayAll(CommitRecords(db, ts), base);
            match S.Load(S.Serialize(ts))
            case Loaded(back) => r.Replay? && r.tables == back
            case _ => r.InvalidSnapshot?
  {
    hide S.Load, S.Serialize, Word;
    var rs := CommitRecords(db, ts);
    assert rs[..0] == [] && rs[..3] == rs;
    ReplaySnoc(rs, base, 0);
    ReplaySnoc(rs, base, 1);
    ReplaySnoc(rs, base, 2);
    assert PREFIX <= Snapshot(ts) && Snapshot(ts)[|PREFIX|..] == S.Serialize(ts);
  }

  lemma RecordsOfOne(db: Db, ts: Tables)
    requires Loggable(ts)
    ensures AllFit(CommitRecords(db, ts))
  {
    hide Snapshot;
  }

  /** No restart gives the tables back. */
  ghost predicate Lost(d: Disk, ts: Tables) {
    Reopened(d).Replay? ==> Reopened(d).tables != ts
  }

  /** With or without sync_on_commit, an acknowledged commit of tables outside the format is lost. */
  lemma UnfitCommitLost(sync: bool, ts: Tables)
    requires !S.Fits(ts) && Loggable(ts)
    ensures var s := Run(Init(sync), OPEN + CommitActions(ts));
            && s.process.Up? && s.process.op == Idle && s.stable == ts && !s.process.db.failed
            && s.disk.synced <= |s.disk.wal| && Survivor(s, |s.disk.wal|) == ts
            && Lost(Cut(s.disk, |s.disk.wal|), ts)
  {
    hide S.Fits, S.Load, S.Serialize, Run, Records, EncodeAll, Encode, Snapshot, Step, Append, CommitRecords, ReplayAll,
         LastCommit, Log, Whole, Loggable, Fits;
    OpenEmpty(sync);
    var s0 := Run(Init(sync), OPEN);
    RunAppend(Init(sync), OPEN, CommitActions(ts));
    var db := s0.process.db;
    OneCommitWal(s0, ts);
    RecordsOfOne(db, ts);
    ReadAllBack(CommitRecords(db, ts));
    var d := Run(s0, CommitActions(ts)).disk;
    assert d.wal[..|d.wal|] == d.wal;
    ReplayOne(db, ts, DataTables(d.data));
    S.RoundTrip(ts);
  }

  lemma OneCommitWal(s: System, ts: Tables)
    requires s.process.Up? && s.process.op == Idle && CountersLeft(s.process.db) && Loggable(ts) && s.disk.wal == []
    requires s.disk.synced == 0
    ensures Run(s, CommitActions(ts))
         == System(s.sync, Disk(EncodeAll(CommitRecords(s.process.db, ts)),
                                if s.sync then |EncodeAll(CommitRecords(s.process.db, ts))| else 0, Some(S.Serialize(ts))),
                   Up(Db(ts, s.process.db.nextLsn + 3, s.process.db.nextTxn + 1, false), Idle), ts)
  {
    hide S.Serialize, Run, EncodeAll, Encode, Snapshot, Word, Loggable;
    var added := CommitRecords(s.process.db, ts);
    var d1 := Append(s.disk, added[0]);
    var d2 := Append(d1, added[1]);
    var d3 := Append(d2, added[2]);
    CommitSteps(s, ts, d1, d2, d3);
    EncodeThree(added[0], added[1], added[2]);
    assert d3.wal == EncodeAll(added);
  }

  /** So are tables that only a checkpoint saved. */
  lemma UnfitSaveLost(ts: Tables)
    requires !S.Fits(ts)
    ensures Lost(Disk([], 0, Some(S.Serialize(ts))), ts)
  {
    hide S.Fits, S.Load, S.Serialize, Records;
    S.RoundTrip(ts);
    EmptyLog();
    assert ReplayAll([], DataTables(Some(S.Serialize(ts)))).tables == DataTables(Some(S.Serialize(ts)));
  }

  lemma UnfitCheckpointLost(sync: bool, ts: Tables)
    requires !S.Fits(ts) && !Loggable(ts)
    ensures var s := Run(Init(sync), OPEN + [Commit(ts), Tick, Tick] + [Checkpoint, Tick, Tick]);
            && s.process.Up? && s.process.op == Idle && s.stable == ts
            && s.disk.synced <= |s.disk.wal| && Survivor(s, |s.disk.wal|) == ts
            && Lost(Cut(s.disk, |s.disk.wal|), ts)
  {
    hide S.Fits, S.Load, S.Serialize, Run, Records, EncodeAll, Encode, Snapshot, Step, Append, ReplayAll, LastCommit, Log,
         Whole, Loggable, Lost;
    OpenEmpty(sync);
    var s0 := Run(Init(sync), OPEN);
    TooBigSteps(s0, ts);
    var s1 := Run(s0, [Commit(ts), Tick, Tick]);
    CheckpointSteps(s1);
    RunAppend(Init(sync), OPEN, [Commit(ts), Tick, Tick]);
    RunAppend(Init(sync), OPEN + [Commit(ts), Tick, Tick], [Checkpoint, Tick, Tick]);
    UnfitSaveLost(ts);
    var d := Run(s1, [Checkpoint, Tick, Tick]).disk;
    assert d.wal[..0] == [] && Cut(d, 0) == Disk([], 0, Some(S.Serialize(ts)));
  }

  // ---- A table that is too wide ----

  /** CREATE TABLE takes any number of columns; the reader takes ten thousand. */
  const WIDE: Tables := [([116], Table(seq(10001, i => Column([97], TInteger, true, false, false)), []))]

  lemma {:induction false} ColumnBytes(cs: seq<Column>)
    requires forall c :: c in cs ==> |c.name| == 1
    ensures |S.PutColumns(cs)| == 9 * |cs|
    decreases cs
  {
    if cs != [] {
      ColumnBytes(cs[1..]);
      assert |S.PutColumn(cs[0])| == 9;
    }
  }

  lemma WideIsUnfit()
    ensures !S.Fits(WIDE) && Loggable(WIDE)
  {
    var e := WIDE[0];
    assert e in WIDE && !S.EntryFits(e);
    ColumnBytes(e.1.schema);
    hide S.PutColumns;
    assert S.PutRows([]) == [] && WIDE[1..] == [] && S.PutTables([]) == [];
    assert |S.PutTable(e)| == 5 + 4 + 90009 + 4;
    assert S.PutTables(WIDE) == S.PutTable(e) + S.PutTables(WIDE[1..]);
    assert |S.Serialize(WIDE)| == 21 + 4 + 90022;
  }

  /** With sync_on_commit, CREATE TABLE with 10001 columns is acknowledged, and no restart brings the table back. */
  lemma WideTableLost()
    ensures var s := Run(Init(true), OPEN + CommitActions(WIDE));
            s.stable == WIDE && s.disk.synced == |s.disk.wal| && Lost(s.disk, WIDE)
  {
    hide S.Fits, Run, Step, Lost, Loggable, Records, EncodeAll, S.Serialize, Encode, Snapshot, CommitRecords;
    WideIsUnfit();
    OpenEmpty(true);
    var s0 := Run(Init(true), OPEN);
    RunAppend(Init(true), OPEN, CommitActions(WIDE));
    OneCommitWal(s0, WIDE);
    UnfitCommitLost(true, WIDE);
    var d := Run(s0, CommitActions(WIDE)).disk;
    assert d.wal[..|d.wal|] == d.wal && Cut(d, |d.wal|) == d;
  }

  lemma WideIsUnreadable()
    ensures !S.Load(S.Serialize(WIDE)).Loaded?
  {
    var e := WIDE[0];
    var rows := LittleEndian(0, 4) + S.PutRows(e.1.rows);
    var schema := S.PutColumns(e.1.schema) + rows;
    var counted := LittleEndian(1, 4) + S.PutTables(WIDE);
    hide LittleEndian, S.PutColumns;
    assert WIDE[1..] == [];
    assert S.PutTables(WIDE) == S.PutString(e.0) + (LittleEndian(10001, 4) + schema);
    S.StringBack(S.MAGIC, counted);
    S.CountBack(1, S.PutTables(WIDE));
    S.StringBack(e.0, LittleEndian(10001, 4) + schema);
    S.CountBack(10001, schema);
    hide S.GetString, S.GetUnsigned, S.PutString;
    assert S.GetTable(S.PutTables(WIDE)) == Fail;
  }

  /** A restart that cannot read the data file replaces it by an empty one. */
  lemma FailedOpenErases(s: System)
    requires s.process.Down? && s.disk.data.Some? && !S.Load(s.disk.data.value).Loaded?
    ensures Run(s, [Open, Tick]) == s.(disk := Save(s.disk, []))
  {
    hide S.Load, S.Serialize, Run, Records, EncodeAll, ReplayAll;
    RunNone(s);
    RunOne(s, [], Open);
    RunOne(s, [Open], Tick);
    assert [] + [Open] == [Open] && [Open] + [Tick] == [Open, Tick];
  }

  /** The commit of that table and a checkpoint; a crash, a restart that fails and one that succeeds. */
  const EMPTIED: seq<Action> := OPEN + CommitActions(WIDE) + [Checkpoint, Tick, Tick] + [Crash(0)] + [Open, Tick] + OPEN

  /** With sync_on_commit, all tables of the database are gone after that. */
  lemma WideTableEmptiesDatabase()
    ensures var s := Run(Init(true), EMPTIED);
            s.process.Up? && s.process.op == Idle && s.process.db.tables == []
  {
    hide S.Load, S.Serialize, Run, Records, EncodeAll, ReplayAll, Step, Loggable, CommitRecords;
    WideIsUnfit();
    WideIsUnreadable();
    OpenEmpty(true);
    var s0 := Run(Init(true), OPEN);
    RunAppend(Init(true), OPEN, CommitActions(WIDE));
    OneCommitWal(s0, WIDE);
    var s1 := Run(s0, CommitActions(WIDE));
    var two := OPEN + CommitActions(WIDE);
    RunAppend(Init(true), two, [Checkpoint, Tick, Tick]);
    CheckpointSteps(s1);
    var s2 := Run(s1, [Checkpoint, Tick, Tick]);
    var three := two + [Checkpoint, Tick, Tick];
    RunOne(Init(true), three, Crash(0));
    var s3 := Step(s2, Crash(0));
    CrashOfNothing(s2);
    RunAppend(Init(true), three + [Crash(0)], [Open, Tick]);
    FailedOpenErases(s3);
    RunAppend(Init(true), three + [Crash(0)] + [Open, Tick], OPEN);
    ReopenNothing(s3.(disk := Save(s3.disk, [])));
  }

  lemma CrashOfNothing(s: System)
    requires s.process.Up? && s.process.op == Idle && s.disk.wal == [] && s.disk.synced == 0
    ensures Step(s, Crash(0)) == System(s.sync, s.disk, Down, s.stable)
  {
  }

  lemma ReopenNothing(s: System)
    requires s.process.Down? && s.disk == Disk([], 0, Some(S.Serialize([])))
    ensures var t := Run(s, OPEN); t.process == Up(Db([], 1, 1, false), Idle)
  {
    hide S.Serialize, S.Load, S.Fits, Run, TickOp, Survivor;
    FiveSteps(s, Open);
    EmptyFits();
    SavedTables([]);
    EmptyLog();
  }

  // ---- The exact condition ----

  /** Everything the run brings into memory is something its clients may write. */
  ghost predicate Within(may: Tables -> bool, actions: seq<Action>) {
    forall a :: a in actions && (a.Commit? || a.Refresh? || a.Leave?) ==> may(a.tables)
  }

  lemma UnfitBreaks(sync: bool, may: Tables -> bool, ts: Tables)
    requires may(ts) && !S.Fits(ts)
    ensures exists actions, k :: Within(may, actions) && !CrashSafe(Run(Init(sync), actions), k)
  {
    hide Run, S.Fits, Loggable, Survivor, Reopened;
    var actions := if Loggable(ts) then OPEN + CommitActions(ts) else OPEN + [Commit(ts), Tick, Tick] + [Checkpoint, Tick, Tick];
    if Loggable(ts) {
      UnfitCommitLost(sync, ts);
    } else {
      UnfitCheckpointLost(sync, ts);
    }
    var s := Run(Init(sync), actions);
    assert Within(may, actions) && !CrashSafe(s, |s.disk.wal|);
  }

  lemma UnsyncedBreaks(may: Tables -> bool, a: Tables, b: Tables)
    requires may(a) && may(b) && Committable(a) && Committable(b) && a != b
    ensures exists actions, k :: Within(may, actions) && !CrashSafe(Run(Init(false), actions), k)
  {
    hide Run, Committable, Reopened;
    var actions := OPEN + CommitActions(a) + CommitActions(b);
    UnsyncedLosesCommit(a, b);
    var k := |Run(Init(false), OPEN + CommitActions(a)).disk.wal|;
    assert Within(may, actions) && !CrashSafe(Run(Init(false), actions), k);
  }

  /**
   * Whatever clients may write, as long as that is more than one thing: every run is safe at every cut exactly when
   * sync_on_commit is set and all they may write fits the format.
   */
  lemma SafeExactly(sync: bool, may: Tables -> bool, a: Tables, b: Tables)
    requires may(a) && may(b) && Committable(a) && Committable(b) && a != b
    ensures (forall actions, k :: Within(may, actions) ==> CrashSafe(Run(Init(sync), actions), k))
       <==> sync && forall ts :: may(ts) ==> S.Fits(ts)
  {
    hide CrashSafe, Run, Committable, S.Fits;
    if !sync {
      UnsyncedBreaks(may, a, b);
    } else if ts :| may(ts) && !S.Fits(ts) {
      UnfitBreaks(sync, may, ts);
    } else {
      forall actions, k | Within(may, actions)
        ensures CrashSafe(Run(Init(sync), actions), k)
      {
        EveryRunIsSafe(actions, k);
      }
    }
  }

  /** Over runs within the format: exactly when sync_on_commit is set. */
  lemma SafeExactlyWhenSynced(sync: bool)
    ensures (forall actions, k :: AllFitting(actions) ==> CrashSafe(Run(Init(sync), actions), k)) <==> sync
  {
    hide CrashSafe, Run, Committable, S.Fits;
    SamplesDiffer();
    SafeExactly(sync, S.Fits, [], SAMPLE);
    assert forall actions :: AllFitting(actions) <==> Within(S.Fits, actions);
  }
}
