/**
 * What holds of every run of the crash-safety machine, with sync_on_commit or without: ids and LSNs in the log,
 * and where the tables come from that a crash recovers.
 */
module CrashHistory {
  import opened Bytes
  import opened OrderedMap
  import opened Values
  import opened Constraints
  import opened Wal
  import opened Catalog
  import opened Recovery
  import opened CrashSafety
  import S = Serialization
  import T = Transactions

  // ---- The order of the log, whatever is written ----

  /** Either a crash has left nothing more to lose, or the log has no torn tail. */
  ghost predicate Tidy(d: Disk) {
    d.synced == |d.wal| || Intact(d, NextLsn(Records(d.wal)))
  }

  /** The counters lie behind everything in the log, and the log has no torn record. */
  ghost predicate Numbered(d: Disk, lsn: nat, txn: nat) {
    Intact(d, lsn) && (Records(d.wal) != [] ==> Last(Records(d.wal)).txn < txn)
  }

  ghost predicate OpOrder(d: Disk, db: Db, op: Op) {
    var rs := Records(d.wal);
    match op
    case ToBegin => CountersLeft(db)
    case ToUpdate(txn, _) => db.nextLsn + 2 <= MAX64 && EndsWith(rs, BEGIN, txn)
    case ToCommit(txn, _) => db.nextLsn + 1 <= MAX64 && EndsWith(rs, UPDATE, txn)
    case _ => true
  }

  ghost predicate ProcessOrder(d: Disk, p: Process) {
    match p
    case Down => Tidy(d)
    case Loading => Tidy(d)
    case Repairing(_) => Tidy(d)
    case Replaying(_, lsn) => Intact(d, lsn)
    case Saving(_, lsn, txn, _) => Numbered(d, lsn, txn)
    case Up(db, op) => Numbered(d, db.nextLsn, db.nextTxn) && OpOrder(d, db, op)
  }

  ghost predicate InOrder(s: System) {
    s.disk.synced <= |s.disk.wal| && Ordered(Records(s.disk.wal)) && ProcessOrder(s.disk, s.process)
  }

  lemma OrderIsTidy(s: System)
    requires InOrder(s)
    ensures Tidy(s.disk)
  {
    hide Records, EncodeAll, Ordered;
  }

  /** Whatever the cut, what is left of the log is a front part of its records. */
  lemma CutIsPrefix(d: Disk, k: nat)
    requires Ordered(Records(d.wal)) && Tidy(d) && d.synced <= k <= |d.wal|
    ensures Ordered(Records(d.wal[..k]))
    ensures Records(d.wal[..k]) <= Records(d.wal)
  {
    hide Records, EncodeAll, Ordered, Whole;
    if k == |d.wal| {
      assert d.wal[..k] == d.wal;
    } else {
      CutRecords(d.wal, k);
      OrderedPrefix(Records(d.wal), Whole(Records(d.wal), k));
    }
  }

  lemma OrderedSnoc(rs: seq<LogRecord>, r: LogRecord)
    requires Ordered(rs) && Succeeds(rs, r)
    ensures Ordered(rs + [r]) && Last(rs + [r]) == r
  {
    hide Succeeds;
    assert Front(rs + [r]) == rs && Last(rs + [r]) == r;
  }

  lemma LastBelow(rs: seq<LogRecord>)
    requires Ordered(rs) && rs != []
    ensures Last(rs).txn < MAX64 && Last(rs).lsn < MAX64
  {
  }

  /** The record the next step of a commit appends. */
  function Appended(s: System): LogRecord
    requires s.process.Up?
  {
    var Up(db, op) := s.process;
    match op
    case ToUpdate(txn, begin) => LogRecord(Word(db.nextLsn), Word(txn), Word(begin), UPDATE, Snapshot(db.tables))
    case ToCommit(txn, update) => LogRecord(Word(db.nextLsn), Word(txn), Word(update), COMMIT, [])
    case _ => LogRecord(Word(db.nextLsn), Word(db.nextTxn), 0, BEGIN, [])
  }

  predicate Appends(s: System) {
    s.process.Up? && (s.process.op == ToBegin || s.process.op.ToUpdate? || s.process.op.ToCommit?)
  }

  /** What appending a record makes of the log. */
  lemma AppendedStep(s: System)
    requires InOrder(s) && Appends(s) && Fits(Appended(s))
    ensures var r := Appended(s);
            && Succeeds(Records(s.disk.wal), r) && r.lsn == s.process.db.nextLsn
            && Step(s, Tick).disk == Append(s.disk, r)
            && Records(Step(s, Tick).disk.wal) == Records(s.disk.wal) + [r]
            && Step(s, Tick).disk.synced <= |Step(s, Tick).disk.wal|
            && Intact(Step(s, Tick).disk, s.process.db.nextLsn + 1)
  {
    hide Records, EncodeAll, Ordered, Snapshot, Encode, Fits;
    var rs := Records(s.disk.wal);
    if rs != [] {
      LastBelow(rs);
    }
    AppendIntact(s.disk, Appended(s), s.process.db.nextLsn);
  }

  lemma OrderAppend(s: System)
    requires InOrder(s) && Appends(s)
    ensures InOrder(Step(s, Tick))
  {
    hide Records, EncodeAll, Ordered, Snapshot, Encode, Append, Intact, Succeeds;
    var rs := Records(s.disk.wal);
    if rs != [] {
      LastBelow(rs);
    }
    if Fits(Appended(s)) {
      AppendedStep(s);
      OrderedSnoc(rs, Appended(s));
    }
  }

  lemma OrderRest(s: System)
    requires InOrder(s) && !Appends(s)
    ensures InOrder(Step(s, Tick))
  {
    hide Records, EncodeAll, Ordered, LastCommit, DataTables, S.Load, S.Serialize, ReplayAll, User, Encode, Snapshot;
    match s.process
    case Down =>
    case Loading =>
    case Repairing(_) => RepairKeeps(s);
    case Replaying(ts, _) =>
      if ReplayAll(Records(s.disk.wal), ts).Replay? {
        LargestIsLast(Records(s.disk.wal), ts);
      }
    case Saving(_, _, _, _) =>
    case Up(_, _) =>
      EmptyLog();
      NothingOrdered();
  }

  lemma NothingOrdered()
    ensures Ordered([])
  {
  }

  lemma RepairKeeps(s: System)
    requires InOrder(s) && s.process.Repairing?
    ensures InOrder(Step(s, Tick)) && Records(Step(s, Tick).disk.wal) == Records(s.disk.wal)
  {
    hide Records, EncodeAll, Ordered;
    RecordsAreAPrefix(s.disk.wal);
    ReadAllBack(Records(s.disk.wal));
  }

  lemma OrderCrash(s: System, k: nat)
    requires InOrder(s)
    ensures InOrder(Step(s, Crash(k)))
  {
    hide Records, EncodeAll, Ordered;
    if s.disk.synced <= k <= |s.disk.wal| {
      OrderIsTidy(s);
      CutIsPrefix(s.disk, k);
    }
  }

  lemma OrderStep(s: System, a: Action)
    requires InOrder(s)
    ensures InOrder(Step(s, a))
  {
    hide Records, EncodeAll, Ordered, User;
    match a
    case Crash(k) => OrderCrash(s, k);
    case Tick => if Appends(s) { OrderAppend(s); } else { OrderRest(s); }
    case _ =>
  }

  lemma {:induction false} EveryRunIsOrdered(sync: bool, actions: seq<Action>)
    ensures InOrder(Run(Init(sync), actions))
  {
    hide InOrder, Step;
    if actions == [] {
      OrderInit(sync);
    } else {
      EveryRunIsOrdered(sync, Front(actions));
      OrderStep(Run(Init(sync), Front(actions)), Last(actions));
    }
  }

  lemma OrderInit(sync: bool)
    ensures InOrder(Init(sync))
  {
    hide Records, EncodeAll;
    EmptyLog();
  }

  /** The records a run leaves in the log, cut at a byte that may be lost. */
  function Left(sync: bool, actions: seq<Action>, k: nat): seq<LogRecord> {
    var d := Run(Init(sync), actions).disk;
    if d.synced <= k <= |d.wal| then Records(d.wal[..k]) else Records(d.wal)
  }

  lemma LeftIsOrdered(sync: bool, actions: seq<Action>, k: nat)
    ensures Ordered(Left(sync, actions, k))
  {
    hide Records, Ordered, Run, ProcessOrder, Tidy;
    EveryRunIsOrdered(sync, actions);
    var s := Run(Init(sync), actions);
    OrderIsTidy(s);
    if s.disk.synced <= k <= |s.disk.wal| {
      CutIsPrefix(s.disk, k);
    }
  }

  /** Across any number of crashes and restarts, LSNs strictly increase and every BEGIN has a new id. */
  lemma IdsNeverReused(sync: bool, actions: seq<Action>, k: nat, i: nat, j: nat)
    requires i < j < |Left(sync, actions, k)|
    ensures var rs := Left(sync, actions, k);
            && rs[i].lsn < rs[j].lsn && rs[i].txn <= rs[j].txn
            && (rs[j].kind == BEGIN ==> rs[i].txn < rs[j].txn)
  {
    hide Left, Ordered;
    LeftIsOrdered(sync, actions, k);
    IdsAndLsns(Left(sync, actions, k), i, j);
  }

  /** Every COMMIT in the log has one BEGIN and one UPDATE of its id, right before it: no orphan can be installed. */
  lemma OrphansNeverInstalled(sync: bool, actions: seq<Action>, k: nat, i: nat, j: nat)
    requires var rs := Left(sync, actions, k);
             i < |rs| && rs[i].kind == COMMIT && j < |rs| && rs[j].txn == rs[i].txn
    ensures var rs := Left(sync, actions, k);
            && i >= 2 && rs[i - 2].kind == BEGIN && rs[i - 1].kind == UPDATE
            && rs[i - 2].txn == rs[i - 1].txn == rs[i].txn
            && i - 2 <= j <= i
  {
    hide Left, Ordered;
    LeftIsOrdered(sync, actions, k);
    CommitsOwnUpdate(Left(sync, actions, k), i);
    CommittedIdIsUnique(Left(sync, actions, k), i, j);
  }

  // ---- Runs within the format ----

  ghost predicate ProcessFits(d: Disk, p: Process) {
    match p
    case Down => true
    case Loading => true
    case Repairing(ts) => d.data.Some? && ts == DataTables(d.data)
    case Replaying(ts, _) => d.data.Some? && ts == DataTables(d.data)
    case Saving(ts, _, _, _) => S.Fits(ts)
    case Up(db, _) => S.Fits(db.tables)
  }

  /** Everything on disk and in memory can be read back. */
  ghost predicate Fine(s: System) {
    InOrder(s) && DiskInv(s.disk) && ProcessFits(s.disk, s.process)
  }

  lemma FineAppend(s: System)
    requires Fine(s) && Appends(s)
    ensures Fine(Step(s, Tick))
  {
    hide Records, EncodeAll, Log, Snapshot, S.Fits, S.Load, S.Serialize, Encode, Succeeds, InOrder, DataTables, CarriesSnapshot;
    OrderAppend(s);
    var r := Appended(s);
    if Fits(r) {
      AppendedStep(s);
      if s.process.op.ToUpdate? {
        assert IsSnapshot(r.payload, s.process.db.tables);
        assert CarriesSnapshot(r) by { SnapshotCarried(r, s.process.db.tables); }
      }
      LogSnoc(Records(s.disk.wal), r);
    }
  }

  lemma SnapshotCarried(r: LogRecord, ts: Tables)
    requires IsSnapshot(r.payload, ts)
    ensures CarriesSnapshot(r)
  {
  }

  lemma ReplayedFits(s: System)
    requires Fine(s) && s.process.Replaying?
    ensures var next := Step(s, Tick);
            && next.process.Saving? && next.disk == s.disk && S.Fits(next.process.replayed)
            && next.process.replayed == Standing(Records(s.disk.wal), s.disk.data)
  {
    hide Records, EncodeAll, Log, LastCommit, S.Fits, S.Load, ReplayAll, InOrder;
    var rs := Records(s.disk.wal);
    ReplayOfLog(rs, s.process.loaded);
    if LastCommit(rs).Some? {
      CommittedFits(rs);
    } else {
      FittingTables(s.disk.data.value);
    }
  }

  lemma FineRest(s: System)
    requires Fine(s) && !Appends(s)
    ensures Fine(Step(s, Tick))
  {
    hide Records, EncodeAll, Log, LastCommit, S.Fits, S.Load, S.Serialize, ReplayAll, User, InOrder, Encode, Snapshot;
    OrderRest(s);
    match s.process
    case Down =>
    case Loading =>
      EmptyFits();
      SavedTables([]);
    case Repairing(_) => RepairKeeps(s);
    case Replaying(_, _) => ReplayedFits(s);
    case Saving(ts, _, _, _) => SavedTables(ts);
    case Up(db, _) =>
      SavedTables(db.tables);
      EmptyLog();
  }

  lemma FineCrash(s: System, k: nat)
    requires Fine(s)
    ensures Fine(Step(s, Crash(k)))
  {
    hide Records, EncodeAll, Log, InOrder, S.Load;
    OrderCrash(s, k);
    if s.disk.synced <= k <= |s.disk.wal| {
      var rs := Records(s.disk.wal[..k]);
      CutOfFine(s, k);
      assert rs == Records(s.disk.wal)[..|rs|];
      LogPrefix(Records(s.disk.wal), |rs|);
    }
  }

  lemma CutOfFine(s: System, k: nat)
    requires InOrder(s) && s.disk.synced <= k <= |s.disk.wal|
    ensures Records(s.disk.wal[..k]) <= Records(s.disk.wal)
  {
    hide Records, EncodeAll, Ordered;
    OrderIsTidy(s);
    CutIsPrefix(s.disk, k);
  }

  lemma FineStep(s: System, a: Action)
    requires Fine(s) && Fitting(a)
    ensures Fine(Step(s, a))
  {
    hide Records, Log, User, S.Fits, S.Load, InOrder;
    OrderStep(s, a);
    match a
    case Crash(k) => FineCrash(s, k);
    case Tick => if Appends(s) { FineAppend(s); } else { FineRest(s); }
    case _ =>
  }

  lemma {:induction false} EveryRunIsFine(sync: bool, actions: seq<Action>)
    requires AllFitting(actions)
    ensures Fine(Run(Init(sync), actions))
  {
    hide Fine, Step, Fitting;
    if actions == [] {
      FineInit(sync);
    } else {
      EveryRunIsFine(sync, Front(actions));
      FineStep(Run(Init(sync), Front(actions)), Last(actions));
    }
  }

  lemma FineInit(sync: bool)
    ensures Fine(Init(sync))
  {
    hide Records, EncodeAll;
    EmptyLog();
    OrderInit(sync);
  }

  // ---- Where recovered tables come from ----

  predicate Counts(a: Action, leftovers: bool) {
    a.Commit? || (leftovers && a.Leave?)
  }

  /**
   * The user tables come whole from one commit of the run, or are those of a new database; with leftovers, they may
   * also be what one failed statement left in memory.
   */
  ghost predicate FromHistory(u: Tables, actions: seq<Action>, leftovers: bool) {
    u == [] || exists i :: 0 <= i < |actions| && Counts(actions[i], leftovers) && User(actions[i].tables) == u
  }

  lemma HistoryGrows(u: Tables, actions: seq<Action>, leftovers: bool)
    requires actions != [] && FromHistory(u, Front(actions), leftovers)
    ensures FromHistory(u, actions, leftovers)
  {
    if u != [] {
      var i :| 0 <= i < |Front(actions)| && Counts(Front(actions)[i], leftovers) && User(Front(actions)[i].tables) == u;
      assert Counts(actions[i], leftovers);
    }
  }

  lemma LastIsHistory(actions: seq<Action>, leftovers: bool)
    requires actions != [] && Counts(Last(actions), leftovers)
    ensures FromHistory(User(Last(actions).tables), actions, leftovers)
  {
    assert Counts(actions[|actions| - 1], leftovers);
  }

  /** Every snapshot in the log was handed to a commit. */
  ghost predicate LogFromHistory(rs: seq<LogRecord>, actions: seq<Action>, leftovers: bool) {
    forall i :: 0 <= i < |rs| && rs[i].kind == UPDATE ==> FromHistory(User(Carried(rs[i])), actions, leftovers)
  }

  /** A commit is under way, and so the tables in memory are its tables. */
  predicate Committing(op: Op) {
    op == ToBegin || op.ToUpdate? || op.ToCommit? || op == ToFlush || op == ToSave
  }

  ghost predicate ProcessFromHistory(p: Process, actions: seq<Action>, leftovers: bool) {
    match p
    case Down => true
    case Loading => true
    case Repairing(ts) => FromHistory(User(ts), actions, leftovers)
    case Replaying(ts, _) => FromHistory(User(ts), actions, leftovers)
    case Saving(ts, _, _, _) => FromHistory(User(ts), actions, leftovers)
    case Up(db, op) => leftovers || Committing(op) ==> FromHistory(User(db.tables), actions, leftovers)
  }

  ghost predicate HistoryInv(s: System, actions: seq<Action>, leftovers: bool) {
    && LogFromHistory(Records(s.disk.wal), actions, leftovers)
    && FromHistory(User(DataTables(s.disk.data)), actions, leftovers)
    && ProcessFromHistory(s.process, actions, leftovers)
  }

  /** The next step replaces the data file outside a commit. */
  predicate Saves(s: System, a: Action) {
    a == Tick && s.process.Up? && (s.process.op == ToCheckpoint || s.process.op == ToClose)
  }

  /** No checkpoint and no close saves rows that a failed statement left in memory. */
  ghost predicate SavesCommitted(sync: bool, actions: seq<Action>) {
    actions == [] ||
    (&& SavesCommitted(sync, Front(actions))
     && var s := Run(Init(sync), Front(actions));
        Saves(s, Last(actions)) ==> FromHistory(User(s.process.db.tables), actions, false))
  }

  lemma HistoryInvGrows(s: System, actions: seq<Action>, leftovers: bool)
    requires actions != [] && HistoryInv(s, Front(actions), leftovers)
    ensures HistoryInv(s, actions, leftovers)
  {
    hide Records, User, DataTables, FromHistory, Carried;
    forall u | FromHistory(u, Front(actions), leftovers)
      ensures FromHistory(u, actions, leftovers)
    {
      HistoryGrows(u, actions, leftovers);
    }
  }

  lemma {:induction false} LastCommitFromHistory(rs: seq<LogRecord>, actions: seq<Action>, leftovers: bool)
    requires Ordered(rs) && LogFromHistory(rs, actions, leftovers) && LastCommit(rs).Some?
    ensures FromHistory(User(LastCommit(rs).value), actions, leftovers)
    decreases rs
  {
    hide User, FromHistory, Carried, Succeeds;
    if Last(rs).kind == COMMIT {
      CommitsOwnUpdate(rs, |rs| - 1);
    } else {
      LastCommitFromHistory(Front(rs), actions, leftovers);
    }
  }

  lemma StandingFromHistory(rs: seq<LogRecord>, data: Option<Bytes>, actions: seq<Action>, leftovers: bool)
    requires Ordered(rs) && LogFromHistory(rs, actions, leftovers)
    requires FromHistory(User(DataTables(data)), actions, leftovers)
    ensures FromHistory(User(Standing(rs, data)), actions, leftovers)
  {
    hide Ordered, LastCommit, User, DataTables, FromHistory, LogFromHistory;
    if LastCommit(rs).Some? {
      LastCommitFromHistory(rs, actions, leftovers);
    }
  }

  lemma HistoryAppend(s: System, actions: seq<Action>, leftovers: bool)
    requires Fine(s) && HistoryInv(s, actions, leftovers) && Appends(s)
    ensures HistoryInv(Step(s, Tick), actions, leftovers)
  {
    hide Records, EncodeAll, Log, Ordered, User, DataTables, Snapshot, S.Fits, S.Load, S.Serialize, Encode, FromHistory, Carried,
         InOrder, Succeeds;
    var db := s.process.db;
    var rs := Records(s.disk.wal);
    var r := Appended(s);
    if Fits(r) {
      AppendedStep(s);
      if s.process.op.ToUpdate? {
        assert IsSnapshot(r.payload, db.tables);
        CarriedIs(r, db.tables);
      }
      assert LogFromHistory(rs + [r], actions, leftovers);
    }
  }

  lemma HistoryRest(s: System, actions: seq<Action>, leftovers: bool)
    requires Fine(s) && HistoryInv(s, actions, leftovers) && !Appends(s)
    requires leftovers || (Saves(s, Tick) ==> FromHistory(User(s.process.db.tables), actions, false))
    ensures HistoryInv(Step(s, Tick), actions, leftovers)
  {
    hide Records, EncodeAll, Log, LastCommit, User, DataTables, S.Fits, S.Load, S.Serialize, FromHistory, Carried, Standing,
         ReplayAll, Ordered, InOrder, Encode, Snapshot;
    match s.process
    case Down =>
    case Loading =>
      EmptyFits();
      SavedTables([]);
      NoTables(actions, leftovers);
    case Repairing(_) => RepairKeeps(s);
    case Replaying(_, _) =>
      ReplayedFits(s);
      FineOrdered(s);
      StandingFromHistory(Records(s.disk.wal), s.disk.data, actions, leftovers);
    case Saving(ts, _, _, _) => SavedTables(ts);
    case Up(db, _) =>
      SavedTables(db.tables);
      EmptyLog();
  }

  lemma FineOrdered(s: System)
    requires Fine(s)
    ensures Ordered(Records(s.disk.wal))
  {
  }

  lemma NoTables(actions: seq<Action>, leftovers: bool)
    ensures FromHistory(User([]), actions, leftovers)
  {
  }

  lemma HistoryCrash(s: System, k: nat, actions: seq<Action>, leftovers: bool)
    requires Fine(s) && HistoryInv(s, actions, leftovers)
    ensures HistoryInv(Step(s, Crash(k)), actions, leftovers)
  {
    hide Records, EncodeAll, Log, User, DataTables, FromHistory, Carried, InOrder;
    if s.disk.synced <= k <= |s.disk.wal| {
      CutOfFine(s, k);
    }
  }

  lemma HistoryStep(s: System, actions: seq<Action>, leftovers: bool)
    requires Fine(s) && actions != [] && HistoryInv(s, actions, leftovers)
    requires leftovers || (Saves(s, Last(actions)) ==> FromHistory(User(s.process.db.tables), actions, false))
    ensures HistoryInv(Step(s, Last(actions)), actions, leftovers)
  {
    hide Records, User, DataTables, FromHistory, Carried, Fine, TickOp;
    if Counts(Last(actions), leftovers) {
      LastIsHistory(actions, leftovers);
    }
    match Last(actions)
    case Crash(k) => HistoryCrash(s, k, actions, leftovers);
    case Tick =>
      if Appends(s) {
        HistoryAppend(s, actions, leftovers);
      } else {
        HistoryRest(s, actions, leftovers);
      }
    case _ =>
  }

  lemma {:induction false} RunFromHistory(sync: bool, actions: seq<Action>, leftovers: bool)
    requires AllFitting(actions) && (leftovers || SavesCommitted(sync, actions))
    ensures HistoryInv(Run(Init(sync), actions), actions, leftovers)
  {
    hide Fine, Step, HistoryInv, Fitting, FromHistory;
    if actions == [] {
      HistoryInit(sync, leftovers);
    } else {
      RunFromHistory(sync, Front(actions), leftovers);
      EveryRunIsFine(sync, Front(actions));
      HistoryInvGrows(Run(Init(sync), Front(actions)), actions, leftovers);
      HistoryStep(Run(Init(sync), Front(actions)), actions, leftovers);
    }
  }

  lemma HistoryInit(sync: bool, leftovers: bool)
    ensures HistoryInv(Init(sync), [], leftovers)
  {
    hide Records;
    EmptyLog();
  }

  ghost predicate Recovers(sync: bool, actions: seq<Action>, k: nat, leftovers: bool) {
    var d := Run(Init(sync), actions).disk;
    d.synced <= k <= |d.wal| ==>
      && Reopened(Cut(d, k)).Replay?
      && Reopened(Cut(d, k)).tables == Standing(Records(Cut(d, k).wal), d.data)
      && FromHistory(User(Reopened(Cut(d, k)).tables), actions, leftovers)
  }

  lemma RecoversHistory(sync: bool, actions: seq<Action>, k: nat, leftovers: bool)
    requires AllFitting(actions) && (leftovers || SavesCommitted(sync, actions))
    ensures Recovers(sync, actions, k, leftovers)
  {
    hide Records, Log, LastCommit, User, DataTables, FromHistory, Carried, InOrder, Run, Standing, ReplayAll, AllFitting,
         ProcessFromHistory, S.Load, Ordered;
    var s := Run(Init(sync), actions);
    EveryRunIsFine(sync, actions);
    RunFromHistory(sync, actions, leftovers);
    if s.disk.synced <= k <= |s.disk.wal| {
      CutOfFine(s, k);
      var rs := Records(s.disk.wal[..k]);
      assert rs == Records(s.disk.wal)[..|rs|];
      LogPrefix(Records(s.disk.wal), |rs|);
      ReplayOfLog(rs, DataTables(s.disk.data));
      StandingIs(rs, s.disk.data);
      LogIsOrdered(rs);
      StandingFromHistory(rs, s.disk.data, actions, leftovers);
    }
  }

  lemma StandingIs(rs: seq<LogRecord>, data: Option<Bytes>)
    ensures Standing(rs, data) == if LastCommit(rs).Some? then LastCommit(rs).value else DataTables(data)
  {
  }

  /**
   * With sync_on_commit or without, after every run within the format and at every cut, a restart succeeds and finds
   * the last commit left in the log or the data file. As long as no checkpoint or close saved leftover rows, its user
   * tables are one whole committed snapshot of the run: never a part of one and never a mixture.
   */
  lemma AllOrNothing(sync: bool, actions: seq<Action>, k: nat)
    requires AllFitting(actions) && SavesCommitted(sync, actions)
    ensures Recovers(sync, actions, k, false)
  {
    hide Recovers, SavesCommitted;
    RecoversHistory(sync, actions, k, false);
  }

  /** In any case they are one committed snapshot or what one failed statement left, and never a mixture. */
  lemma NeverMixed(sync: bool, actions: seq<Action>, k: nat)
    requires AllFitting(actions)
    ensures Recovers(sync, actions, k, true)
  {
    hide Recovers;
    RecoversHistory(sync, actions, k, true);
  }

  lemma UserValid(ts: Tables)
    requires AllValid(ts)
    ensures AllValid(User(ts))
  {
    hide User, IsCatalog;
    UserSorted(ts);
  }

  lemma HistoryValid(u: Tables, actions: seq<Action>)
    requires FromHistory(u, actions, true)
    requires forall a :: a in actions && Counts(a, true) ==> AllValid(a.tables)
    ensures AllValid(u)
  {
    hide AllValid, User;
    if u == [] {
      assert AllValid(u) by { NoneInvalid(); }
    } else {
      var i :| 0 <= i < |actions| && Counts(actions[i], true) && User(actions[i].tables) == u;
      assert actions[i] in actions;
      UserValid(actions[i].tables);
    }
  }

  lemma NoneInvalid()
    ensures AllValid([])
  {
  }

  /** Replay brings back no row that breaks a constraint, when no commit and no failed statement did. */
  lemma RecoveredTablesAreValid(sync: bool, actions: seq<Action>, k: nat)
    requires AllFitting(actions) && forall a :: a in actions && Counts(a, true) ==> AllValid(a.tables)
    requires var d := Run(Init(sync), actions).disk; d.synced <= k <= |d.wal|
    ensures var d := Cut(Run(Init(sync), actions).disk, k);
            Reopened(d).Replay? && AllValid(User(Reopened(d).tables))
  {
    hide Run, AllValid, User, FromHistory, Reopened, AllFitting;
    NeverMixed(sync, actions, k);
    HistoryValid(User(Reopened(Cut(Run(Init(sync), actions).disk, k)).tables), actions);
  }

  // ---- Exactly when leftovers come back ----

  /** After every prefix of the run, at every cut, a committed snapshot comes back. */
  ghost predicate AlwaysWhole(actions: seq<Action>) {
    && (forall k :: Recovers(true, actions, k, false))
    && (actions == [] || AlwaysWhole(Front(actions)))
  }

  /** The step makes tables stable that no commit of the run was handed. */
  ghost predicate Leaks(s: System, actions: seq<Action>) {
    && actions != [] && Last(actions) == Tick && s.process.Up?
    && (s.process.op == ToTruncate || (Saves(s, Tick) && LastCommit(Records(s.disk.wal)).None?))
    && !FromHistory(User(s.process.db.tables), actions, false)
  }

  /** No checkpoint, and no close of a database whose log is empty, saves leftover rows. */
  ghost predicate LeakFree(actions: seq<Action>) {
    actions == [] || (LeakFree(Front(actions)) && !Leaks(Run(Init(true), Front(actions)), actions))
  }

  ghost predicate StableFromHistory(s: System, actions: seq<Action>) {
    && FromHistory(User(s.stable), actions, false)
    && (s.process.Up? && Committing(s.process.op) ==> FromHistory(User(s.process.db.tables), actions, false))
  }

  lemma StableStep(s: System, actions: seq<Action>)
    requires Inv(s) && actions != [] && StableFromHistory(s, Front(actions)) && !Leaks(s, actions)
    ensures StableFromHistory(Step(s, Last(actions)), actions)
  {
    hide Records, EncodeAll, Log, LastCommit, Whole, User, DataTables, S.Fits, S.Load, S.Serialize, ReplayAll, FromHistory;
    forall u | FromHistory(u, Front(actions), false)
      ensures FromHistory(u, actions, false)
    {
      HistoryGrows(u, actions, false);
    }
    if Last(actions).Commit? {
      LastIsHistory(actions, false);
    }
  }

  lemma LeakStep(s: System, actions: seq<Action>)
    requires Inv(s) && Leaks(s, actions)
    ensures var next := Step(s, Last(actions));
            && !FromHistory(User(next.stable), actions, false)
            && (next.process.Up? ==> next.process.op == Idle || next.process.op == ToTruncate)
  {
    hide Records, EncodeAll, Log, LastCommit, Whole, User, DataTables, S.Fits, S.Load, S.Serialize, ReplayAll, FromHistory;
  }

  lemma {:induction false} LeakFreeIsStable(actions: seq<Action>)
    requires AllFitting(actions) && LeakFree(actions)
    ensures StableFromHistory(Run(Init(true), actions), actions)
  {
    hide Inv, Step, Leaks, StableFromHistory, Fitting;
    if actions == [] {
      InitStable();
    } else {
      LeakFreeIsStable(Front(actions));
      InitInv();
      RunKeeps(Init(true), Front(actions));
      StableStep(Run(Init(true), Front(actions)), actions);
    }
  }

  lemma InitStable()
    ensures StableFromHistory(Init(true), [])
  {
  }

  lemma StableRecovers(actions: seq<Action>, k: nat)
    requires AllFitting(actions) && StableFromHistory(Run(Init(true), actions), actions)
    ensures Recovers(true, actions, k, false)
  {
    hide Run, Inv, User, FromHistory, Reopened, Records, Standing, AllFitting;
    EveryRunIsSafe(actions, k);
  }

  /**
   * With sync_on_commit and within the format, every restart brings back a committed snapshot throughout the run
   * exactly when no checkpoint, and no close with an empty log, saves the rows of a failed statement.
   */
  lemma {:induction false} WholeExactly(actions: seq<Action>)
    requires AllFitting(actions)
    ensures AlwaysWhole(actions) <==> LeakFree(actions)
  {
    hide Inv, Step, Leaks, StableFromHistory, Recovers, Fitting;
    if LeakFree(actions) {
      LeakFreeIsStable(actions);
      forall k
        ensures Recovers(true, actions, k, false)
      {
        StableRecovers(actions, k);
      }
    }
    if actions != [] {
      WholeExactly(Front(actions));
      if LeakFree(Front(actions)) && !LeakFree(actions) {
        LeakShows(actions);
      }
    }
  }

  lemma LeakShows(actions: seq<Action>)
    requires AllFitting(actions) && actions != [] && Leaks(Run(Init(true), Front(actions)), actions)
    ensures exists k :: !Recovers(true, actions, k, false)
  {
    hide Inv, Step, Leaks, User, FromHistory, Fitting, Reopened, Records, Standing;
    InitInv();
    RunKeeps(Init(true), Front(actions));
    LeakStep(Run(Init(true), Front(actions)), actions);
    var s := Run(Init(true), actions);
    var k := |s.disk.wal|;
    EveryRunIsSafe(actions, k);
    assert s.disk.synced <= k by { DurableWithin(s); }
    assert !Recovers(true, actions, k, false);
  }

  /** A commit, a failing statement, a checkpoint. */
  function LeftoverRun(a: Tables, b: Tables): seq<Action> {
    OPEN + CommitActions(a) + [Leave(b)] + [Checkpoint, Tick, Tick]
  }

  /** The rows the failing statement left are recovered, although no commit was handed them. */
  lemma LeftoversRecovered(a: Tables, b: Tables)
    requires Committable(a) && S.Fits(b) && !Same(a, b) && User(b) != []
    ensures var s := Run(Init(true), LeftoverRun(a, b));
            && s.process.Up? && s.process.op == Idle
            && Reopened(s.disk).Replay? && Reopened(s.disk).tables == b
            && !FromHistory(User(b), LeftoverRun(a, b), false)
  {
    hide S.Fits, S.Load, S.Serialize, Run, Records, EncodeAll, LastCommit, User, Committable, ReplayAll, Step;
    OpenEmpty(true);
    var s0 := Run(Init(true), OPEN);
    assert Committable(a) ==> S.Fits(a) by { CommittableFits(a); }
    CommitCompletes(s0, a);
    RunAppend(Init(true), OPEN, CommitActions(a));
    var s1 := Run(s0, CommitActions(a));
    RunOne(Init(true), OPEN + CommitActions(a), Leave(b));
    LeaveStep(s1, b);
    var s2 := Step(s1, Leave(b));
    CheckpointSteps(s2);
    RunAppend(Init(true), OPEN + CommitActions(a) + [Leave(b)], [Checkpoint, Tick, Tick]);
    SavedTables(b);
    EmptyLog();
    NothingReplayed(b);
    var actions := LeftoverRun(a, b);
    assert forall i :: 0 <= i < |actions| && Counts(actions[i], false) ==> actions[i] == Commit(a);
  }

  lemma CommittableFits(a: Tables)
    requires Committable(a)
    ensures S.Fits(a)
  {
  }

  lemma LeaveStep(s: System, b: Tables)
    requires s.process.Up? && s.process.op == Idle
    ensures Step(s, Leave(b)) == s.(process := Up(s.process.db.(tables := b, failed := true), Idle))
  {
  }

  /** What CREATE TABLE makes, and what a failing INSERT of two equal keys leaves of it. */
  const CREATED: Tables := [(T.NAME, Table(T.SCHEMA, []))]
  const LEFT: Tables := [(T.NAME, T.DirtyTable())]

  lemma DirtyInsertRecovered()
    ensures InsertRows(CREATED[0].1, T.TWICE) == (LEFT[0].1, false)
    ensures var s := Run(Init(true), LeftoverRun(CREATED, LEFT));
            Reopened(s.disk).Replay? && Reopened(s.disk).tables == LEFT
            && !FromHistory(User(LEFT), LeftoverRun(CREATED, LEFT), false)
  {
    hide Run, Reopened, InsertRows, Committable, S.Fits, FromHistory, User, TableValid, T.Touches;
    T.DirtyInsertExists();
    SmallTables();
    LeftoversRecovered(CREATED, LEFT);
  }

  lemma SmallTables()
    ensures Committable(CREATED) && S.Fits(LEFT) && User(CREATED) == CREATED && User(LEFT) == LEFT
  {
    T.NameIsFree();
    assert CREATED[1..] == [] && LEFT[1..] == [];
    assert Lower(T.NAME) == T.NAME;
    assert S.ColumnFits(T.SCHEMA[0]);
    assert S.Fits(CREATED) && S.Fits(LEFT);
    var e := CREATED[0];
    assert T.SCHEMA[1..] == [] && S.PutColumns([]) == [] && |S.PutColumn(T.SCHEMA[0])| == 9;
    assert S.PutColumns(T.SCHEMA) == S.PutColumn(T.SCHEMA[0]) + S.PutColumns(T.SCHEMA[1..]);
    assert |S.PutTable(e)| == 22;
    assert S.PutTables(CREATED) == S.PutTable(e) + S.PutTables(CREATED[1..]);
    assert |S.Serialize(CREATED)| == 25 + 22;
  }
}
