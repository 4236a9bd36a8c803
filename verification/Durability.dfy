/**
 * The server of connections on top of the crash-safety machine. After any interleaving of clients and any crashes,
 * what is recovered is the serial execution of a front part of the commit log that holds every acknowledged commit.
 */
module Durability {
  import opened Bytes
  import opened OrderedMap
  import opened Values
  import opened Catalog
  import opened Recovery
  import T = Transactions
  import C = CrashSafety
  import S = Serialization
  import Wal

  /**
   * The log of the server is history: the bodies committed since the first start, as far as crashes have left them.
   * kept is how many of them the stable tables stand for, acked how many were acknowledged to their clients.
   */
  datatype World = World(server: T.Server, system: C.System, kept: nat, acked: nat)

  datatype Action = Client(act: T.Action) | Machine(step: C.Action)

  function Init(): World {
    World(T.Init([]), C.Init(true), 0, 0)
  }

  predicate IsUp(w: World) {
    w.system.process.Up?
  }

  /** Clients wait while a commit, a checkpoint or a close is under way, except for work on their own copies. */
  predicate Admitted(w: World, a: T.Action) {
    && IsUp(w)
    && (w.system.process.op == C.Idle || ((a.Exec? || a.Rollback?) && a.c in w.server.active))
  }

  /** What the machine does for a client: a commit, or new tables in memory. */
  ghost function Request(before: T.Server, after: T.Server): C.Action {
    if |after.log| > |before.log| then C.Commit(after.tables)
    else if Same(after.tables, before.tables) then C.Refresh(after.tables)
    else C.Leave(after.tables)
  }

  ghost function ClientStep(w: World, a: T.Action): World {
    var server := T.Step(w.server, a);
    if !Admitted(w, a) || (|server.log| > |w.server.log| && !C.CountersLeft(w.system.process.db)) then w
    else w.(server := server, system := C.Step(w.system, Request(w.server, server)))
  }

  /** The step makes the tables in memory stable. */
  predicate Settles(s: C.System, a: C.Action) {
    && s.process.Up?
    && match a
       case Tick =>
         || s.process.op == C.ToSave || s.process.op == C.ToTruncate
         || ((s.process.op == C.ToCheckpoint || s.process.op == C.ToClose) && LastCommit(Wal.Records(s.disk.wal)).None?)
       case Crash(k) =>
         && s.disk.synced <= k <= |s.disk.wal|
         && (s.process.op == C.ToSave || (s.process.op == C.ToFlush && k == |s.disk.wal|))
       case _ => false
  }

  /** A commit is acknowledged when its data file is saved. */
  predicate Acknowledges(s: C.System, a: C.Action) {
    a.Tick? && s.process.Up? && s.process.op == C.ToSave
  }

  ghost function MachineStep(w: World, a: C.Action): World {
    if a.Commit? || a.Refresh? || a.Leave? then w
    else
      var system := C.Step(w.system, a);
      var kept := if Settles(w.system, a) then |w.server.log| else w.kept;
      var acked := if Acknowledges(w.system, a) then |w.server.log| else w.acked;
      var server :=
        if !system.process.Up? && kept <= |w.server.log| then w.server.(active := map[], log := w.server.log[..kept])
        else if !IsUp(w) && system.process.Up? then w.server.(tables := system.process.db.tables)
        else w.server;
      World(server, system, kept, acked)
  }

  ghost function Step(w: World, a: Action): World {
    match a
    case Client(act) => ClientStep(w, act)
    case Machine(step) => MachineStep(w, step)
  }

  ghost function Run(actions: seq<Action>): World {
    if actions == [] then Init() else Step(Run(Front(actions)), Last(actions))
  }

  /** Autocommit statements that fail leave nothing behind, and all tables fit the format. */
  ghost predicate Good(w: World, a: Action) {
    a.Client? && Admitted(w, a.act) ==> T.CleanStep(w.server, a.act) && S.Fits(T.Step(w.server, a.act).tables)
  }

  ghost predicate GoodRun(actions: seq<Action>) {
    actions == [] || (GoodRun(Front(actions)) && Good(Run(Front(actions)), Last(actions)))
  }

  // ---- The invariant ----

  ghost predicate UpInv(w: World) {
    if IsUp(w) then w.system.process.db.tables == w.server.tables && T.SerialAt([], w.server)
    else w.kept == |w.server.log| && w.server.active == map[]
  }

  ghost predicate Inv(w: World) {
    && C.Inv(w.system) && T.Inv(w.server)
    && w.acked <= w.kept <= |w.server.log|
    && Same(w.system.stable, T.Serial([], w.server.log[..w.kept]))
    && UpInv(w)
  }

  lemma NothingSorted()
    ensures Sorted<Table>([])
  {
  }

  /** The commit log of the server only grows, by one body at a time. */
  lemma LogGrows(s: T.Server, a: T.Action)
    ensures var t := T.Step(s, a);
            && s.log <= t.log && |t.log| <= |s.log| + 1
            && (t.log == s.log && a.c in s.active ==> t.tables == s.tables)
  {
    hide T.Execute, Refresh;
  }

  /** Work on a private copy shows neither in the tables nor in the log. */
  lemma PrivateWork(s: T.Server, a: T.Action)
    requires (a.Exec? || a.Rollback?) && a.c in s.active
    ensures T.Step(s, a).tables == s.tables && T.Step(s, a).log == s.log
  {
    hide T.Execute, Refresh;
  }

  /** What the machine does with a client's request. */
  lemma Requested(s: C.System, before: T.Server, after: T.Server)
    requires s.process.Up? && s.process.db.tables == before.tables
    requires s.process.op == C.Idle || (after.tables == before.tables && after.log == before.log)
    requires |after.log| > |before.log| ==> C.CountersLeft(s.process.db)
    ensures var t := C.Step(s, Request(before, after));
            t.process.Up? && t.process.db.tables == after.tables && t.stable == s.stable
  {
    hide User;
  }

  lemma ClientKeeps(w: World, a: T.Action)
    requires Inv(w) && Good(w, Client(a))
    ensures Inv(Step(w, Client(a)))
  {
    hide C.Inv, T.Inv, T.SerialAt, T.Step, C.Step, Same, T.CleanStep, S.Fits, T.Serial, Request, C.CountersLeft;
    if Step(w, Client(a)) != w {
      var server := T.Step(w.server, a);
      LogGrows(w.server, a);
      if w.system.process.op != C.Idle {
        PrivateWork(w.server, a);
      }
      NothingSorted();
      T.CleanStepKeeps([], w.server, a);
      RequestFits(w.server, server);
      C.StepKeeps(w.system, Request(w.server, server));
      Requested(w.system, w.server, server);
      assert server.log[..w.kept] == w.server.log[..w.kept];
    }
  }

  lemma RequestFits(before: T.Server, after: T.Server)
    requires S.Fits(after.tables)
    ensures C.Fitting(Request(before, after))
  {
    hide S.Fits, User;
  }

  /** What a machine step makes stable, and what it does to the tables in memory. */
  lemma MachineEffect(s: C.System, a: C.Action)
    requires C.Inv(s) && !a.Commit? && !a.Refresh? && !a.Leave?
    ensures var t := C.Step(s, a);
            && t.stable == (if Settles(s, a) then s.process.db.tables else s.stable)
            && (s.process.Up? && t.process.Up? ==> t.process.db.tables == s.process.db.tables)
            && (!s.process.Up? && t.process.Up? ==> t.process.db.tables == s.stable && S.Fits(s.stable))
  {
    hide Wal.Records, Wal.EncodeAll, Log, LastCommit, Wal.Whole, User, C.DataTables, S.Fits, S.Load, S.Serialize, ReplayAll;
  }

  lemma MachineKeeps(w: World, a: C.Action)
    requires Inv(w)
    ensures Inv(Step(w, Machine(a)))
  {
    hide C.Inv, T.Inv, T.SerialAt, C.Step, Same, S.Fits, T.Serial, Settles, Sorted;
    if !a.Commit? && !a.Refresh? && !a.Leave? {
      C.StepKeeps(w.system, a);
      MachineEffect(w.system, a);
      var next := Step(w, Machine(a));
      AcknowledgedSettles(w.system, a);
      var log := w.server.log;
      assert log[..|log|] == log;
      assert log[..next.kept][..next.kept] == log[..next.kept];
      if Settles(w.system, a) {
        SettlesUp(w.system, a);
        SerialMeans(w.server);
      }
      if !IsUp(next) {
        Idled(w.server, log[..next.kept]);
      } else if !IsUp(w) {
        FitsSorted(w.system.stable);
        Restarted(w.server, w.system.stable);
      }
    }
  }

  lemma AcknowledgedSettles(s: C.System, a: C.Action)
    ensures Acknowledges(s, a) ==> Settles(s, a)
  {
  }

  lemma SettlesUp(s: C.System, a: C.Action)
    requires Settles(s, a)
    ensures s.process.Up?
  {
  }

  lemma SerialMeans(s: T.Server)
    ensures T.SerialAt([], s) ==> Same(s.tables, T.Serial([], s.log))
  {
  }

  lemma FitsSorted(ts: Tables)
    requires S.Fits(ts)
    ensures Sorted(ts)
  {
  }

  /** The process is gone, and with it all connections. */
  lemma Idled(s: T.Server, log: seq<seq<T.Statement>>)
    requires T.Inv(s)
    ensures T.Inv(s.(active := map[], log := log))
  {
    hide T.TxnInv, Sorted;
  }

  /** It is back, with the recovered tables. */
  lemma Restarted(s: T.Server, ts: Tables)
    requires s.active == map[] && Sorted(ts) && Same(ts, T.Serial([], s.log))
    ensures T.Inv(s.(tables := ts)) && T.SerialAt([], s.(tables := ts))
  {
    hide Sorted, T.Serial, User;
  }

  lemma InitKeeps()
    ensures Inv(Init())
  {
    hide C.Inv;
    C.InitInv();
    NothingSorted();
  }

  lemma {:induction false} RunKeeps(actions: seq<Action>)
    requires GoodRun(actions)
    ensures Inv(Run(actions))
  {
    hide Inv, Step, Good;
    if actions == [] {
      InitKeeps();
    } else {
      RunKeeps(Front(actions));
      if Last(actions).Client? {
        ClientKeeps(Run(Front(actions)), Last(actions).act);
      } else {
        MachineKeeps(Run(Front(actions)), Last(actions).step);
      }
    }
  }

  // ---- What is recovered ----

  /** The user tables are what a front part of the commit log makes, one body after another. */
  ghost predicate SerialPrefix(ts: Tables, log: seq<seq<T.Statement>>, least: nat, n: nat) {
    least <= n <= |log| && Same(ts, T.Serial([], log[..n]))
  }

  /**
   * With sync_on_commit, after any interleaving of clients, checkpoints, crashes and restarts, a crash at any cut
   * recovers the serial execution of a front part of the commit log that holds every acknowledged commit.
   */
  lemma RecoveredIsSerial(actions: seq<Action>, k: nat) returns (n: nat)
    requires GoodRun(actions)
    requires var d := Run(actions).system.disk; d.synced <= k <= |d.wal|
    ensures var w := Run(actions);
            var r := C.Reopened(C.Cut(w.system.disk, k));
            r.Replay? && SerialPrefix(r.tables, w.server.log, w.acked, n)
  {
    hide Run, C.Inv, T.Inv, C.Reopened, Wal.Records, T.Serial, Same, C.Standing, GoodRun;
    RunKeeps(actions);
    var w := Run(actions);
    C.InvIsCrashSafe(w.system, k);
    n := if Settles(w.system, C.Crash(k)) then |w.server.log| else w.kept;
    SerialMeans(w.server);
    assert w.server.log[..|w.server.log|] == w.server.log;
  }

  // ---- Acknowledged commits ----

  lemma AcknowledgedStep(w: World, a: Action)
    requires Inv(w)
    ensures var v := Step(w, a);
            w.acked <= v.acked && w.acked <= |v.server.log| && v.server.log[..w.acked] == w.server.log[..w.acked]
  {
    hide C.Inv, T.Inv, T.SerialAt, T.Step, C.Step, Same, T.Serial, Settles, Request;
    if a.Client? {
      LogGrows(w.server, a.act);
    }
  }

  /** No crash and no later commit takes an acknowledged commit out of the log, or changes its place. */
  lemma {:induction false} AcknowledgedForever(actions: seq<Action>, more: seq<Action>)
    requires GoodRun(actions + more)
    ensures var v, w := Run(actions), Run(actions + more);
            && v.acked <= w.acked && v.acked <= |v.server.log| && v.acked <= |w.server.log|
            && w.server.log[..v.acked] == v.server.log[..v.acked]
    decreases more
  {
    hide Step, Good, Inv;
    if more == [] {
      assert actions + more == actions;
      RunKeeps(actions);
      AckedWithin(Run(actions));
    } else {
      assert Front(actions + more) == actions + Front(more) && Last(actions + more) == Last(more);
      AcknowledgedForever(actions, Front(more));
      RunKeeps(actions + Front(more));
      AcknowledgedStep(Run(actions + Front(more)), Last(more));
    }
  }

  lemma AckedWithin(w: World)
    requires Inv(w)
    ensures w.acked <= |w.server.log|
  {
  }

  /** What an open database does next while it persists a commit. */
  lemma NextOp(s: C.System)
    requires s.process.Up? && C.Loggable(s.process.db.tables)
    ensures var t := C.Step(s, C.Tick);
            match s.process.op
            case ToBegin => t.process.Up? && t.process.op.ToUpdate? && t.process.db.tables == s.process.db.tables
            case ToUpdate(_, _) => t.process.Up? && t.process.op.ToCommit? && t.process.db.tables == s.process.db.tables
            case ToCommit(_, _) => t.process.Up? && t.process.op.ToFlush? && t.process.db.tables == s.process.db.tables
            case ToFlush => t.process.Up? && t.process.op.ToSave? && t.process.db.tables == s.process.db.tables
            case ToSave => t.process.Up? && t.process.op.Idle?
            case _ => true
  {
    hide Wal.Records, Wal.Encode, S.Serialize, Snapshot, LastCommit;
  }

  lemma Ticked(w: World)
    requires IsUp(w) && C.Step(w.system, C.Tick).process.Up?
    ensures var v := Step(w, Machine(C.Tick));
            && v.server == w.server && v.system == C.Step(w.system, C.Tick)
            && v.acked == if w.system.process.op.ToSave? then |w.server.log| else w.acked
  {
    hide C.Step;
  }

  const TICK := Machine(C.Tick)

  /**
   * A commit of a client that fits a log record, left in peace, is acknowledged: an autocommit statement that wrote, or
   * a transaction that did not lose the race.
   */
  lemma AcknowledgedInPeace(actions: seq<Action>, act: T.Action)
    requires var w := Run(actions);
             && IsUp(w) && w.system.process.op.Idle? && C.CountersLeft(w.system.process.db)
             && T.Step(w.server, act).log != w.server.log && C.Loggable(T.Step(w.server, act).tables)
    ensures var w, v := Run(actions), Run(actions + [Client(act), TICK, TICK, TICK, TICK, TICK]);
            && IsUp(v) && v.system.process.op.Idle? && v.server == T.Step(w.server, act)
            && v.acked == |v.server.log| == |w.server.log| + 1
  {
    hide C.Step, T.Step, Step, C.Loggable, C.CountersLeft, Run;
    var w := Run(actions);
    CommitAccepted(w, act);
    var w1 := Step(w, Client(act));
    NextOp(w1.system);
    Ticked(w1);
    var w2 := Step(w1, TICK);
    NextOp(w2.system);
    Ticked(w2);
    var w3 := Step(w2, TICK);
    NextOp(w3.system);
    Ticked(w3);
    var w4 := Step(w3, TICK);
    NextOp(w4.system);
    Ticked(w4);
    var w5 := Step(w4, TICK);
    NextOp(w5.system);
    Ticked(w5);
    SixActions(actions, Client(act));
  }

  /** The machine takes the commit of a client when it is idle. */
  lemma CommitAccepted(w: World, act: T.Action)
    requires IsUp(w) && w.system.process.op.Idle? && C.CountersLeft(w.system.process.db)
    requires T.Step(w.server, act).log != w.server.log
    ensures var server, v := T.Step(w.server, act), Step(w, Client(act));
            && |server.log| == |w.server.log| + 1
            && v.server == server && v.system.process == C.Up(w.system.process.db.(tables := server.tables), C.ToBegin)
  {
    hide T.Step;
    LogGrows(w.server, act);
  }

  lemma SixActions(actions: seq<Action>, a: Action)
    ensures Run(actions + [a, TICK, TICK, TICK, TICK, TICK])
         == Step(Step(Step(Step(Step(Step(Run(actions), a), TICK), TICK), TICK), TICK), TICK)
  {
    hide Step, Run;
    RunOne(actions, a);
    RunOne(actions + [a], TICK);
    RunOne(actions + [a] + [TICK], TICK);
    RunOne(actions + [a] + [TICK] + [TICK], TICK);
    RunOne(actions + [a] + [TICK] + [TICK] + [TICK], TICK);
    RunOne(actions + [a] + [TICK] + [TICK] + [TICK] + [TICK], TICK);
    assert actions + [a] + [TICK] + [TICK] + [TICK] + [TICK] + [TICK] == actions + [a, TICK, TICK, TICK, TICK, TICK];
  }

  lemma RunOne(actions: seq<Action>, a: Action)
    ensures Run(actions + [a]) == Step(Run(actions), a)
  {
    hide Step;
    assert Front(actions + [a]) == actions;
  }
}
