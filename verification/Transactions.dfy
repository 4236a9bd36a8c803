/**
 * Connections over one shared database: private copies, a database-wide generation check at commit, and
 * autocommit. What every interleaving leaves behind is what the committed bodies do one after another.
 */
module Transactions {
  import opened Bytes
  import opened OrderedMap
  import opened Values
  import opened Constraints
  import opened Catalog

  // ---- Statements ----

  /** A statement after parsing; the closures stand for evaluating its expressions on a row. */
  datatype Statement =
    | Create(name: Bytes, schema: seq<Column>, ifNotExists: bool)
    | Drop(name: Bytes)
    | Insert(name: Bytes, rows: seq<Option<Row>>)
    | Update(name: Bytes, where: Row -> Selection, assign: Row -> Option<Row>)
    | Delete(name: Bytes, where: Row -> Selection)
    | Select

  datatype Outcome = Wrote | OnlyRead | Failed

  ghost function Written(ts: Tables, name: Bytes, r: (Table, bool)): (Tables, Outcome) {
    (Assign(ts, name, r.0), if r.1 then Wrote else Failed)
  }

  /** The effect of a statement on tables whose catalog is fresh; a failed one may leave some of its rows. */
  ghost function Apply(ts: Tables, st: Statement): (Tables, Outcome) {
    match st
    case Create(name, schema, ifNotExists) =>
      if Lookup(ts, name).Some? then (ts, if ifNotExists then OnlyRead else Failed)
      else (Emplace(ts, name, Table(schema, [])), Wrote)
    case Drop(name) =>
      if Lookup(ts, name).None? then (ts, Failed) else (Erase(ts, name), Wrote)
    case Insert(name, rows) =>
      if Lookup(ts, name).None? then (ts, Failed)
      else Written(ts, name, InsertRows(Lookup(ts, name).value, rows))
    case Update(name, where, assign) =>
      if Lookup(ts, name).None? then (ts, Failed)
      else Written(ts, name, UpdateRows(Lookup(ts, name).value, 0, where, assign))
    case Delete(name, where) =>
      if Lookup(ts, name).None? then (ts, Failed)
      else Written(ts, name, DeleteRows(Lookup(ts, name).value, where))
    case Select => (ts, OnlyRead)
  }

  /** The table a statement makes of the one it names, or none if it drops it, and whether it succeeds. */
  ghost function NamedTable(t: Option<Table>, st: Statement): (Option<Table>, Outcome)
    requires !st.Select?
  {
    match st
    case Create(_, schema, ifNotExists) =>
      if t.Some? then (t, if ifNotExists then OnlyRead else Failed) else (Some(Table(schema, [])), Wrote)
    case Drop(_) => (None, if t.Some? then Wrote else Failed)
    case Insert(_, rows) =>
      if t.None? then (None, Failed)
      else (Some(InsertRows(t.value, rows).0), if InsertRows(t.value, rows).1 then Wrote else Failed)
    case Update(_, where, assign) =>
      if t.None? then (None, Failed)
      else
        (Some(UpdateRows(t.value, 0, where, assign).0), if UpdateRows(t.value, 0, where, assign).1 then Wrote else Failed)
    case Delete(_, where) =>
      if t.None? then (None, Failed)
      else (Some(DeleteRows(t.value, where).0), if DeleteRows(t.value, where).1 then Wrote else Failed)
  }

  /** A statement has its effect on the table it names, and none on any other. */
  lemma StatementEffect(ts: Tables, st: Statement, name: Bytes)
    requires Sorted(ts)
    ensures var (after, outcome) := Apply(ts, st);
            if st.Select? then after == ts && outcome == OnlyRead
            else
              && outcome == NamedTable(Lookup(ts, st.name), st).1
              && Lookup(after, name) == if name == st.name then NamedTable(Lookup(ts, name), st).0 else Lookup(ts, name)
  {
    hide InsertRows, UpdateRows, DeleteRows, Less, Lookup, Emplace, Assign, Erase;
    match st
    case Create(n, schema, _) =>
      if Lookup(ts, n).None? { LookupEmplace(ts, n, Table(schema, []), name); }
    case Drop(n) => LookupErase(ts, n, name);
    case Insert(n, rows) =>
      if Lookup(ts, n).Some? { LookupAssign(ts, n, InsertRows(Lookup(ts, n).value, rows).0, name); }
    case Update(n, where, assign) =>
      if Lookup(ts, n).Some? { LookupAssign(ts, n, UpdateRows(Lookup(ts, n).value, 0, where, assign).0, name); }
    case Delete(n, where) =>
      if Lookup(ts, n).Some? { LookupAssign(ts, n, DeleteRows(Lookup(ts, n).value, where).0, name); }
    case Select =>
  }

  /** What a DROP that succeeds, and a CREATE, do. */
  lemma DropAndCreate(ts: Tables, name: Bytes, schema: seq<Column>, ifNotExists: bool)
    requires Sorted(ts)
    ensures var (after, outcome) := Apply(ts, Drop(name));
            (outcome == Wrote <==> Lookup(ts, name).Some?) && outcome != OnlyRead && Lookup(after, name) == None
    ensures var (after, outcome) := Apply(ts, Create(name, schema, ifNotExists));
            && (outcome == Wrote <==> Lookup(ts, name).None?)
            && (outcome == OnlyRead <==> Lookup(ts, name).Some? && ifNotExists)
            && Lookup(after, name) == if outcome == Wrote then Some(Table(schema, [])) else Lookup(ts, name)
  {
    hide Apply, Lookup;
    StatementEffect(ts, Drop(name), name);
    StatementEffect(ts, Create(name, schema, ifNotExists), name);
  }

  ghost function Execute(ts: Tables, st: Statement): (Tables, Outcome) {
    Apply(Refresh(ts), st)
  }

  ghost function RunBody(ts: Tables, body: seq<Statement>): Tables {
    if body == [] then ts else Execute(RunBody(ts, body[..|body| - 1]), body[|body| - 1]).0
  }

  // ---- The server ----

  datatype Txn = Txn(tables: Tables, start: nat, body: seq<Statement>)

  /** log and starts are history: the committed bodies in commit order and the generations they started from. */
  datatype Server = Server(
    tables: Tables,
    generation: nat,
    active: map<nat, Txn>,
    log: seq<seq<Statement>>,
    starts: seq<nat>)

  datatype Action = Begin(c: nat) | Exec(c: nat, st: Statement) | Commit(c: nat) | Rollback(c: nat)

  function Init(ts: Tables): Server {
    Server(ts, 0, map[], [], [])
  }

  ghost function Step(s: Server, a: Action): Server {
    match a
    case Begin(c) =>
      if c in s.active then s else s.(active := s.active[c := Txn(s.tables, s.generation, [])])
    case Exec(c, st) =>
      if c in s.active then
        var t := s.active[c];
        s.(active := s.active[c := Txn(Execute(t.tables, st).0, t.start, t.body + [st])])
      else
        var (ts, outcome) := Execute(s.tables, st);
        if outcome.Wrote? then
          Server(ts, s.generation + 1, s.active, s.log + [[st]], s.starts + [s.generation])
        else s.(tables := ts)
    case Commit(c) =>
      if c !in s.active then s
      else if s.active[c].start != s.generation then s.(active := s.active - {c})
      else
        Server(Refresh(s.active[c].tables), s.generation + 1, s.active - {c}, s.log + [s.active[c].body],
               s.starts + [s.active[c].start])
    case Rollback(c) => s.(active := s.active - {c})
  }

  ghost function Run(init: Tables, actions: seq<Action>): Server {
    if actions == [] then Init(init)
    else Step(Run(init, actions[..|actions| - 1]), actions[|actions| - 1])
  }

  /** The reference: whole bodies, one after another, on one set of tables. */
  ghost function Serial(init: Tables, log: seq<seq<Statement>>): Tables {
    if log == [] then init else RunBody(Serial(init, log[..|log| - 1]), log[|log| - 1])
  }

  // ---- Sorted tables stay sorted ----

  lemma ApplySorted(ts: Tables, st: Statement)
    requires Sorted(ts)
    ensures Sorted(Apply(ts, st).0)
  {
    hide InsertRows, UpdateRows, DeleteRows, Less, Lookup, Emplace, Assign, Erase;
    match st
    case Create(name, schema, _) => EmplaceSorted(ts, name, Table(schema, []));
    case Drop(name) => EraseSorted(ts, name);
    case Insert(name, rows) =>
      if Lookup(ts, name).Some? { AssignSorted(ts, name, InsertRows(Lookup(ts, name).value, rows).0); }
    case Update(name, where, assign) =>
      if Lookup(ts, name).Some? { AssignSorted(ts, name, UpdateRows(Lookup(ts, name).value, 0, where, assign).0); }
    case Delete(name, where) =>
      if Lookup(ts, name).Some? { AssignSorted(ts, name, DeleteRows(Lookup(ts, name).value, where).0); }
    case Select =>
  }

  lemma ExecuteSorted(ts: Tables, st: Statement)
    requires Sorted(ts)
    ensures Sorted(Execute(ts, st).0)
  {
    hide Refresh, Apply, Sorted;
    RefreshKeepsUser(ts);
    ApplySorted(Refresh(ts), st);
  }

  lemma {:induction false} RunBodySorted(ts: Tables, body: seq<Statement>)
    requires Sorted(ts)
    ensures Sorted(RunBody(ts, body))
  {
    hide Execute, Sorted;
    if body != [] {
      RunBodySorted(ts, body[..|body| - 1]);
      ExecuteSorted(RunBody(ts, body[..|body| - 1]), body[|body| - 1]);
    }
  }

  lemma {:induction false} SerialSorted(init: Tables, log: seq<seq<Statement>>)
    requires Sorted(init)
    ensures Sorted(Serial(init, log))
  {
    hide RunBody, Sorted;
    if log != [] {
      SerialSorted(init, log[..|log| - 1]);
      RunBodySorted(Serial(init, log[..|log| - 1]), log[|log| - 1]);
    }
  }

  /** A body sees the user tables only: the catalog is recomputed before each statement. */
  lemma {:induction false} BodyOfUser(a: Tables, b: Tables, body: seq<Statement>)
    requires Sorted(a) && Sorted(b) && Same(a, b)
    ensures Same(RunBody(a, body), RunBody(b, body))
  {
    hide User, Apply, Refresh, Sorted;
    if body != [] {
      var front := body[..|body| - 1];
      BodyOfUser(a, b, front);
      RunBodySorted(a, front);
      RunBodySorted(b, front);
      RefreshOfUser(RunBody(a, front), RunBody(b, front));
    }
  }

  // ---- The invariant ----

  /** A transaction that could still commit holds what its body makes of the shared tables. */
  ghost predicate TxnInv(s: Server, t: Txn) {
    && Sorted(t.tables) && t.start <= s.generation
    && (t.start == s.generation ==> Same(t.tables, RunBody(s.tables, t.body)))
  }

  ghost predicate Inv(s: Server) {
    && Sorted(s.tables)
    && forall c :: c in s.active ==> TxnInv(s, s.active[c])
  }

  ghost predicate SerialAt(init: Tables, s: Server) {
    Same(s.tables, Serial(init, s.log))
  }

  /** A failed autocommit statement is clean when it left the user tables alone. */
  ghost predicate CleanStep(s: Server, a: Action) {
    a.Exec? && a.c !in s.active && Execute(s.tables, a.st).1.Failed? ==> Same(Execute(s.tables, a.st).0, s.tables)
  }

  ghost predicate Clean(init: Tables, actions: seq<Action>) {
    actions == [] ||
    (Clean(init, actions[..|actions| - 1])
     && CleanStep(Run(init, actions[..|actions| - 1]), actions[|actions| - 1]))
  }

  lemma ReadingLeavesTables(ts: Tables, st: Statement)
    requires Sorted(ts) && Execute(ts, st).1.OnlyRead?
    ensures Same(Execute(ts, st).0, ts)
  {
    hide User, Refresh, InsertRows, UpdateRows, DeleteRows, Sorted, Lookup;
    RefreshKeepsUser(ts);
  }

  /** Other transactions keep their invariant when the user tables stay the same. */
  lemma TxnKept(s: Server, s': Server, t: Txn)
    requires Sorted(s.tables) && Sorted(s'.tables) && TxnInv(s, t)
    requires s'.generation > s.generation || (s'.generation == s.generation && Same(s.tables, s'.tables))
    ensures TxnInv(s', t)
  {
    hide User, RunBody, Sorted;
    if s'.generation == s.generation {
      BodyOfUser(s.tables, s'.tables, t.body);
    }
  }

  lemma ExecInTxn(s: Server, c: nat, st: Statement)
    requires Inv(s) && c in s.active
    ensures Inv(Step(s, Exec(c, st)))
  {
    hide User, Refresh, Apply, Sorted, RunBody;
    var t := s.active[c];
    var body := t.body + [st];
    ExecuteSorted(t.tables, st);
    if t.start == s.generation {
      RunBodySorted(s.tables, t.body);
      RefreshOfUser(t.tables, RunBody(s.tables, t.body));
      BodySnoc(s.tables, t.body, st);
    }
  }

  lemma BodySnoc(ts: Tables, body: seq<Statement>, st: Statement)
    ensures RunBody(ts, body + [st]) == Execute(RunBody(ts, body), st).0
  {
    hide Execute;
    assert (body + [st])[..|body|] == body;
  }

  lemma SerialSnoc(init: Tables, log: seq<seq<Statement>>, body: seq<Statement>)
    ensures Serial(init, log + [body]) == RunBody(Serial(init, log), body)
  {
    hide RunBody;
    assert (log + [body])[..|log|] == log;
  }

  lemma AutocommitStep(init: Tables, s: Server, c: nat, st: Statement)
    requires Sorted(init) && Inv(s) && SerialAt(init, s) && c !in s.active && CleanStep(s, Exec(c, st))
    ensures Inv(Step(s, Exec(c, st))) && SerialAt(init, Step(s, Exec(c, st)))
  {
    hide User, Refresh, Apply, Sorted, RunBody, Serial, TxnInv;
    var s' := Step(s, Exec(c, st));
    ExecuteSorted(s.tables, st);
    if Execute(s.tables, st).1.Wrote? {
      SerialSnoc(init, s.log, [st]);
      SerialSorted(init, s.log);
      BodyOfUser(s.tables, Serial(init, s.log), [st]);
      BodyOfOne(s.tables, st);
    } else if Execute(s.tables, st).1.OnlyRead? {
      ReadingLeavesTables(s.tables, st);
    }
    forall d | d in s'.active
      ensures TxnInv(s', s'.active[d])
    {
      TxnKept(s, s', s.active[d]);
    }
  }

  lemma BodyOfOne(ts: Tables, st: Statement)
    ensures RunBody(ts, [st]) == Execute(ts, st).0
  {
    hide Execute;
    assert [st][..0] == [];
  }

  lemma CommitStep(init: Tables, s: Server, c: nat)
    requires Sorted(init) && Inv(s) && SerialAt(init, s)
    ensures Inv(Step(s, Commit(c))) && SerialAt(init, Step(s, Commit(c)))
  {
    hide User, Refresh, Apply, Sorted, RunBody, Serial, TxnInv;
    var s' := Step(s, Commit(c));
    if c in s.active && s.active[c].start == s.generation {
      var t := s.active[c];
      assert Sorted(t.tables) && Same(t.tables, RunBody(s.tables, t.body)) by { TxnMeaning(s, t); }
      RefreshKeepsUser(t.tables);
      SerialSnoc(init, s.log, t.body);
      SerialSorted(init, s.log);
      BodyOfUser(s.tables, Serial(init, s.log), t.body);
    }
    forall d | d in s'.active
      ensures TxnInv(s', s'.active[d])
    {
      TxnKept(s, s', s.active[d]);
    }
  }

  lemma TxnMeaning(s: Server, t: Txn)
    requires TxnInv(s, t)
    ensures Sorted(t.tables)
    ensures t.start == s.generation ==> Same(t.tables, RunBody(s.tables, t.body))
  {
  }

  lemma BeginStep(s: Server, c: nat)
    requires Inv(s)
    ensures Inv(Step(s, Begin(c))) && Inv(Step(s, Rollback(c)))
  {
    hide User, Sorted;
  }

  lemma CleanStepKeeps(init: Tables, s: Server, a: Action)
    requires Sorted(init) && Inv(s) && SerialAt(init, s) && CleanStep(s, a)
    ensures Inv(Step(s, a)) && SerialAt(init, Step(s, a))
  {
    hide Inv, User, Execute, Refresh, Serial;
    match a
    case Begin(c) => BeginStep(s, c);
    case Rollback(c) => BeginStep(s, c);
    case Commit(c) => CommitStep(init, s, c);
    case Exec(c, st) =>
      if c in s.active {
        ExecInTxn(s, c, st);
      } else {
        AutocommitStep(init, s, c, st);
      }
  }

  // ---- Serializability ----

  lemma {:induction false} CleanRunIsSerial(init: Tables, actions: seq<Action>)
    requires Sorted(init) && Clean(init, actions)
    ensures Inv(Run(init, actions)) && SerialAt(init, Run(init, actions))
  {
    hide Step, SerialAt, CleanStep, Inv;
    if actions == [] {
      InitSerial(init);
    } else {
      var front := actions[..|actions| - 1];
      CleanRunIsSerial(init, front);
      CleanStepKeeps(init, Run(init, front), actions[|actions| - 1]);
    }
  }

  lemma InitSerial(init: Tables)
    requires Sorted(init)
    ensures Inv(Init(init)) && SerialAt(init, Init(init))
  {
  }

  /** The shared tables are those of the serial execution after every prefix of the run. */
  ghost predicate AlwaysSerial(init: Tables, actions: seq<Action>) {
    SerialAt(init, Run(init, actions)) && (actions == [] || AlwaysSerial(init, actions[..|actions| - 1]))
  }

  lemma DirtyStepShows(init: Tables, s: Server, a: Action)
    requires SerialAt(init, s) && !CleanStep(s, a)
    ensures !SerialAt(init, Step(s, a))
  {
    hide User, Execute, Serial;
  }

  /**
   * In every interleaving, the shared tables equal the committed bodies run one after another throughout,
   * exactly when no failed autocommit statement left some of its rows behind.
   */
  lemma {:induction false} SerializableExactly(init: Tables, actions: seq<Action>)
    requires Sorted(init)
    ensures AlwaysSerial(init, actions) <==> Clean(init, actions)
  {
    hide Step, SerialAt, CleanStep, Inv;
    if actions == [] {
      InitSerial(init);
    } else {
      var front := actions[..|actions| - 1];
      SerializableExactly(init, front);
      if Clean(init, front) {
        CleanRunIsSerial(init, front);
        if CleanStep(Run(init, front), actions[|actions| - 1]) {
          CleanRunIsSerial(init, actions);
        } else {
          DirtyStepShows(init, Run(init, front), actions[|actions| - 1]);
        }
      }
    }
  }

  lemma UserEntryKept(ts: Tables, name: Bytes, t: Table)
    requires Sorted(ts) && (name, t) in ts && !IsCatalog(name)
    ensures Sorted(Refresh(ts)) && (name, t) in Refresh(ts) && Lookup(Refresh(ts), name) == Some(t)
  {
    hide User, Refresh, Less;
    UserSorted(ts);
    RefreshEntries(ts);
    LookupFinds(Refresh(ts), name, t);
  }

  /** Writing a table back shows in the user tables exactly when the table is another one. */
  lemma WriteShows(ts: Tables, name: Bytes, t: Table, t': Table)
    requires Sorted(ts) && (name, t) in ts && !IsCatalog(name)
    ensures Same(Assign(Refresh(ts), name, t'), ts) <==> t' == t
  {
    hide User, Refresh, Less, Assign, IsCatalog;
    var r := Refresh(ts);
    var w := Assign(r, name, t');
    UserEntryKept(ts, name, t);
    RefreshKeepsUser(ts);
    AssignSorted(r, name, t');
    if t' == t {
      forall e | e in r
        ensures e in w
      {
        if e.0 == name {
          LookupFinds(r, name, e.1);
        }
      }
      SortedUnique(w, r);
    } else if Same(w, ts) {
      UserSorted(w);
      UserSorted(ts);
      assert (name, t') in User(ts);
      LookupFinds(ts, name, t);
      LookupFinds(ts, name, t');
    }
  }

  /** The statement gets as far as changing a row of its table. */
  ghost predicate Touches(t: Table, st: Statement) {
    match st
    case Insert(_, rows) => rows != [] && rows[0].Some? && Accepts(t, rows[0].value, None)
    case Update(_, where, assign) => ChangesFirst(t, 0, where, assign)
    case _ => false
  }

  lemma InsertCleanExactly(s: Server, c: nat, name: Bytes, t: Table, rows: seq<Option<Row>>)
    requires Sorted(s.tables) && (name, t) in s.tables && !IsCatalog(name) && TableValid(t)
    requires c !in s.active && !InsertRows(t, rows).1
    ensures CleanStep(s, Exec(c, Insert(name, rows))) <==> !Touches(t, Insert(name, rows))
  {
    hide User, Refresh, Less, Assign, IsCatalog, Lookup, Accepts, TableValid, Same;
    UserEntryKept(s.tables, name, t);
    WriteShows(s.tables, name, t, InsertRows(t, rows).0);
    FailedInsertTrace(t, rows);
  }

  lemma UpdateCleanExactly(s: Server, c: nat, name: Bytes, t: Table, where: Row -> Selection, assign: Row -> Option<Row>)
    requires Sorted(s.tables) && (name, t) in s.tables && !IsCatalog(name) && TableValid(t)
    requires c !in s.active && !UpdateRows(t, 0, where, assign).1
    ensures CleanStep(s, Exec(c, Update(name, where, assign))) <==> !Touches(t, Update(name, where, assign))
  {
    hide User, Refresh, Less, Assign, IsCatalog, Lookup, Accepts, TableValid, Same, UpdateRows, ChangesFirst;
    UserEntryKept(s.tables, name, t);
    WriteShows(s.tables, name, t, UpdateRows(t, 0, where, assign).0);
    UpdateTrace(t, 0, where, assign);
  }

  lemma DeleteIsClean(s: Server, c: nat, name: Bytes, t: Table, where: Row -> Selection)
    requires Sorted(s.tables) && (name, t) in s.tables && !IsCatalog(name) && c !in s.active
    ensures CleanStep(s, Exec(c, Delete(name, where)))
  {
    hide User, Refresh, Less, Assign, IsCatalog, Lookup, Same, Kept;
    UserEntryKept(s.tables, name, t);
    WriteShows(s.tables, name, t, DeleteRows(t, where).0);
  }

  /**
   * A failed autocommit statement on a user table is clean exactly when the first row it would have changed
   * was refused; a caller can tell from the table as it was.
   */
  lemma CleanExactly(s: Server, c: nat, st: Statement, t: Table)
    requires AllValid(s.tables) && c !in s.active
    requires st.Insert? || st.Update? || st.Delete?
    requires (st.name, t) in s.tables && !IsCatalog(st.name) && Execute(s.tables, st).1.Failed?
    ensures CleanStep(s, Exec(c, st)) <==> !Touches(t, st)
  {
    hide User, Refresh, Less, Assign, IsCatalog, Lookup, Accepts, TableValid, Same, UpdateRows, InsertRows, DeleteRows,
         ChangesFirst, CleanStep;
    UserEntryKept(s.tables, st.name, t);
    match st
    case Insert(name, rows) => InsertCleanExactly(s, c, name, t, rows);
    case Update(name, where, assign) => UpdateCleanExactly(s, c, name, t, where, assign);
    case Delete(name, where) => DeleteIsClean(s, c, name, t, where);
  }

  // "t", with one INTEGER PRIMARY KEY column "a", and twice the key 1
  const NAME: Bytes := [116]
  const SCHEMA: seq<Column> := [Column([97], TInteger, false, true, false)]
  const ONE: Row := [Integer(1)]
  const TWICE: seq<Option<Row>> := [Some(ONE), Some(ONE)]

  /** The table with one row. */
  function DirtyTable(): Table {
    Table(SCHEMA, [ONE])
  }

  /** An INSERT of two equal keys fails and leaves its first row behind. */
  lemma DirtyInsertExists()
    ensures TableValid(Table(SCHEMA, []))
    ensures InsertRows(Table(SCHEMA, []), TWICE) == (DirtyTable(), false)
    ensures Touches(Table(SCHEMA, []), Insert(NAME, TWICE))
  {
    var t := Table(SCHEMA, []);
    var u := Table(SCHEMA, [ONE]);
    assert t.(rows := t.rows + [ONE]) == u;
    assert Accepts(t, ONE, None);
    assert Clash(u.schema, u.rows[0], ONE) by { assert Keyed(u.schema[0]) && Equal(ONE[0], ONE[0]); }
    assert TWICE[1..][0] == Some(ONE);
  }

  const DIRTY: seq<Action> := [Exec(0, Create(NAME, SCHEMA, false)), Exec(0, Insert(NAME, TWICE))]

  lemma NameIsFree()
    ensures !IsCatalog(NAME) && Sorted(Refresh([])) && forall e :: e in Refresh([]) ==> e.0 != NAME
  {
    hide Refresh;
    assert !IsCatalog(NAME) by { assert |NAME| == 1 && |TABLES| > 1 && |COLUMNS| > 1 && |INDEXES| > 1; }
    RefreshEntries([]);
  }

  lemma CreateRuns()
    ensures var s := Run([], [DIRTY[0]]);
            s.active == map[] && Sorted(s.tables) && (NAME, Table(SCHEMA, [])) in s.tables
  {
    hide Refresh, Less, Emplace, Lookup;
    NameIsFree();
    EmplaceSorted(Refresh([]), NAME, Table(SCHEMA, []));
    assert [DIRTY[0]][..0] == [];
  }

  /** A run that is not serial: a table is made in a new database, and two equal keys are put into it. */
  lemma DirtyRunExists()
    ensures !Clean([], DIRTY) && !AlwaysSerial([], DIRTY)
  {
    hide Step, AlwaysSerial, CleanStep, TableValid, InsertRows, IsCatalog;
    assert DIRTY[..1] == [DIRTY[0]];
    NameIsFree();
    CreateRuns();
    DirtyInsertExists();
    InsertCleanExactly(Run([], [DIRTY[0]]), 0, NAME, Table(SCHEMA, []), TWICE);
    SerializableExactly([], DIRTY);
  }

  /** On every run, clean or not, each start generation commits at most once. */
  lemma {:induction false} OneCommitPerGeneration(init: Tables, actions: seq<Action>)
    ensures var s := Run(init, actions);
            && |s.starts| == |s.log| == s.generation
            && forall i :: 0 <= i < |s.starts| ==> s.starts[i] == i
  {
    hide Execute, Refresh;
    if actions != [] {
      OneCommitPerGeneration(init, actions[..|actions| - 1]);
    }
  }

  // ---- Transactions that do not commit ----

  ghost function Steps(s: Server, actions: seq<Action>): Server {
    if actions == [] then s else Step(Steps(s, actions[..|actions| - 1]), actions[|actions| - 1])
  }

  lemma {:induction false} RunThenSteps(init: Tables, a: seq<Action>, b: seq<Action>)
    ensures Run(init, a + b) == Steps(Run(init, a), b)
    decreases b
  {
    hide Step;
    if b == [] {
      assert a + b == a;
    } else {
      assert (a + b)[..|a + b| - 1] == a + b[..|b| - 1];
      RunThenSteps(init, a, b[..|b| - 1]);
    }
  }

  lemma StepsSnoc(s: Server, actions: seq<Action>, a: Action)
    ensures Steps(s, actions + [a]) == Step(Steps(s, actions), a)
  {
    hide Step;
    assert (actions + [a])[..|actions|] == actions;
  }

  /** The connection works on its own copy, ends it, or tries a commit that loses the race. */
  predicate Quiet(s: Server, a: Action) {
    match a
    case Begin(_) => true
    case Rollback(_) => true
    case Exec(c, _) => c in s.active
    case Commit(c) => c in s.active ==> s.active[c].start != s.generation
  }

  ghost predicate QuietSteps(s: Server, actions: seq<Action>, c: nat) {
    actions == [] ||
    (&& QuietSteps(s, actions[..|actions| - 1], c)
     && (actions[|actions| - 1].c == c ==> Quiet(Steps(s, actions[..|actions| - 1]), actions[|actions| - 1])))
  }

  /** The actions as if the connection had not been there. */
  function Omit(actions: seq<Action>, c: nat): seq<Action> {
    if actions == [] then []
    else
      var a := actions[|actions| - 1];
      Omit(actions[..|actions| - 1], c) + if a.c == c then [] else [a]
  }

  /** What everyone but the connection can see. */
  function Visible(s: Server, c: nat): Server {
    s.(active := s.active - {c})
  }

  lemma QuietShowsNothing(s: Server, a: Action)
    requires Quiet(s, a)
    ensures Visible(Step(s, a), a.c) == Visible(s, a.c)
  {
    hide Execute, Refresh;
  }

  lemma OthersSeeTheSame(s: Server, a: Action, c: nat)
    requires a.c != c
    ensures Visible(Step(s, a), c) == Step(Visible(s, c), a)
  {
    hide Execute, Refresh;
    var t, v := Step(s, a), Step(Visible(s, c), a);
    assert (t.active - {c}).Keys == v.active.Keys;
  }

  /** While a connection is quiet, all others see what they would see without it. */
  lemma {:induction false} QuietLeavesNoTrace(s: Server, actions: seq<Action>, c: nat)
    requires QuietSteps(s, actions, c)
    ensures Visible(Steps(s, actions), c) == Visible(Steps(s, Omit(actions, c)), c)
    decreases actions
  {
    hide Step, Quiet, Visible;
    if actions != [] {
      var front, a := actions[..|actions| - 1], actions[|actions| - 1];
      var rest := Omit(front, c);
      QuietLeavesNoTrace(s, front, c);
      if a.c == c {
        QuietShowsNothing(Steps(s, front), a);
        assert Omit(actions, c) == rest;
      } else {
        OthersSeeTheSame(Steps(s, front), a, c);
        OthersSeeTheSame(Steps(s, rest), a, c);
        assert Omit(actions, c) == rest + [a];
        StepsSnoc(s, rest, a);
      }
    }
  }

  /** Between its begin and its end, the connection executes statements, and begins in vain. */
  predicate Working(actions: seq<Action>, c: nat) {
    forall i :: 0 <= i < |actions| && actions[i].c == c ==> actions[i].Exec? || actions[i].Begin?
  }

  lemma {:induction false} StaysActive(s: Server, actions: seq<Action>, c: nat)
    requires c in s.active && Working(actions, c)
    ensures c in Steps(s, actions).active && Steps(s, actions).active[c].start == s.active[c].start
    ensures QuietSteps(s, actions, c)
    decreases actions
  {
    hide Execute, Refresh;
    if actions != [] {
      StaysActive(s, actions[..|actions| - 1], c);
    }
  }

  lemma {:induction false} StaysInactive(s: Server, actions: seq<Action>, c: nat)
    requires c !in s.active
    ensures c !in Steps(s, Omit(actions, c)).active
    decreases actions
  {
    hide Execute, Refresh;
    if actions != [] {
      var front, a := actions[..|actions| - 1], actions[|actions| - 1];
      StaysInactive(s, front, c);
      if a.c == c {
        assert Omit(actions, c) == Omit(front, c);
      } else {
        StepsSnoc(s, Omit(front, c), a);
      }
    }
  }

  /** One transaction from begin to end is nothing but its absence, for the state right behind it. */
  lemma EndedTransaction(s: Server, work: seq<Action>, end: Action)
    requires end.c !in s.active && Working(work, end.c)
    requires end.Rollback? || (end.Commit? && s.generation != Steps(Step(s, Begin(end.c)), work).generation)
    ensures Step(Steps(Step(s, Begin(end.c)), work), end) == Steps(s, Omit(work, end.c))
  {
    hide Steps, Omit, Working, QuietSteps;
    var c := end.c;
    var begun := Step(s, Begin(c));
    StaysActive(begun, work, c);
    var t := Steps(begun, work);
    QuietLeavesNoTrace(begun, work, c);
    VisibleSteps(s, begun, Omit(work, c), c, work);
    StaysInactive(s, work, c);
    assert Visible(Step(t, end), c) == Visible(t, c) by { QuietShowsNothing(t, end); }
    assert c !in Step(t, end).active && c !in Steps(s, Omit(work, c)).active;
    NothingHidden(Step(t, end), c);
    NothingHidden(Steps(s, Omit(work, c)), c);
  }

  lemma NothingHidden(s: Server, c: nat)
    requires c !in s.active
    ensures Visible(s, c) == s
  {
    assert s.active - {c} == s.active;
  }

  /** Actions of others lead states that look the same to states that look the same. */
  lemma {:induction false} VisibleSteps(s: Server, t: Server, rest: seq<Action>, c: nat, work: seq<Action>)
    requires Visible(s, c) == Visible(t, c) && rest == Omit(work, c)
    ensures Visible(Steps(s, rest), c) == Visible(Steps(t, rest), c)
    decreases work
  {
    hide Step, Visible;
    if work != [] {
      var front, a := work[..|work| - 1], work[|work| - 1];
      VisibleSteps(s, t, Omit(front, c), c, front);
      if a.c == c {
        assert rest == Omit(front, c);
      } else {
        StepsSnoc(s, Omit(front, c), a);
        StepsSnoc(t, Omit(front, c), a);
        OthersSeeTheSame(Steps(s, Omit(front, c)), a, c);
        OthersSeeTheSame(Steps(t, Omit(front, c)), a, c);
      }
    }
  }

  /**
   * A transaction that is rolled back, or whose commit loses the race, leaves no trace: with its actions taken
   * out of the run, the server ends up in the very same state, whatever its connection and the others do later.
   */
  lemma LeavesNoTrace(init: Tables, before: seq<Action>, work: seq<Action>, end: Action, after: seq<Action>)
    requires var s := Run(init, before);
             && end.c !in s.active && Working(work, end.c)
             && (end.Rollback? ||
                 (end.Commit? && s.generation != Steps(Step(s, Begin(end.c)), work).generation))
    ensures Run(init, before + ([Begin(end.c)] + work + [end]) + after)
         == Run(init, before + Omit(work, end.c) + after)
  {
    hide Step, Steps, Run, Omit, Working;
    var s, c := Run(init, before), end.c;
    EndedTransaction(s, work, end);
    RunThenSteps(init, before, [Begin(c)] + work + [end]);
    RunThenSteps(init, before, Omit(work, c));
    StepsSnoc(s, [Begin(c)] + work, end);
    StepsFrom(s, Begin(c), work);
    RunThenSteps(init, before + ([Begin(c)] + work + [end]), after);
    RunThenSteps(init, before + Omit(work, c), after);
  }

  lemma {:induction false} StepsFrom(s: Server, a: Action, rest: seq<Action>)
    ensures Steps(s, [a] + rest) == Steps(Step(s, a), rest)
    decreases rest
  {
    hide Step;
    if rest == [] {
      assert [a] + rest == [a] && [a][..0] == [];
    } else {
      var front := rest[..|rest| - 1];
      assert ([a] + rest)[..|rest|] == [a] + front;
      StepsFrom(s, a, front);
    }
  }

  // ---- Constraints over every run ----

  ghost predicate ServerValid(s: Server) {
    && AllValid(s.tables)
    && forall c :: c in s.active ==> AllValid(s.active[c].tables)
  }

  /** Few enough tables for their ids to stay apart as doubles. */
  ghost predicate Small(s: Server) {
    && |s.tables| < EXACT - 1
    && forall c :: c in s.active ==> |s.active[c].tables| < EXACT - 1
  }

  ghost predicate StaysSmall(init: Tables, actions: seq<Action>) {
    Small(Run(init, actions)) && (actions == [] || StaysSmall(init, actions[..|actions| - 1]))
  }

  lemma AssignValid(ts: Tables, name: Bytes, t: Table)
    requires AllValid(ts) && TableValid(t)
    ensures AllValid(Assign(ts, name, t))
  {
    hide TableValid, Less, Assign;
    AssignSorted(ts, name, t);
  }

  lemma FoundValid(ts: Tables, name: Bytes)
    requires AllValid(ts) && Lookup(ts, name).Some?
    ensures TableValid(Lookup(ts, name).value)
  {
    hide TableValid, Less;
  }

  lemma ApplyKeepsValid(ts: Tables, st: Statement)
    requires AllValid(ts)
    ensures AllValid(Apply(ts, st).0)
  {
    hide InsertRows, UpdateRows, DeleteRows, Less, Lookup, Emplace, Assign, Erase, TableValid;
    if !st.Select? && !st.Create? && Lookup(ts, st.name).Some? {
      FoundValid(ts, st.name);
    }
    match st
    case Create(name, schema, _) =>
      EmplaceSorted(ts, name, Table(schema, []));
      EmptyTableValid(schema);
    case Drop(name) => EraseSorted(ts, name);
    case Insert(name, rows) =>
      if Lookup(ts, name).Some? {
        var t := Lookup(ts, name).value;
        InsertKeepsValid(t, rows);
        AssignValid(ts, name, InsertRows(t, rows).0);
      }
    case Update(name, where, assign) =>
      if Lookup(ts, name).Some? {
        var t := Lookup(ts, name).value;
        UpdateKeepsValid(t, 0, where, assign);
        AssignValid(ts, name, UpdateRows(t, 0, where, assign).0);
      }
    case Delete(name, where) =>
      if Lookup(ts, name).Some? {
        var t := Lookup(ts, name).value;
        DeleteKeepsValid(t, where);
        AssignValid(ts, name, DeleteRows(t, where).0);
      }
    case Select =>
  }

  lemma ExecuteKeepsValid(ts: Tables, st: Statement)
    requires AllValid(ts) && |ts| < EXACT - 1
    ensures AllValid(Execute(ts, st).0)
  {
    hide AllValid, Refresh, Apply;
    RefreshKeepsValid(ts);
    ApplyKeepsValid(Refresh(ts), st);
  }

  lemma StepKeepsValid(s: Server, a: Action)
    requires ServerValid(s) && Small(s)
    ensures ServerValid(Step(s, a))
  {
    hide AllValid, Refresh, Execute;
    match a
    case Begin(c) =>
    case Rollback(c) =>
    case Commit(c) =>
      if c in s.active {
        RefreshKeepsValid(s.active[c].tables);
      }
    case Exec(c, st) =>
      ExecuteKeepsValid(if c in s.active then s.active[c].tables else s.tables, st);
  }

  /** Every table of every reachable state keeps its constraints, also after statements that fail half way. */
  lemma {:induction false} ConstraintsAlwaysHold(init: Tables, actions: seq<Action>)
    requires AllValid(init) && StaysSmall(init, actions)
    ensures ServerValid(Run(init, actions))
  {
    hide AllValid, Step, Small, ServerValid;
    if actions == [] {
      InitValid(init);
    } else {
      var front := actions[..|actions| - 1];
      ConstraintsAlwaysHold(init, front);
      SmallNow(init, front);
      StepKeepsValid(Run(init, front), actions[|actions| - 1]);
    }
  }

  lemma InitValid(init: Tables)
    requires AllValid(init)
    ensures ServerValid(Init(init))
  {
  }

  lemma SmallNow(init: Tables, actions: seq<Action>)
    requires StaysSmall(init, actions)
    ensures Small(Run(init, actions))
  {
  }

  // ---- Transactions that commit ----

  /** Whether the connection has begun a transaction that it has not ended. */
  predicate InTransaction(actions: seq<Action>, c: nat) {
    actions != [] &&
    var a := actions[|actions| - 1];
    if a.c == c && !a.Exec? then a.Begin? else InTransaction(actions[..|actions| - 1], c)
  }

  lemma {:induction false} ActiveExactly(init: Tables, actions: seq<Action>, c: nat)
    ensures c in Run(init, actions).active <==> InTransaction(actions, c)
  {
    hide Execute, Refresh;
    if actions != [] {
      ActiveExactly(init, actions[..|actions| - 1], c);
    }
  }

  /** The statements of a connection, in their order. */
  function Said(actions: seq<Action>, c: nat): seq<Statement> {
    if actions == [] then []
    else
      var a := actions[|actions| - 1];
      Said(actions[..|actions| - 1], c) + if a.Exec? && a.c == c then [a.st] else []
  }

  /** A transaction works on its own copy of the tables it began with, whatever others commit meanwhile. */
  lemma {:induction false} PrivateCopy(s: Server, work: seq<Action>, c: nat)
    requires c !in s.active && Working(work, c)
    ensures var t := Steps(Step(s, Begin(c)), work);
            && c in t.active
            && t.active[c] == Txn(RunBody(s.tables, Said(work, c)), s.generation, Said(work, c))
    decreases work
  {
    hide Step, RunBody;
    BeginCopies(s, c);
    if work == [] {
      BodyOfNone(s.tables);
    } else {
      var front, a := work[..|work| - 1], work[|work| - 1];
      PrivateCopy(s, front, c);
      NextCopy(Steps(Step(s, Begin(c)), front), a, c);
      if a.c == c && a.Exec? {
        BodySnoc(s.tables, Said(front, c), a.st);
      } else {
        assert Said(work, c) == Said(front, c);
      }
    }
  }

  lemma BodyOfNone(ts: Tables)
    ensures RunBody(ts, []) == ts
  {
  }

  lemma BeginCopies(s: Server, c: nat)
    requires c !in s.active
    ensures var t := Step(s, Begin(c)); c in t.active && t.active[c] == Txn(s.tables, s.generation, [])
  {
    hide Execute, Refresh;
  }

  lemma NextCopy(s: Server, a: Action, c: nat)
    requires c in s.active && (a.c == c ==> a.Exec? || a.Begin?)
    ensures var t, t' := s.active[c], Step(s, a);
            && c in t'.active
            && t'.active[c] == if a.c == c && a.Exec? then Txn(Execute(t.tables, a.st).0, t.start, t.body + [a.st]) else t
  {
    hide Execute, Refresh;
  }

  lemma {:induction false} LogGrows(s: Server, actions: seq<Action>)
    ensures s.log <= Steps(s, actions).log
    decreases actions
  {
    hide Execute, Refresh;
    if actions != [] {
      LogGrows(s, actions[..|actions| - 1]);
    }
  }

  /**
   * A commit succeeds exactly when nothing was committed since its transaction began. It then installs what the
   * statements of the transaction make of the tables it began with; otherwise it changes nothing.
   */
  lemma CommitExactly(init: Tables, before: seq<Action>, work: seq<Action>, c: nat)
    requires !InTransaction(before, c) && Working(work, c)
    ensures var s, t := Run(init, before), Run(init, before + ([Begin(c)] + work));
            var u := Run(init, before + ([Begin(c)] + work) + [Commit(c)]);
            && u.active == t.active - {c}
            && if t.log == s.log then u.log == t.log + [Said(work, c)] && u.tables == Refresh(RunBody(s.tables, Said(work, c)))
               else u.log == t.log && u.tables == t.tables
  {
    hide Execute, Refresh, RunBody, Run, Said, Working, InTransaction, Steps;
    var s, all := Run(init, before), before + ([Begin(c)] + work);
    ActiveExactly(init, before, c);
    RunThenSteps(init, before, [Begin(c)] + work);
    StepsFrom(s, Begin(c), work);
    PrivateCopy(s, work, c);
    LogGrows(Step(s, Begin(c)), work);
    OneCommitPerGeneration(init, before);
    OneCommitPerGeneration(init, all);
    RunSnoc(init, all, Commit(c));
  }

  lemma RunSnoc(init: Tables, actions: seq<Action>, a: Action)
    ensures Run(init, actions + [a]) == Step(Run(init, actions), a)
  {
    hide Step;
    assert (actions + [a])[..|actions|] == actions;
  }

  /** Outside a transaction, a statement works on the shared tables and is committed exactly when it wrote. */
  lemma AutocommitExactly(init: Tables, before: seq<Action>, c: nat, st: Statement)
    requires !InTransaction(before, c)
    ensures var s, u := Run(init, before), Run(init, before + [Exec(c, st)]);
            && u.active == s.active && u.tables == Execute(s.tables, st).0
            && u.log == s.log + if Execute(s.tables, st).1.Wrote? then [[st]] else []
  {
    hide Execute, Refresh, Run, InTransaction;
    ActiveExactly(init, before, c);
    RunSnoc(init, before, Exec(c, st));
  }
}
