/** Replaying the log: the loop over its records, and what it finds in a log that commits wrote. */
module Recovery {
  import opened Bytes
  import opened OrderedMap
  import opened Values
  import opened Wal
  import S = Serialization

  // "TUPLESTONE-SNAPSHOT-1\n"
  const PREFIX: Bytes := [84, 85, 80, 76, 69, 83, 84, 79, 78, 69, 45, 83, 78, 65, 80, 83, 72, 79, 84, 45, 49, 10]

  const MAX64: nat := 0xFFFF_FFFF_FFFF_FFFF

  function Snapshot(ts: Tables): Bytes {
    PREFIX + S.Serialize(ts)
  }

  function Last<T>(s: seq<T>): T
    requires s != []
  {
    s[|s| - 1]
  }

  function Front<T>(s: seq<T>): seq<T>
    requires s != []
  {
    s[..|s| - 1]
  }

  // ---- Replay ----

  datatype Replay =
    | Replay(snapshots: map<U64, Bytes>, tables: Tables, largest: U64, recovered: bool)
    | InvalidSnapshot(left: Tables)

  function ReplayStep(acc: Replay, r: LogRecord): Replay {
    if acc.InvalidSnapshot? then acc
    else
      var seen := acc.(largest := if r.txn > acc.largest then r.txn else acc.largest);
      if r.kind == UPDATE && PREFIX <= r.payload then
        seen.(snapshots := seen.snapshots[r.txn := r.payload[|PREFIX|..]])
      else if r.kind == COMMIT && r.txn in seen.snapshots then
        match S.Load(seen.snapshots[r.txn])
        case Loaded(ts) => seen.(tables := ts, recovered := true, snapshots := seen.snapshots - {r.txn})
        case _ => InvalidSnapshot(seen.tables)
      else seen
  }

  function ReplayAll(rs: seq<LogRecord>, base: Tables): Replay {
    if rs == [] then Replay(map[], base, 0, false)
    else ReplayStep(ReplayAll(Front(rs), base), Last(rs))
  }

  /** The loop of RecoverCommittedTables; on an unreadable snapshot it leaves what it had replayed in memory. */
  method RecoverCommittedTables(records: seq<LogRecord>, base: Tables) returns (result: Replay)
    ensures result == ReplayAll(records, base)
  {
    hide ReplayAll, S.Load, S.Serialize;
    NothingReplayed(base);
    var snapshots: map<U64, Bytes> := map[];
    var tables, largest: U64, recovered := base, 0, false;
    var i := 0;
    while i < |records|
      invariant 0 <= i <= |records|
      invariant ReplayAll(records[..i], base) == Replay(snapshots, tables, largest, recovered)
    {
      var r := records[i];
      ReplaySnoc(records, base, i);
      largest := if r.txn > largest then r.txn else largest;
      if r.kind == UPDATE && PREFIX <= r.payload {
        snapshots := snapshots[r.txn := r.payload[|PREFIX|..]];
      } else if r.kind == COMMIT {
        if r.txn in snapshots {
          var loaded := S.Load(snapshots[r.txn]);
          if !loaded.Loaded? {
            StaysInvalid(records, base, i + 1);
            return InvalidSnapshot(tables);
          }
          tables, recovered := loaded.tables, true;
          snapshots := snapshots - {r.txn};
        }
      }
      i := i + 1;
    }
    assert records[..i] == records;
    result := Replay(snapshots, tables, largest, recovered);
  }

  lemma NothingReplayed(base: Tables)
    ensures ReplayAll([], base) == Replay(map[], base, 0, false)
  {
  }

  lemma ReplaySnoc(rs: seq<LogRecord>, base: Tables, i: nat)
    requires i < |rs|
    ensures ReplayAll(rs[..i + 1], base) == ReplayStep(ReplayAll(rs[..i], base), rs[i])
  {
    hide ReplayStep;
    assert Front(rs[..i + 1]) == rs[..i] && Last(rs[..i + 1]) == rs[i];
  }

  lemma {:induction false} StaysInvalid(rs: seq<LogRecord>, base: Tables, i: nat)
    requires i <= |rs| && ReplayAll(rs[..i], base).InvalidSnapshot?
    ensures ReplayAll(rs, base) == ReplayAll(rs[..i], base)
    decreases |rs| - i
  {
    if i < |rs| {
      ReplaySnoc(rs, base, i);
      StaysInvalid(rs, base, i + 1);
    } else {
      assert rs[..i] == rs;
    }
  }

  // ---- Well-formed logs ----

  ghost predicate IsSnapshot(payload: Bytes, ts: Tables) {
    S.Fits(ts) && payload == Snapshot(ts)
  }

  ghost predicate CarriesSnapshot(r: LogRecord) {
    exists ts :: IsSnapshot(r.payload, ts)
  }

  /** How a record may follow the records before it, whatever an UPDATE carries. */
  ghost predicate Succeeds(before: seq<LogRecord>, r: LogRecord) {
    && Fits(r)
    && (before != [] ==> Last(before).lsn < r.lsn)
    && r.lsn < MAX64 && r.txn < MAX64
    && if r.kind == BEGIN then before == [] || Last(before).txn < r.txn
       else
         && before != [] && Last(before).txn == r.txn
         && if r.kind == UPDATE then Last(before).kind == BEGIN else r.kind == COMMIT && Last(before).kind == UPDATE
  }

  /** The logs that commits write. */
  ghost predicate Ordered(rs: seq<LogRecord>) {
    rs == [] || (Ordered(Front(rs)) && Succeeds(Front(rs), Last(rs)))
  }

  /** The same, with snapshots that fit the format. */
  ghost predicate Follows(before: seq<LogRecord>, r: LogRecord) {
    Succeeds(before, r) && (r.kind == UPDATE ==> CarriesSnapshot(r))
  }

  ghost predicate Log(rs: seq<LogRecord>) {
    rs == [] || (Log(Front(rs)) && Follows(Front(rs), Last(rs)))
  }

  lemma {:induction false} LogIsOrdered(rs: seq<LogRecord>)
    requires Log(rs)
    ensures Ordered(rs)
  {
    hide Succeeds, CarriesSnapshot;
    if rs != [] {
      LogIsOrdered(Front(rs));
    }
  }

  lemma {:induction false} OrderedPrefix(rs: seq<LogRecord>, n: nat)
    requires Ordered(rs) && n <= |rs|
    ensures Ordered(rs[..n])
  {
    hide Succeeds;
    if n == |rs| {
      assert rs[..n] == rs;
    } else {
      assert Front(rs)[..n] == rs[..n];
      OrderedPrefix(Front(rs), n);
    }
  }

  /** The snapshot an UPDATE record carries. */
  function Carried(r: LogRecord): Tables {
    if |r.payload| < |PREFIX| then []
    else
      match S.Load(r.payload[|PREFIX|..])
      case Loaded(ts) => ts
      case _ => []
  }

  /** The snapshot of the last COMMIT in the log. */
  function LastCommit(rs: seq<LogRecord>): Option<Tables> {
    if rs == [] then None
    else if Last(rs).kind == COMMIT && |rs| >= 2 then Some(Carried(rs[|rs| - 2]))
    else LastCommit(Front(rs))
  }

  lemma CarriedIs(r: LogRecord, ts: Tables)
    requires IsSnapshot(r.payload, ts)
    ensures PREFIX <= r.payload && r.payload[|PREFIX|..] == S.Serialize(ts)
    ensures S.Load(r.payload[|PREFIX|..]) == S.Loaded(ts) && Carried(r) == ts
  {
    hide S.Serialize, S.Load, S.Fits;
    S.RoundTrip(ts);
  }

  lemma {:induction false} LogPrefix(rs: seq<LogRecord>, n: nat)
    requires Log(rs) && n <= |rs|
    ensures Log(rs[..n])
  {
    if n == |rs| {
      assert rs[..n] == rs;
    } else {
      assert Front(rs)[..n] == rs[..n];
      LogPrefix(Front(rs), n);
    }
  }

  lemma {:induction false} LogFits(rs: seq<LogRecord>)
    requires Log(rs)
    ensures AllFit(rs)
  {
    if rs != [] {
      hide Fits;
      LogFits(Front(rs));
      assert rs == Front(rs) + [Last(rs)];
      FollowsFits(Front(rs), Last(rs));
    }
  }

  lemma FollowsFits(before: seq<LogRecord>, r: LogRecord)
    requires Follows(before, r)
    ensures Fits(r)
  {
  }

  /** Replaying a well-formed log gives the last committed snapshot, or the data file if there is none. */
  lemma {:induction false} ReplayOfLog(rs: seq<LogRecord>, base: Tables)
    requires Log(rs)
    ensures var r := ReplayAll(rs, base);
            && r.Replay?
            && r.recovered == LastCommit(rs).Some?
            && r.tables == (if r.recovered then LastCommit(rs).value else base)
            && r.largest == (if rs == [] then 0 else Last(rs).txn)
            && (rs != [] && Last(rs).kind == UPDATE ==>
                  Last(rs).txn in r.snapshots && r.snapshots[Last(rs).txn] == Last(rs).payload[|PREFIX|..])
  {
    hide S.Load, S.Serialize, S.Fits, Fits;
    if rs != [] {
      var before, r := Front(rs), Last(rs);
      ReplayOfLog(before, base);
      if r.kind == UPDATE {
        var ts :| IsSnapshot(r.payload, ts);
        CarriedIs(r, ts);
      } else if r.kind == COMMIT {
        var u := Last(before);
        assert rs[|rs| - 2] == u;
        assert Log(before) && Follows(Front(before), u);
        var ts :| IsSnapshot(u.payload, ts);
        CarriedIs(u, ts);
      }
    }
  }

  /** One log never uses a transaction id for two transactions, and its LSNs strictly increase. */
  lemma {:induction false} IdsAndLsns(rs: seq<LogRecord>, i: nat, j: nat)
    requires Ordered(rs) && i < j < |rs|
    ensures rs[i].lsn < rs[j].lsn
    ensures rs[i].txn <= rs[j].txn
    ensures rs[j].kind == BEGIN ==> rs[i].txn < rs[j].txn
    decreases rs
  {
    hide Fits;
    if j < |rs| - 1 {
      IdsAndLsns(Front(rs), i, j);
    } else if i < j - 1 {
      IdsAndLsns(Front(rs), i, j - 1);
    }
  }

  lemma {:induction false} CommitsOwnUpdate(rs: seq<LogRecord>, i: nat)
    requires Ordered(rs) && i < |rs| && rs[i].kind == COMMIT
    ensures i >= 2 && rs[i - 1].kind == UPDATE && rs[i - 2].kind == BEGIN
    ensures rs[i - 1].txn == rs[i].txn == rs[i - 2].txn
  {
    hide Fits;
    OrderedPrefix(rs, i + 1);
    var p := rs[..i + 1];
    assert Last(p) == rs[i] && Ordered(Front(p)) && Last(Front(p)) == rs[i - 1];
    assert Ordered(Front(Front(p)));
  }

  lemma AfterCommit(rs: seq<LogRecord>, i: nat)
    requires Ordered(rs) && i + 1 < |rs| && rs[i].kind == COMMIT
    ensures rs[i + 1].kind == BEGIN
  {
    hide Fits;
    OrderedPrefix(rs, i + 2);
    assert Last(rs[..i + 2]) == rs[i + 1] && Last(Front(rs[..i + 2])) == rs[i];
  }

  /** The id of a committed transaction names that transaction alone: its three records and no other. */
  lemma CommittedIdIsUnique(rs: seq<LogRecord>, i: nat, j: nat)
    requires Ordered(rs) && i < |rs| && rs[i].kind == COMMIT
    requires j < |rs| && rs[j].txn == rs[i].txn
    ensures i - 2 <= j <= i
  {
    hide Ordered, Fits, Succeeds;
    CommitsOwnUpdate(rs, i);
    if j < i - 2 {
      IdsAndLsns(rs, j, i - 2);
    } else if i < j {
      AfterCommit(rs, i);
      IdsAndLsns(rs, i, i + 1);
      if i + 1 < j {
        IdsAndLsns(rs, i + 1, j);
      }
    }
  }

  /** Whatever is replayed, the largest id is the last one. */
  lemma {:induction false} LargestIsLast(rs: seq<LogRecord>, base: Tables)
    requires Ordered(rs) && ReplayAll(rs, base).Replay?
    ensures ReplayAll(rs, base).largest == if rs == [] then 0 else Last(rs).txn
  {
    hide S.Load, Fits;
    if rs != [] {
      LargestIsLast(Front(rs), base);
    }
  }

  ghost predicate NoCommitFrom(rs: seq<LogRecord>, n: nat) {
    forall i :: n <= i < |rs| ==> rs[i].kind != COMMIT
  }

  lemma {:induction false} LastCommitStable(rs: seq<LogRecord>, n: nat)
    requires n <= |rs| && NoCommitFrom(rs, n)
    ensures LastCommit(rs) == LastCommit(rs[..n])
    decreases rs
  {
    if n < |rs| {
      assert Front(rs)[..n] == rs[..n];
      LastCommitStable(Front(rs), n);
    } else {
      assert rs[..n] == rs;
    }
  }
}
