/** Whole runs of a client on the buffer pool: every page seen is the page last written. */
module PoolRuns {
  import opened Bytes
  import opened Pages
  import opened BufferPool

  datatype Op =
    | New
    | Fetch(page: nat, writable: bool)
    | Look(k: nat)
    | Store(k: nat, bytes: Bytes)
    | Release(k: nat)
    | Flush(page: nat)
    | FlushAll
    | Delete(page: nat)

  datatype Event =
    | Created(page: nat)
    | Wrote(page: nat, body: Bytes)
    | Saw(page: nat, body: Bytes)
    | Deleted(page: nat)

  function After(m: map<nat, Bytes>, e: Event): map<nat, Bytes> {
    if e.Created? then m[e.page := Body(FreePageBytes(INVALID))]
    else if e.Wrote? then m[e.page := e.body]
    else if e.Deleted? then m - {e.page}
    else m
  }

  /** The reference: what a plain map that held start holds after the events. */
  function Model(start: map<nat, Bytes>, trace: seq<Event>): map<nat, Bytes> {
    if trace == [] then start else After(Model(start, trace[..|trace| - 1]), trace[|trace| - 1])
  }

  lemma ModelSnoc(start: map<nat, Bytes>, trace: seq<Event>, e: Event)
    ensures Model(start, trace + [e]) == After(Model(start, trace), e)
  {
    hide After;
    assert (trace + [e])[..|trace|] == trace;
  }

  // ---- What each operation does, in the client's own terms ----

  /** The client's guards, its pages, what happened so far, and whether page ids have run out. */
  datatype State = State(live: seq<Guard>, mine: set<nat>, trace: seq<Event>, full: bool)

  ghost predicate OnPage(live: seq<Guard>, p: nat) {
    exists g :: g in live && g.page == p
  }

  /** No frame is left for a page that is not under guard. */
  ghost predicate NoRoom(live: seq<Guard>, size: nat) {
    Crowded(multiset(live), size)
  }

  function Without<T>(s: seq<T>, k: nat): seq<T>
    requires k < |s|
  {
    s[..k] + s[k + 1..]
  }

  /** The plain map has the page of every guard. */
  ghost predicate Known(start: map<nat, Bytes>, s: State) {
    Model(start, s.trace).Keys == s.mine && forall g :: g in s.live ==> g.page in s.mine
  }

  /**
   * One operation on a pool of the given size, over a file that has lost some pages to crashes, from one state of the
   * client to the next. Only the page and the frame that the pool picks are left open.
   */
  ghost predicate Did(start: map<nat, Bytes>, size: nat, lost: set<nat>, op: Op, s: State, s': State) {
    match op
    case New =>
      if Exhausted(s.mine, lost) then s' == s.(full := true)
      else if NoRoom(s.live, size) then s' == s
      else exists g :: NewGuard(s, g) &&
             s' == State(s.live + [g], s.mine + {g.page}, s.trace + [Created(g.page)], s.full)
    case Fetch(p, w) =>
      if p !in s.mine || (NoRoom(s.live, size) && !OnPage(s.live, p)) then s' == s
      else exists g :: GuardOn(g, p, w) && s' == s.(live := s.live + [g])
    case Look(k) =>
      if k < |s.live| && s.live[k].page in Model(start, s.trace) then
        s' == s.(trace := s.trace + [Saw(s.live[k].page, Model(start, s.trace)[s.live[k].page])])
      else k >= |s.live| && s' == s
    case Store(k, bytes) =>
      if k < |s.live| && s.live[k].writable && |bytes| == PAGE then
        s' == s.(trace := s.trace + [Wrote(s.live[k].page, Body(bytes))])
      else s' == s
    case Release(k) => s' == if k < |s.live| then s.(live := Without(s.live, k)) else s
    case Delete(p) =>
      if p in s.mine && !OnPage(s.live, p) then s' == s.(mine := s.mine - {p}, trace := s.trace + [Deleted(p)])
      else s' == s
    case _ => s' == s
  }

  predicate NewGuard(s: State, g: Guard) {
    g.page !in s.mine && g.writable
  }

  predicate GuardOn(g: Guard, p: nat, w: bool) {
    g.page == p && g.writable == w
  }

  /** A whole run of operations; it ends early only when page ids have run out. */
  ghost predicate Played(start: map<nat, Bytes>, size: nat, lost: set<nat>, ops: seq<Op>, s: State, s': State) {
    if ops == [] then s' == s
    else
      exists t ::
        && Played(start, size, lost, ops[..|ops| - 1], s, t)
        && if t.full then s' == t else Did(start, size, lost, ops[|ops| - 1], t, s')
  }

  lemma PlayedSnoc(start: map<nat, Bytes>, size: nat, lost: set<nat>, ops: seq<Op>, op: Op, s: State, t: State, s': State)
    requires Played(start, size, lost, ops, s, t)
    requires if t.full then s' == t else Did(start, size, lost, op, t, s')
    ensures Played(start, size, lost, ops + [op], s, s')
  {
    hide Did;
    assert (ops + [op])[..|ops|] == ops;
  }

  // ---- What every run shows ----

  /** The last thing that happened to a page before event i: what was there at the start, or was put there since. */
  ghost predicate LastPut(start: map<nat, Bytes>, trace: seq<Event>, i: nat, p: nat, body: Bytes)
    requires i <= |trace|
  {
    if i == 0 then p in start && start[p] == body
    else
      var e := trace[i - 1];
      if e.page != p || e.Saw? then LastPut(start, trace, i - 1, p, body)
      else (e.Wrote? && e.body == body) || (e.Created? && body == Body(FreePageBytes(INVALID)))
  }

  lemma {:induction false} LastPutIsModel(start: map<nat, Bytes>, trace: seq<Event>, i: nat, p: nat, body: Bytes)
    requires i <= |trace|
    ensures LastPut(start, trace, i, p, body) <==> p in Model(start, trace[..i]) && Model(start, trace[..i])[p] == body
    decreases i
  {
    hide Body, FreePageBytes;
    if i > 0 {
      LastPutIsModel(start, trace, i - 1, p, body);
      assert trace[..i][..i - 1] == trace[..i - 1] && trace[..i][i - 1] == trace[i - 1];
    }
  }

  /** Every page seen is as it was last written, and no page is created that is still in the map. */
  ghost predicate Consistent(start: map<nat, Bytes>, trace: seq<Event>) {
    && (forall i :: 0 <= i < |trace| && trace[i].Saw? ==> LastPut(start, trace, i, trace[i].page, trace[i].body))
    && (forall i :: 0 <= i < |trace| && trace[i].Created? ==> trace[i].page !in Model(start, trace[..i]))
  }

  lemma ConsistentSnoc(start: map<nat, Bytes>, trace: seq<Event>, e: Event)
    requires Consistent(start, trace)
    requires e.Saw? ==> e.page in Model(start, trace) && Model(start, trace)[e.page] == e.body
    requires e.Created? ==> e.page !in Model(start, trace)
    ensures Consistent(start, trace + [e])
  {
    hide Model, LastPut;
    var more := trace + [e];
    forall i | 0 <= i < |more|
      ensures more[i].Saw? ==> LastPut(start, more, i, more[i].page, more[i].body)
      ensures more[i].Created? ==> more[i].page !in Model(start, more[..i])
    {
      assert more[..i] == trace[..i];
      assert trace[..|trace|] == trace;
      LastPutIsModel(start, more, i, more[i].page, if more[i].Saw? then more[i].body else []);
      if i < |trace| {
        LastPutIsModel(start, trace, i, more[i].page, if more[i].Saw? then more[i].body else []);
      }
    }
  }

  lemma DidKeeps(start: map<nat, Bytes>, size: nat, lost: set<nat>, op: Op, s: State, s': State)
    requires Did(start, size, lost, op, s, s') && Known(start, s) && Consistent(start, s.trace)
    ensures Known(start, s') && Consistent(start, s'.trace)
  {
    hide Model, Consistent, Body, FreePageBytes, NoRoom;
    if s'.trace != s.trace {
      var e := s'.trace[|s.trace|];
      assert s'.trace == s.trace + [e];
      ConsistentSnoc(start, s.trace, e);
      ModelSnoc(start, s.trace, e);
    }
  }

  /** Whatever the pool size and the evictions it brings, a run looks like a run on a plain map of pages. */
  lemma {:induction false} EveryRunIsConsistent(start: map<nat, Bytes>, size: nat, lost: set<nat>, ops: seq<Op>, s: State, s': State)
    requires Played(start, size, lost, ops, s, s') && Known(start, s) && Consistent(start, s.trace)
    ensures Known(start, s') && Consistent(start, s'.trace)
    decreases ops
  {
    hide Did, Known, Consistent;
    if ops != [] {
      var op := ops[|ops| - 1];
      var t :| Played(start, size, lost, ops[..|ops| - 1], s, t) && if t.full then s' == t else Did(start, size, lost, op, t, s');
      EveryRunIsConsistent(start, size, lost, ops[..|ops| - 1], s, t);
      if !t.full {
        DidKeeps(start, size, lost, op, t, s');
      }
    }
  }

  // ---- The client ----

  lemma RemoveAt<T>(s: seq<T>, k: nat)
    requires k < |s|
    ensures multiset(Without(s, k)) == multiset(s) - multiset{s[k]}
  {
    assert s == s[..k] + [s[k]] + s[k + 1..];
  }

  /** A client program over a pool of any size; it keeps its guards and knows its pages. */
  class Client {
    const pool: BufferPoolManager
    ghost const start: map<nat, Bytes>
    ghost const lost: set<nat>
    var live: seq<Guard>
    var mine: set<nat>
    var trace: seq<Event>
    var full: bool

    constructor (pool: BufferPoolManager, pages: set<nat>)
      requires pool.Valid() && pool.guards == multiset{} && pool.disk.owners.held == pages
      ensures this.pool == pool && Ok() && start == pool.View() && lost == pool.disk.owners.leaked
      ensures View() == State([], pages, [], false)
      ensures Known(start, View()) && Consistent(start, trace)
    {
      this.pool := pool;
      start := pool.View();
      lost := pool.disk.owners.leaked;
      live, mine, trace, full := [], pages, [], false;
      PlainKeys(pool.frames, pool.table, pool.disk.disk.file, pages);
    }

    ghost function View(): State
      reads this
    {
      State(live, mine, trace, full)
    }

    ghost predicate Ok()
      reads this, pool, pool.disk
    {
      !full ==>
        && pool.Valid() && pool.View() == Model(start, trace)
        && pool.guards == multiset(live) && pool.disk.owners.held == mine && pool.disk.owners.leaked == lost
    }

    method DoNew()
      requires Ok() && !full
      modifies this, pool, pool.disk
      ensures Ok() && |pool.frames| == |old(pool.frames)|
      ensures Did(start, |pool.frames|, lost, New, old(View()), View())
    {
      hide PoolOk, Plain, Inv, Body, OnDisk, FreePageBytes, Model, CanAllocate, Exhausted;
      PlainKeys(pool.frames, pool.table, pool.disk.disk.file, mine);
      CrowdedMeans(pool.frames, pool.table, pool.guards, pool.disk.disk.file, mine);
      AllocateFailsExactly(pool.disk.disk, pool.disk.owners);
      var r, page := pool.NewPage();
      if r.ReadFailed? {
        full := true;
      } else if r.Fetched? {
        ModelSnoc(start, trace, Created(page));
        trace := trace + [Created(page)];
        live, mine := live + [r.guard], mine + {page};
        assert NewGuard(old(View()), r.guard);
      }
    }

    method DoFetch(p: nat, w: bool)
      requires Ok() && !full
      modifies this, pool, pool.disk
      ensures Ok() && !full && |pool.frames| == |old(pool.frames)|
      ensures Did(start, |pool.frames|, lost, Fetch(p, w), old(View()), View())
    {
      hide PoolOk, Plain, Inv, Body, OnDisk, Model;
      CrowdedMeans(pool.frames, pool.table, pool.guards, pool.disk.disk.file, mine);
      if p in mine {
        HeldInRange(pool.disk.disk, pool.disk.owners);
        var r := pool.FetchPage(p, w);
        if r.Fetched? {
          live := live + [r.guard];
          assert GuardOn(r.guard, p, w);
        }
      }
    }

    method DoLook(k: nat)
      requires Ok() && !full
      modifies this
      ensures Ok() && !full
      ensures forall size :: Did(start, size, lost, Look(k), old(View()), View())
    {
      hide PoolOk, Plain, Inv, Body, OnDisk, Model;
      if k < |live| {
        var g := live[k];
        var bytes := pool.Read(g);
        ModelSnoc(start, trace, Saw(g.page, Body(bytes)));
        trace := trace + [Saw(g.page, Body(bytes))];
      }
    }

    method DoStore(k: nat, bytes: Bytes)
      requires Ok() && !full
      modifies this, pool
      ensures Ok() && !full && |pool.frames| == |old(pool.frames)|
      ensures Did(start, |pool.frames|, lost, Store(k, bytes), old(View()), View())
    {
      hide PoolOk, Plain, Inv, Body, OnDisk, Model;
      if k < |live| && live[k].writable && |bytes| == PAGE {
        var g := live[k];
        pool.Write(g, bytes);
        ModelSnoc(start, trace, Wrote(g.page, Body(bytes)));
        trace := trace + [Wrote(g.page, Body(bytes))];
      }
    }

    method DoRelease(k: nat)
      requires Ok() && !full
      modifies this, pool
      ensures Ok() && !full && |pool.frames| == |old(pool.frames)|
      ensures Did(start, |pool.frames|, lost, Release(k), old(View()), View())
    {
      hide PoolOk, Plain, Inv, Body, OnDisk, Model, Without, Known, NoRoom, OnPage, Exhausted;
      if k < |live| {
        RemoveAt(live, k);
        ghost var less := multiset(Without(live, k));
        pool.Drop(live[k]);
        live := Without(live, k);
        assert pool.guards == less;
      }
    }

    method DoDelete(p: nat)
      requires Ok() && !full
      modifies this, pool, pool.disk
      ensures Ok() && !full && |pool.frames| == |old(pool.frames)|
      ensures Did(start, |pool.frames|, lost, Delete(p), old(View()), View())
    {
      hide PoolOk, Plain, Inv, Body, OnDisk, Model;
      if p in mine {
        HeldOffChain(pool.disk.disk, pool.disk.owners, p);
        var ok := pool.DeletePage(p);
        if ok {
          ModelSnoc(start, trace, Deleted(p));
          trace := trace + [Deleted(p)];
          mine := mine - {p};
        }
      }
    }

    /** One operation; requests for pages or guards the client does not have are not made. */
    method Do(op: Op)
      requires Ok() && !full
      modifies this, pool, pool.disk
      ensures Ok() && |pool.frames| == |old(pool.frames)|
      ensures Did(start, |pool.frames|, lost, op, old(View()), View())
    {
      hide PoolOk, Plain, Inv, Body, OnDisk, Model, Exhausted, NoRoom;
      match op {
        case New => DoNew();
        case Fetch(p, w) => DoFetch(p, w);
        case Look(k) => DoLook(k);
        case Store(k, bytes) => DoStore(k, bytes);
        case Release(k) => DoRelease(k);
        case Flush(p) => var ok := pool.FlushPage(p);
        case FlushAll => var ok := pool.FlushAllPages();
        case Delete(p) => DoDelete(p);
      }
    }

    /** Every run does what it would do on a plain map of pages, whatever the pool size and the evictions. */
    method Play(ops: seq<Op>)
      requires Ok() && !full && Known(start, View()) && Consistent(start, trace)
      modifies this, pool, pool.disk
      ensures Ok() && Played(start, |pool.frames|, lost, ops, old(View()), View())
      ensures Known(start, View()) && Consistent(start, trace)
    {
      hide PoolOk, Plain, Inv, Model, Consistent, Did, Known, Played;
      ghost var size := |pool.frames|;
      NothingPlayed(start, size, lost, View());
      var i := 0;
      while i < |ops|
        invariant 0 <= i <= |ops| && Ok() && |pool.frames| == size
        invariant Played(start, size, lost, ops[..i], old(View()), View())
        decreases |ops| - i
      {
        ghost var before := View();
        if !full {
          Do(ops[i]);
        }
        PlayedSnoc(start, size, lost, ops[..i], ops[i], old(View()), before, View());
        assert ops[..i] + [ops[i]] == ops[..i + 1];
        i := i + 1;
      }
      assert ops[..i] == ops;
      EveryRunIsConsistent(start, size, lost, ops, old(View()), View());
    }
  }

  lemma NothingPlayed(start: map<nat, Bytes>, size: nat, lost: set<nat>, s: State)
    ensures Played(start, size, lost, [], s, s)
  {
  }
}
