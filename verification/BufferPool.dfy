/** The buffer pool over the page file: a cache that clients cannot tell from a plain map of pages. */
module BufferPool {
  import opened Bytes
  import opened OrderedMap
  import opened Pages

  // ---- The disk manager ----

  class DiskManager {
    var disk: Disk
    ghost var owners: Owners

    constructor (others: Bytes)
      requires |others| == 36
      ensures Valid() && disk == NewDisk(others) && owners == Owners({}, [], {})
    {
      disk := NewDisk(others);
      owners := Owners({}, [], {});
      NewDiskInv(others);
    }

    ghost predicate Valid()
      reads this
    {
      Inv(disk, owners)
    }

    /** A page no client holds; the page counter is the only thing that can run out. */
    method AllocatePage() returns (r: Option<nat>)
      requires Valid()
      modifies this
      ensures r.None? <==> !CanAllocate(old(disk))
      ensures r.Some? ==>
                && Valid() && r.value !in old(owners.held) && InRange(disk, r.value)
                && disk == PutHeader(AllocatedPage(old(disk))) && owners == OwnersAllocated(old(disk), old(owners))
                && owners.held == old(owners.held) + {r.value} && owners.leaked == old(owners.leaked)
                && r.value < |disk.file| && disk.file[r.value] == Stamp(FreePageBytes(INVALID))
                && SamePages(old(owners.held), old(disk.file), disk.file)
      ensures r.None? ==> disk == old(disk).(header := old(disk).header.(pageCount := 0))
    {
      hide Inv, PutHeader, Stamp, FreePageBytes;
      InvMeans(disk, owners);
      if CanAllocate(disk) {
        AllocateKeeps(disk, owners);
      }
      ghost var before, held := disk, owners;
      var result := Candidate(disk);
      disk := disk.(header := TakenHeader(disk));
      if !InRange(disk, result) {
        return None;
      }
      disk := PutPage(disk, result, FreePageBytes(INVALID));
      disk := PutHeader(disk);
      owners := OwnersAllocated(before, owners);
      r := Some(result);
    }

    /** Takes any page but the header; the pages stay apart exactly when it was not on the free list already. */
    method FreePage(p: nat) returns (ok: bool)
      requires Valid()
      modifies this
      ensures ok <==> InRange(old(disk), p) && p != 0
      ensures Valid() <==> !(ok && p in old(owners.chain))
      ensures ok ==> disk == PutHeader(FreedPage(old(disk), p)) && owners == OwnersFreed(old(owners), p)
      ensures ok && p !in old(owners.chain) ==> SamePages(old(owners.held) - {p}, old(disk.file), disk.file)
      ensures !ok ==> unchanged(this)
    {
      hide Inv, PutHeader, Stamp, FreePageBytes, FreedPage;
      InvMeans(disk, owners);
      if !InRange(disk, p) || p == 0 {
        return false;
      }
      FreeExactly(disk, owners, p);
      if p !in owners.chain {
        SomeOwner(disk, owners, p);
        FreeKeeps(disk, owners, p);
      }
      FreedHead(disk, p);
      disk := FreedPage(disk, p);
      disk := PutHeader(disk);
      owners := OwnersFreed(owners, p);
      ok := true;
    }

    /** Pages clients hold always read back with a good checksum. */
    method ReadPage(p: nat) returns (r: Option<Bytes>)
      requires Valid()
      ensures r == if InRange(disk, p) && (p == 0 || Good(disk.file[p])) then Some(disk.file[p]) else None
      ensures p in owners.held ==> r.Some? && |r.value| == PAGE
    {
      hide ChainOk, HeaderBytes;
      if !InRange(disk, p) {
        return None;
      }
      var bytes := disk.file[p];
      if p != 0 && !Good(bytes) {
        return None;
      }
      r := Some(bytes);
    }

    method WritePage(p: nat, b: Bytes) returns (ok: bool)
      requires Valid() && |b| == PAGE
      modifies this
      ensures owners == old(owners)
      ensures p !in owners.chain && p != 0 ==> Valid()
      ensures ok <==> InRange(old(disk), p)
      ensures ok ==> disk == WrittenPage(old(disk), p, b)
      ensures !ok ==> disk == old(disk)
    {
      hide Stamp, Inv;
      InvMeans(disk, owners);
      if !InRange(disk, p) {
        return false;
      }
      if p !in owners.chain && p != 0 {
        SomeOwner(disk, owners, p);
        WriteKeeps(disk, owners, p, b);
      }
      disk := WrittenPage(disk, p, b);
      ok := true;
    }
  }

  lemma SomeOwner(d: Disk, o: Owners, p: nat)
    requires Inv(d, o) && InRange(d, p) && p != 0 && p !in o.chain
    ensures p in o.held || p in o.leaked
  {
    hide ChainOk, DiskOk;
  }

  // ---- Frames and guards ----

  datatype Frame = Frame(id: nat, bytes: Bytes, pins: nat, dirty: bool, age: nat)

  /** A live PageGuard: the page it names, the frame it points into, and whether it may write. */
  datatype Guard = Guard(page: nat, frame: nat, writable: bool)

  const EMPTY: Frame := Frame(INVALID, Zeros(PAGE), 0, false, 0)

  /** The page table and the frame ids are inverse to each other, and only held pages are cached. */
  ghost predicate TableOk(frames: seq<Frame>, table: map<nat, nat>, held: set<nat>) {
    && (forall p :: p in table ==> p in held && p != INVALID && table[p] < |frames| && frames[table[p]].id == p)
    && (forall i :: 0 <= i < |frames| && frames[i].id != INVALID ==> frames[i].id in table && table[frames[i].id] == i)
    && (forall i :: 0 <= i < |frames| ==> |frames[i].bytes| == PAGE)
  }

  ghost function Pins(guards: multiset<Guard>, p: nat, i: nat): nat {
    guards[Guard(p, i, true)] + guards[Guard(p, i, false)]
  }

  /** A frame's pin count is the number of live guards on it, and a guard's frame holds its page. */
  ghost predicate PinsOk(frames: seq<Frame>, table: map<nat, nat>, guards: multiset<Guard>) {
    && (forall g :: g in guards ==> g.page in table && table[g.page] == g.frame)
    && (forall i :: 0 <= i < |frames| ==> frames[i].pins == Pins(guards, frames[i].id, i))
  }

  /** The part of a page that belongs to the client: all but the checksum. */
  function Body(b: Bytes): Bytes {
    if |b| < 4 then [] else b[4..]
  }

  function OnDisk(file: seq<Bytes>, p: nat): Bytes {
    if p < |file| then Body(file[p]) else []
  }

  /** A frame that differs from disk is dirty or has a live writable guard. */
  ghost predicate Coherent(frames: seq<Frame>, guards: multiset<Guard>, file: seq<Bytes>) {
    forall i :: 0 <= i < |frames| && frames[i].id != INVALID ==>
      || frames[i].dirty
      || guards[Guard(frames[i].id, i, true)] > 0
      || Body(frames[i].bytes) == OnDisk(file, frames[i].id)
  }

  ghost predicate PoolOk(frames: seq<Frame>, table: map<nat, nat>, guards: multiset<Guard>, file: seq<Bytes>, held: set<nat>) {
    TableOk(frames, table, held) && PinsOk(frames, table, guards) && Coherent(frames, guards, file)
  }

  /** What a client that fetches page p will see. */
  function Contents(frames: seq<Frame>, table: map<nat, nat>, file: seq<Bytes>, p: nat): Bytes {
    if p in table && table[p] < |frames| then Body(frames[table[p]].bytes) else OnDisk(file, p)
  }

  /** The plain map the pool stands for. */
  ghost function Plain(frames: seq<Frame>, table: map<nat, nat>, file: seq<Bytes>, held: set<nat>): map<nat, Bytes> {
    map p | p in held :: Contents(frames, table, file, p)
  }

  // ---- Recency ----

  /** The page was last used at the given place of the history, counted from one. */
  ghost predicate LastUsed(uses: seq<nat>, p: nat, at: nat) {
    1 <= at <= |uses| && uses[at - 1] == p && forall k :: at <= k < |uses| ==> uses[k] != p
  }

  /** The age of every cached page is the place of its last use. */
  ghost predicate UsesOk(frames: seq<Frame>, uses: seq<nat>) {
    forall i :: 0 <= i < |frames| && frames[i].id != INVALID ==> LastUsed(uses, frames[i].id, frames[i].age)
  }

  /** All later uses of one page come before the last use of the other. */
  ghost predicate NotLater(uses: seq<nat>, p: nat, q: nat) {
    exists at: nat :: LastUsed(uses, q, at) && forall k :: at <= k < |uses| ==> uses[k] != p
  }

  lemma AgeIsRecency(uses: seq<nat>, p: nat, a: nat, q: nat, b: nat)
    requires LastUsed(uses, p, a) && LastUsed(uses, q, b) && a <= b
    ensures NotLater(uses, p, q)
  {
    assert LastUsed(uses, q, b) && forall k :: b <= k < |uses| ==> uses[k] != p;
  }

  lemma UsesAt(frames: seq<Frame>, uses: seq<nat>, i: nat, f: Frame)
    requires UsesOk(frames, uses) && i < |frames|
    requires f.id == INVALID || (f.id == frames[i].id && f.age == frames[i].age)
    ensures UsesOk(frames[i := f], uses)
  {
    hide LastUsed;
  }

  lemma UsesGrow(frames: seq<Frame>, uses: seq<nat>, i: nat, f: Frame)
    requires UsesOk(frames, uses) && i < |frames| && f.age == |uses| + 1
    requires forall j :: 0 <= j < |frames| && j != i && frames[j].id != INVALID ==> frames[j].id != f.id
    ensures UsesOk(frames[i := f], uses + [f.id])
  {
  }

  // ---- One change at a time ----

  lemma TableAt(frames: seq<Frame>, table: map<nat, nat>, held: set<nat>, i: nat, f: Frame)
    requires TableOk(frames, table, held) && i < |frames| && f.id == frames[i].id && |f.bytes| == PAGE
    ensures TableOk(frames[i := f], table, held)
  {
  }

  lemma PinsAt(frames: seq<Frame>, table: map<nat, nat>, guards: multiset<Guard>, i: nat, f: Frame)
    requires PinsOk(frames, table, guards) && i < |frames| && f.id == frames[i].id && f.pins == frames[i].pins
    ensures PinsOk(frames[i := f], table, guards)
  {
    hide Pins;
  }

  /** The frame's bytes are on disk, or it is marked to be written. */
  ghost predicate CoherentFrame(f: Frame, i: nat, guards: multiset<Guard>, file: seq<Bytes>) {
    f.id == INVALID || f.dirty || guards[Guard(f.id, i, true)] > 0 || Body(f.bytes) == OnDisk(file, f.id)
  }

  lemma CoherentAt(frames: seq<Frame>, guards: multiset<Guard>, file: seq<Bytes>, i: nat, f: Frame,
                   guards': multiset<Guard>, file': seq<Bytes>)
    requires Coherent(frames, guards, file) && i < |frames| && CoherentFrame(f, i, guards', file')
    requires forall g: Guard :: g.frame != i ==> guards'[g] >= guards[g]
    requires forall j :: 0 <= j < |frames| && j != i && frames[j].id != INVALID ==>
               OnDisk(file', frames[j].id) == OnDisk(file, frames[j].id)
    ensures Coherent(frames[i := f], guards', file')
  {
    hide Body, OnDisk;
  }

  lemma PlainAt(frames: seq<Frame>, table: map<nat, nat>, file: seq<Bytes>, held: set<nat>, frames': seq<Frame>,
                table': map<nat, nat>, file': seq<Bytes>)
    requires forall p :: p in held ==> Contents(frames', table', file', p) == Contents(frames, table, file, p)
    ensures Plain(frames', table', file', held) == Plain(frames, table, file, held)
  {
    hide Contents;
  }

  lemma InvalidUnguarded(frames: seq<Frame>, table: map<nat, nat>, held: set<nat>, guards: multiset<Guard>)
    requires TableOk(frames, table, held) && PinsOk(frames, table, guards)
    ensures forall g :: g in guards ==> g.page != INVALID && g.frame < |frames| && frames[g.frame].id == g.page
  {
    hide Pins;
  }

  /** An unpinned frame gives up its page. */
  lemma TableEmptied(frames: seq<Frame>, table: map<nat, nat>, held: set<nat>, i: nat, f: Frame)
    requires TableOk(frames, table, held) && i < |frames| && frames[i].id != INVALID && f.id == INVALID && |f.bytes| == PAGE
    ensures TableOk(frames[i := f], table - {frames[i].id}, held)
  {
  }

  lemma PinsEmptied(frames: seq<Frame>, table: map<nat, nat>, held: set<nat>, guards: multiset<Guard>, i: nat, f: Frame)
    requires TableOk(frames, table, held) && PinsOk(frames, table, guards)
    requires i < |frames| && frames[i].id != INVALID && frames[i].pins == 0 && f.id == INVALID && f.pins == 0
    ensures PinsOk(frames[i := f], table - {frames[i].id}, guards)
  {
    NoGuards(frames, table, guards, i);
    InvalidUnguarded(frames, table, held, guards);
    assert Guard(INVALID, i, true) !in guards && Guard(INVALID, i, false) !in guards;
  }

  /** An empty frame takes a page. */
  lemma TableFilled(frames: seq<Frame>, table: map<nat, nat>, held: set<nat>, i: nat, f: Frame)
    requires TableOk(frames, table, held) && i < |frames| && frames[i].id == INVALID
    requires f.id in held && f.id != INVALID && f.id !in table && |f.bytes| == PAGE
    ensures TableOk(frames[i := f], table[f.id := i], held) && forall q :: q in table ==> table[q] != i
  {
  }

  lemma PinKeeps(frames: seq<Frame>, table: map<nat, nat>, guards: multiset<Guard>, file: seq<Bytes>, held: set<nat>,
                 p: nat, w: bool, age: nat)
    requires PoolOk(frames, table, guards, file, held) && p in table
    ensures var i := table[p];
            var frames' := frames[i := frames[i].(pins := frames[i].pins + 1, age := age)];
            && PoolOk(frames', table, guards + multiset{Guard(p, i, w)}, file, held)
            && Plain(frames', table, file, held) == Plain(frames, table, file, held)
  {
    hide Body, OnDisk, PinsOk, Coherent, Plain;
    var i := table[p];
    var f := frames[i].(pins := frames[i].pins + 1, age := age);
    PinPins(frames, table, guards, p, f, w);
    assert CoherentFrame(f, i, guards, file) by { FrameCoherent(frames, guards, file, i); }
    hide TableOk;
    TableAt(frames, table, held, i, f);
    CoherentAt(frames, guards, file, i, f, guards + multiset{Guard(p, i, w)}, file);
    PlainAt(frames, table, file, held, frames[i := f], table, file);
  }

  lemma FrameCoherent(frames: seq<Frame>, guards: multiset<Guard>, file: seq<Bytes>, i: nat)
    requires Coherent(frames, guards, file) && i < |frames|
    ensures CoherentFrame(frames[i], i, guards, file)
  {
    hide Body, OnDisk;
  }

  lemma PinPins(frames: seq<Frame>, table: map<nat, nat>, guards: multiset<Guard>, p: nat, f: Frame, w: bool)
    requires PinsOk(frames, table, guards) && p in table && table[p] < |frames|
    requires frames[table[p]].id == p == f.id && f.pins == frames[table[p]].pins + 1
    ensures PinsOk(frames[table[p] := f], table, guards + multiset{Guard(p, table[p], w)})
  {
    var i, g := table[p], Guard(p, table[p], w);
    var more := guards + multiset{g};
    assert forall h :: h in more ==> h in guards || h == g;
    assert forall h :: h != g ==> more[h] == guards[h];
    assert forall j :: 0 <= j < |frames| && j != i ==> Pins(more, frames[j].id, j) == Pins(guards, frames[j].id, j);
  }

  lemma DropPins(frames: seq<Frame>, table: map<nat, nat>, guards: multiset<Guard>, g: Guard, f: Frame)
    requires PinsOk(frames, table, guards) && g in guards && g.frame < |frames|
    requires frames[g.frame].id == g.page == f.id && f.pins + 1 == frames[g.frame].pins
    ensures PinsOk(frames[g.frame := f], table, guards - multiset{g})
  {
    var less := guards - multiset{g};
    assert forall h :: h in less ==> h in guards;
    assert forall h :: h != g ==> less[h] == guards[h];
    assert forall j :: 0 <= j < |frames| && j != g.frame ==> Pins(less, frames[j].id, j) == Pins(guards, frames[j].id, j);
  }

  lemma NoGuards(frames: seq<Frame>, table: map<nat, nat>, guards: multiset<Guard>, i: nat)
    requires PinsOk(frames, table, guards) && i < |frames| && frames[i].pins == 0
    requires frames[i].id in table && table[frames[i].id] == i
    ensures forall g :: g in guards ==> g.page != frames[i].id
  {
    var p := frames[i].id;
    assert forall g :: g in guards && g.page == p ==> g == Guard(p, i, true) || g == Guard(p, i, false);
  }

  /** An unpinned frame can be emptied once disk has its bytes. */
  lemma EvictKeeps(frames: seq<Frame>, table: map<nat, nat>, guards: multiset<Guard>, file: seq<Bytes>, held: set<nat>,
                   i: nat, file': seq<Bytes>)
    requires PoolOk(frames, table, guards, file, held)
    requires i < |frames| && frames[i].pins == 0 && frames[i].id != INVALID
    requires OnDisk(file', frames[i].id) == Body(frames[i].bytes)
    requires forall q :: q in held && q != frames[i].id ==> OnDisk(file', q) == OnDisk(file, q)
    ensures var p := frames[i].id;
            var frames' := frames[i := frames[i].(id := INVALID, bytes := Zeros(PAGE))];
            && PoolOk(frames', table - {p}, guards, file', held)
            && Plain(frames', table - {p}, file', held) == Plain(frames, table, file, held)
  {
    hide Body, OnDisk, Zeros, PinsOk, Coherent, Plain;
    var f := frames[i].(id := INVALID, bytes := Zeros(PAGE));
    assert frames[i].id in table && table[frames[i].id] == i;
    assert forall j :: 0 <= j < |frames| && j != i && frames[j].id != INVALID ==>
        frames[j].id in held && frames[j].id != frames[i].id;
    PlainAt(frames, table, file, held, frames[i := f], table - {frames[i].id}, file');
    hide TableOk;
    TableEmptied(frames, table, held, i, f);
    PinsEmptied(frames, table, held, guards, i, f);
    CoherentAt(frames, guards, file, i, f, guards, file');
  }

  /** When a clean unpinned frame has no guards, disk already has its bytes. */
  lemma CleanOnDisk(frames: seq<Frame>, table: map<nat, nat>, guards: multiset<Guard>, file: seq<Bytes>, held: set<nat>, i: nat)
    requires PoolOk(frames, table, guards, file, held)
    requires i < |frames| && frames[i].pins == 0 && frames[i].id != INVALID && !frames[i].dirty
    ensures OnDisk(file, frames[i].id) == Body(frames[i].bytes)
  {
    hide Body, OnDisk;
  }

  lemma LoadKeeps(frames: seq<Frame>, table: map<nat, nat>, guards: multiset<Guard>, file: seq<Bytes>, held: set<nat>,
                  i: nat, p: nat, bytes: Bytes, w: bool, age: nat)
    requires PoolOk(frames, table, guards, file, held)
    requires i < |frames| && frames[i].id == INVALID
    requires p in held && p != INVALID && p !in table && |bytes| == PAGE && Body(bytes) == OnDisk(file, p)
    ensures var frames' := frames[i := Frame(p, bytes, 1, false, age)];
            && PoolOk(frames', table[p := i], guards + multiset{Guard(p, i, w)}, file, held)
            && Plain(frames', table[p := i], file, held) == Plain(frames, table, file, held)
  {
    hide Body, OnDisk, PinsOk, Coherent, Plain, TableOk;
    var f := Frame(p, bytes, 1, false, age);
    TableFilled(frames, table, held, i, f);
    LoadPins(frames, table, guards, i, f, w);
    CoherentAt(frames, guards, file, i, f, guards + multiset{Guard(p, i, w)}, file);
    PlainAt(frames, table, file, held, frames[i := f], table[p := i], file);
  }

  lemma LoadPins(frames: seq<Frame>, table: map<nat, nat>, guards: multiset<Guard>, i: nat, f: Frame, w: bool)
    requires PinsOk(frames, table, guards) && i < |frames| && f.id !in table && f.pins == 1
    requires forall q :: q in table ==> table[q] != i
    ensures PinsOk(frames[i := f], table[f.id := i], guards + multiset{Guard(f.id, i, w)})
  {
    var g := Guard(f.id, i, w);
    var more := guards + multiset{g};
    assert forall h :: h in more ==> h in guards || h == g;
    assert forall h :: h != g ==> more[h] == guards[h];
    assert guards[Guard(f.id, i, true)] == 0 && guards[Guard(f.id, i, false)] == 0;
    assert forall j :: 0 <= j < |frames| && j != i ==> Pins(more, frames[j].id, j) == Pins(guards, frames[j].id, j);
  }

  lemma DropKeeps(frames: seq<Frame>, table: map<nat, nat>, guards: multiset<Guard>, file: seq<Bytes>, held: set<nat>, g: Guard)
    requires PoolOk(frames, table, guards, file, held) && g in guards
    ensures g.frame < |frames| && frames[g.frame].pins > 0
    ensures var f := frames[g.frame];
            var frames' := frames[g.frame := f.(pins := f.pins - 1, dirty := f.dirty || g.writable)];
            && PoolOk(frames', table, guards - multiset{g}, file, held)
            && Plain(frames', table, file, held) == Plain(frames, table, file, held)
  {
    hide Body, OnDisk;
    assert g.frame < |frames| && frames[g.frame].pins == Pins(guards, g.page, g.frame);
    var f := frames[g.frame].(pins := frames[g.frame].pins - 1, dirty := frames[g.frame].dirty || g.writable);
    DropPins(frames, table, guards, g, f);
    DropCoherent(frames, guards, file, g, f);
    hide PinsOk, Pins, Coherent;
  }

  lemma DropCoherent(frames: seq<Frame>, guards: multiset<Guard>, file: seq<Bytes>, g: Guard, f: Frame)
    requires Coherent(frames, guards, file) && g in guards && g.frame < |frames|
    requires f == frames[g.frame].(pins := f.pins, dirty := frames[g.frame].dirty || g.writable)
    ensures Coherent(frames[g.frame := f], guards - multiset{g}, file)
  {
    hide Body, OnDisk;
    assert forall h :: h != g ==> (guards - multiset{g})[h] == guards[h];
  }

  lemma WriteFrameKeeps(frames: seq<Frame>, table: map<nat, nat>, guards: multiset<Guard>, file: seq<Bytes>, held: set<nat>,
                        g: Guard, bytes: Bytes)
    requires PoolOk(frames, table, guards, file, held) && g in guards && g.writable && |bytes| == PAGE
    ensures g.frame < |frames| && g.page in held
    ensures var frames' := frames[g.frame := frames[g.frame].(bytes := bytes)];
            && PoolOk(frames', table, guards, file, held)
            && Plain(frames', table, file, held) == Plain(frames, table, file, held)[g.page := Body(bytes)]
  {
    hide Body, OnDisk;
  }

  lemma FlushKeeps(frames: seq<Frame>, table: map<nat, nat>, guards: multiset<Guard>, file: seq<Bytes>, held: set<nat>,
                   i: nat, file': seq<Bytes>)
    requires PoolOk(frames, table, guards, file, held)
    requires i < |frames| && frames[i].id != INVALID
    requires OnDisk(file', frames[i].id) == Body(frames[i].bytes)
    requires forall q :: q in held && q != frames[i].id ==> OnDisk(file', q) == OnDisk(file, q)
    ensures var frames' := frames[i := frames[i].(dirty := false)];
            && PoolOk(frames', table, guards, file', held)
            && Plain(frames', table, file', held) == Plain(frames, table, file, held)
  {
    hide Body, OnDisk, PinsOk, Coherent, Plain;
    var f := frames[i].(dirty := false);
    assert frames[i].id in table && table[frames[i].id] == i;
    assert forall j :: 0 <= j < |frames| && j != i && frames[j].id != INVALID ==>
        frames[j].id in held && frames[j].id != frames[i].id;
    PlainAt(frames, table, file, held, frames[i := f], table, file');
    hide TableOk;
    TableAt(frames, table, held, i, f);
    PinsAt(frames, table, guards, i, f);
    CoherentAt(frames, guards, file, i, f, guards, file');
  }

  /** The disk may change under pages that are not held, or be extended by a new one. */
  lemma HeldChange(frames: seq<Frame>, table: map<nat, nat>, guards: multiset<Guard>, file: seq<Bytes>, held: set<nat>,
                   file': seq<Bytes>, held': set<nat>)
    requires PoolOk(frames, table, guards, file, held)
    requires forall q :: q in table ==> q in held'
    requires forall q :: q in held && q in held' ==> OnDisk(file', q) == OnDisk(file, q)
    ensures PoolOk(frames, table, guards, file', held')
    ensures forall q :: q in held && q in held' ==>
              Plain(frames, table, file', held')[q] == Plain(frames, table, file, held)[q]
    ensures forall q :: q in held' && q !in held ==> Plain(frames, table, file', held')[q] == OnDisk(file', q)
  {
    hide Body, OnDisk;
  }

  lemma ResetKeeps(frames: seq<Frame>, table: map<nat, nat>, guards: multiset<Guard>, file: seq<Bytes>, held: set<nat>, i: nat)
    requires PoolOk(frames, table, guards, file, held) && i < |frames| && frames[i].id == INVALID
    ensures var frames' := frames[i := frames[i].(bytes := Zeros(PAGE))];
            && PoolOk(frames', table, guards, file, held)
            && Plain(frames', table, file, held) == Plain(frames, table, file, held)
  {
    hide Body, OnDisk, Zeros, PinsOk, Coherent, Plain;
    var f := frames[i].(bytes := Zeros(PAGE));
    PlainAt(frames, table, file, held, frames[i := f], table, file);
    hide TableOk;
    TableAt(frames, table, held, i, f);
    PinsAt(frames, table, guards, i, f);
    CoherentAt(frames, guards, file, i, f, guards, file);
  }

  lemma PutPageBody(d: Disk, p: nat, b: Bytes)
    requires p < |d.file| && |b| == PAGE
    ensures OnDisk(PutPage(d, p, b).file, p) == Body(b)
    ensures forall q :: q != p ==> OnDisk(PutPage(d, p, b).file, q) == OnDisk(d.file, q)
  {
    hide Stamp;
  }

  lemma CachedFacts(frames: seq<Frame>, table: map<nat, nat>, guards: multiset<Guard>, file: seq<Bytes>, held: set<nat>)
    requires PoolOk(frames, table, guards, file, held)
    ensures forall p :: p in table ==> p in held && table[p] < |frames| && frames[table[p]].id == p && p != INVALID
    ensures forall i :: 0 <= i < |frames| ==> |frames[i].bytes| == PAGE
    ensures forall i :: 0 <= i < |frames| && frames[i].id != INVALID ==> frames[i].id in table && table[frames[i].id] == i
    ensures forall i :: 0 <= i < |frames| && frames[i].id == INVALID ==> frames[i].pins == 0
    ensures forall g :: g in guards ==> g.page in table && table[g.page] == g.frame
    ensures forall i :: 0 <= i < |frames| ==> frames[i].pins == Pins(guards, frames[i].id, i)
  {
    hide Body, OnDisk;
    assert forall i, w :: Guard(INVALID, i, w) !in guards;
  }

  // ---- The pool ----

  datatype Fetch = Fetched(guard: Guard) | OutOfMemory | ReadFailed | WriteFailed

  const MAX_AGE: nat := 0xFFFF_FFFF_FFFF_FFFF

  class BufferPoolManager {
    const disk: DiskManager
    var frames: seq<Frame>
    var table: map<nat, nat>
    var clock: nat
    ghost var guards: multiset<Guard>
    ghost var uses: seq<nat>

    constructor (size: nat, disk: DiskManager)
      requires disk.Valid()
      ensures this.disk == disk && Valid() && |frames| == size && guards == multiset{}
      ensures forall p :: p in disk.owners.held ==> View()[p] == OnDisk(disk.disk.file, p)
    {
      this.disk := disk;
      frames := seq(size, i => EMPTY);
      table, clock, guards, uses := map[], 0, multiset{}, [];
    }

    ghost predicate Valid()
      reads this, disk
    {
      && disk.Valid()
      && PoolOk(frames, table, guards, disk.disk.file, disk.owners.held)
      && clock == |uses| && UsesOk(frames, uses)
    }

    /** The plain map of held pages that the pool stands for. */
    ghost function View(): map<nat, Bytes>
      reads this, disk
    {
      Plain(frames, table, disk.disk.file, disk.owners.held)
    }

    /** The least recently used cached frame without pins, else any frame without pins. */
    method Victim() returns (r: Option<nat>)
      ensures r.None? <==> forall i :: 0 <= i < |frames| ==> frames[i].pins != 0
      ensures r.Some? ==> r.value < |frames| && frames[r.value].pins == 0
      ensures r.Some? ==>
                forall i :: 0 <= i < |frames| && frames[i].pins == 0 && frames[i].id != INVALID && frames[i].age < MAX_AGE ==>
                  frames[r.value].id != INVALID && frames[r.value].age <= frames[i].age
    {
      var victim, oldest := |frames|, MAX_AGE;
      var i := 0;
      while i < |frames|
        invariant 0 <= i <= |frames| && 0 <= victim <= |frames|
        invariant victim < |frames| ==>
                    frames[victim].pins == 0 && frames[victim].id != INVALID && frames[victim].age == oldest
        invariant victim == |frames| ==> oldest == MAX_AGE
        invariant forall k :: 0 <= k < i && frames[k].pins == 0 && frames[k].id != INVALID ==> oldest <= frames[k].age
      {
        if frames[i].pins == 0 && frames[i].id != INVALID && frames[i].age < oldest {
          oldest := frames[i].age;
          victim := i;
        }
        i := i + 1;
      }
      if victim == |frames| {
        i := 0;
        while i < |frames|
          invariant 0 <= i <= |frames|
          invariant forall k :: 0 <= k < i ==> frames[k].pins != 0
        {
          if frames[i].pins == 0 {
            return Some(i);
          }
          i := i + 1;
        }
        return None;
      }
      r := Some(victim);
    }

    /** Write the frame back if it is dirty, forget its page, and reset it. */
    method Evict(v: nat) returns (ok: bool)
      requires Valid() && v < |frames| && frames[v].pins == 0
      modifies this, disk
      ensures ok && Valid() && View() == old(View())
      ensures guards == old(guards) && disk.owners == old(disk.owners) && clock == old(clock) && uses == old(uses)
      ensures |frames| == |old(frames)| && frames[v].id == INVALID
      ensures table == old(table) - {old(frames)[v].id}
      ensures disk.disk.header == old(disk.disk.header)
    {
      hide TableOk, PinsOk, Coherent, Plain, Inv, UsesOk;
      CachedFacts(frames, table, guards, disk.disk.file, disk.owners.held);
      InvMeans(disk.disk, disk.owners);
      UsesAt(frames, uses, v, frames[v].(id := INVALID, bytes := Zeros(PAGE)));
      var id := frames[v].id;
      if id != INVALID {
        if frames[v].dirty {
          PutPageHeld(disk.disk, disk.owners, id, frames[v].bytes);
          ok := disk.WritePage(id, frames[v].bytes);
          if !ok {
            return;
          }
        } else {
          CleanOnDisk(frames, table, guards, disk.disk.file, disk.owners.held, v);
        }
        EvictKeeps(frames, table, guards, old(disk.disk.file), disk.owners.held, v, disk.disk.file);
        table := table - {id};
      } else {
        ResetKeeps(frames, table, guards, disk.disk.file, disk.owners.held, v);
        assert INVALID !in table;
        assert table - {id} == table;
      }
      frames := frames[v := frames[v].(id := INVALID, bytes := Zeros(PAGE))];
      ok := true;
    }

    /** A fetch shows what was last written; only a full pool or a page outside the file makes it fail. */
    method FetchPage(p: nat, writable: bool) returns (r: Fetch)
      requires Valid() && (p in disk.owners.held || !InRange(disk.disk, p))
      modifies this, disk
      ensures Valid() && View() == old(View()) && disk.owners == old(disk.owners)
      ensures disk.disk.header == old(disk.disk.header)
      ensures r.OutOfMemory? <==> p !in old(table) && forall i :: 0 <= i < |old(frames)| ==> old(frames)[i].pins != 0
      ensures r.OutOfMemory? ==> unchanged(this) && unchanged(disk)
      ensures r.ReadFailed? <==> !r.OutOfMemory? && !InRange(old(disk.disk), p)
      ensures !r.WriteFailed?
      ensures r.Fetched? ==>
                && r.guard.page == p && r.guard.writable == writable
                && guards == old(guards) + multiset{r.guard}
                && r.guard.frame < |frames| && Body(frames[r.guard.frame].bytes) == old(View())[p]
      ensures !r.Fetched? ==> guards == old(guards)
      ensures |frames| == |old(frames)|
      ensures uses == if r.Fetched? then old(uses) + [p] else old(uses)
      ensures old(clock) < MAX_AGE ==>
                forall e, q :: e in old(table) && e !in table && q in old(table) && old(frames)[old(table)[q]].pins == 0 ==>
                  NotLater(old(uses), e, q)
    {
      hide PoolOk, Plain, Inv, Body, OnDisk, UsesOk, LastUsed, NotLater;
      CachedFacts(frames, table, guards, disk.disk.file, disk.owners.held);
      HeldInRange(disk.disk, disk.owners);
      if p in table {
        var g := PinCached(p, writable);
        return Fetched(g);
      }
      var victim := Victim();
      if victim.None? {
        return OutOfMemory;
      }
      LeastRecent(frames, table, guards, disk.disk.file, disk.owners.held, uses, victim.value);
      var ok := Evict(victim.value);
      if !ok {
        return WriteFailed;
      }
      var loaded := LoadInto(victim.value, p, writable);
      if loaded.None? {
        return ReadFailed;
      }
      r := Fetched(loaded.value);
    }

    method PinCached(p: nat, writable: bool) returns (g: Guard)
      requires Valid() && p in table
      modifies this
      ensures Valid() && View() == old(View()) && table == old(table) && uses == old(uses) + [p]
      ensures g.page == p && g.writable == writable && guards == old(guards) + multiset{g}
      ensures |frames| == |old(frames)|
      ensures g.frame < |frames| && p in View() && Body(frames[g.frame].bytes) == View()[p]
    {
      hide TableOk, PinsOk, Coherent, Plain, Inv, Body, OnDisk, UsesOk;
      CachedFacts(frames, table, guards, disk.disk.file, disk.owners.held);
      var i := table[p];
      UsesGrow(frames, uses, i, frames[i].(pins := frames[i].pins + 1, age := clock + 1));
      PinKeeps(frames, table, guards, disk.disk.file, disk.owners.held, p, writable, clock + 1);
      clock := clock + 1;
      uses := uses + [p];
      frames := frames[i := frames[i].(pins := frames[i].pins + 1, age := clock)];
      g := Guard(p, i, writable);
      guards := guards + multiset{g};
      SeenIn(frames, table, disk.disk.file, disk.owners.held, p);
    }

    method LoadInto(v: nat, p: nat, writable: bool) returns (r: Option<Guard>)
      requires Valid() && v < |frames| && frames[v].id == INVALID && p !in table
      requires p in disk.owners.held || !InRange(disk.disk, p)
      modifies this
      ensures Valid() && View() == old(View())
      ensures uses == if r.Some? then old(uses) + [p] else old(uses)
      ensures table == if r.Some? then old(table)[p := v] else old(table)
      ensures r.None? <==> !InRange(disk.disk, p)
      ensures r.None? ==> guards == old(guards)
      ensures |frames| == |old(frames)|
      ensures r.Some? ==>
                && r.value.page == p && r.value.writable == writable && guards == old(guards) + multiset{r.value}
                && r.value.frame < |frames| && p in View() && Body(frames[r.value.frame].bytes) == View()[p]
    {
      hide TableOk, PinsOk, Coherent, Plain, Inv, Body, OnDisk, UsesOk;
      HeldInRange(disk.disk, disk.owners);
      PlainKeys(frames, table, disk.disk.file, disk.owners.held);
      var read := disk.ReadPage(p);
      if read.None? {
        return None;
      }
      assert Body(read.value) == OnDisk(disk.disk.file, p) by { DiskBody(disk.disk, disk.owners, p); }
      LoadKeeps(frames, table, guards, disk.disk.file, disk.owners.held, v, p, read.value, writable, clock + 1);
      CachedFacts(frames, table, guards, disk.disk.file, disk.owners.held);
      UsesGrow(frames, uses, v, Frame(p, read.value, 1, false, clock + 1));
      clock := clock + 1;
      uses := uses + [p];
      frames := frames[v := Frame(p, read.value, 1, false, clock)];
      table := table[p := v];
      var g := Guard(p, v, writable);
      guards := guards + multiset{g};
      SeenIn(frames, table, disk.disk.file, disk.owners.held, p);
      r := Some(g);
    }

    /** NewPage: a page nobody held, empty, pinned for writing; nothing changes when no frame is free. */
    method NewPage() returns (r: Fetch, page: nat)
      requires Valid()
      modifies this, disk
      ensures CanAllocate(old(disk.disk)) ==> Valid()
      ensures r.Fetched? ==>
                && page !in old(disk.owners.held) && disk.owners.held == old(disk.owners.held) + {page}
                && r.guard.page == page && r.guard.writable && guards == old(guards) + multiset{r.guard}
                && View() == old(View())[page := Body(FreePageBytes(INVALID))]
      ensures r.OutOfMemory? <==>
                CanAllocate(old(disk.disk)) && forall i :: 0 <= i < |old(frames)| ==> old(frames)[i].pins != 0
      ensures r.OutOfMemory? ==>
                guards == old(guards) && disk.owners.held == old(disk.owners.held) && View() == old(View())
      ensures r.ReadFailed? <==> !CanAllocate(old(disk.disk))
      ensures !r.WriteFailed? && |frames| == |old(frames)|
      ensures CanAllocate(old(disk.disk)) ==> disk.owners.leaked == old(disk.owners.leaked)
    {
      hide PoolOk, Plain, Inv, Body, OnDisk, Stamp, FreePageBytes, PutHeader, AllocatedPage, FreedPage, OwnersAllocated;
      ghost var held, file, view := disk.owners.held, disk.disk.file, View();
      PlainKeys(frames, table, file, held);
      CachedFacts(frames, table, guards, disk.disk.file, disk.owners.held);
      var allocation := disk.AllocatePage();
      if allocation.None? {
        return ReadFailed, 0;
      }
      page := allocation.value;
      Grown(frames, table, guards, file, held, disk.disk.file, page);
      r := FetchPage(page, true);
      if !r.Fetched? {
        ghost var file1 := disk.disk.file;
        HeldOffChain(disk.disk, disk.owners, page);
        var freed := disk.FreePage(page);
        Shrunk(frames, table, guards, file1, held + {page}, disk.disk.file, page);
        assert held + {page} - {page} == held;
        assert view[page := Body(FreePageBytes(INVALID))] - {page} == view;
      }
    }

    /** The guard's page as its holder sees it. */
    method Read(g: Guard) returns (bytes: Bytes)
      requires Valid() && g in guards
      ensures |bytes| == PAGE && g.page in View() && Body(bytes) == View()[g.page]
    {
      hide TableOk, PinsOk, Coherent, Plain, Inv, Body, OnDisk;
      CachedFacts(frames, table, guards, disk.disk.file, disk.owners.held);
      SeenIn(frames, table, disk.disk.file, disk.owners.held, g.page);
      bytes := frames[g.frame].bytes;
    }

    /** A write through a writable guard changes that page of the map and nothing else. */
    method Write(g: Guard, bytes: Bytes)
      requires Valid() && g in guards && g.writable && |bytes| == PAGE
      modifies this
      ensures Valid() && View() == old(View())[g.page := Body(bytes)] && guards == old(guards)
      ensures |frames| == |old(frames)|
    {
      hide TableOk, PinsOk, Coherent, Plain, Inv, Body, OnDisk, UsesOk;
      WriteFrameKeeps(frames, table, guards, disk.disk.file, disk.owners.held, g, bytes);
      UsesAt(frames, uses, g.frame, frames[g.frame].(bytes := bytes));
      frames := frames[g.frame := frames[g.frame].(bytes := bytes)];
    }

    /** PageGuard::Drop, through Release. */
    method Drop(g: Guard)
      requires Valid() && g in guards
      modifies this
      ensures Valid() && View() == old(View()) && guards == old(guards) - multiset{g}
      ensures |frames| == |old(frames)|
    {
      hide TableOk, PinsOk, Coherent, Plain, Inv, UsesOk;
      CachedFacts(frames, table, guards, disk.disk.file, disk.owners.held);
      DropKeeps(frames, table, guards, disk.disk.file, disk.owners.held, g);
      if g.page in table {
        var i := table[g.page];
        var pins := if frames[i].pins > 0 then frames[i].pins - 1 else 0;
        UsesAt(frames, uses, i, frames[i].(pins := pins, dirty := frames[i].dirty || g.writable));
        frames := frames[i := frames[i].(pins := pins, dirty := frames[i].dirty || g.writable)];
      }
      guards := guards - multiset{g};
    }

    /** Move assignment: the target's own guard is dropped, the source's changes hands. */
    method Move(target: Option<Guard>, source: Option<Guard>) returns (target': Option<Guard>, source': Option<Guard>)
      requires Valid()
      requires target.Some? ==> target.value in guards
      requires source.Some? ==> source.value in guards - (if target.Some? then multiset{target.value} else multiset{})
      modifies this
      ensures Valid() && View() == old(View()) && target' == source && source' == None
      ensures guards == old(guards) - (if target.Some? then multiset{target.value} else multiset{})
      ensures target'.Some? ==> target'.value in guards
    {
      if target.Some? {
        Drop(target.value);
      }
      target', source' := source, None;
    }

    method FlushPage(p: nat) returns (ok: bool)
      requires Valid()
      modifies this, disk
      ensures Valid() && View() == old(View()) && guards == old(guards) && disk.owners == old(disk.owners)
      ensures ok <==> p in old(table)
      ensures table == old(table) && |frames| == |old(frames)|
      ensures ok ==> table[p] < |frames| && frames == old(frames)[table[p] := old(frames)[table[p]].(dirty := false)]
      ensures ok ==> OnDisk(disk.disk.file, p) == old(View())[p]
    {
      hide TableOk, PinsOk, Coherent, Plain, Inv, Body, OnDisk;
      if p !in table {
        return false;
      }
      CachedFacts(frames, table, guards, disk.disk.file, disk.owners.held);
      var i := table[p];
      SeenIn(frames, table, disk.disk.file, disk.owners.held, p);
      PutPageHeld(disk.disk, disk.owners, p, frames[i].bytes);
      ok := disk.WritePage(p, frames[i].bytes);
      if !ok {
        return;
      }
      FlushKeeps(frames, table, guards, old(disk.disk.file), disk.owners.held, i, disk.disk.file);
      UsesAt(frames, uses, i, frames[i].(dirty := false));
      frames := frames[i := frames[i].(dirty := false)];
    }

    /** Afterwards disk has every page as the map has it, except where a writer is still at work. */
    method FlushAllPages() returns (ok: bool)
      requires Valid()
      modifies this, disk
      ensures ok && Valid() && View() == old(View()) && guards == old(guards) && disk.owners == old(disk.owners)
      ensures forall p :: p in View() && (forall g :: g in guards ==> g.page != p || !g.writable) ==>
                OnDisk(disk.disk.file, p) == View()[p]
      ensures |frames| == |old(frames)|
    {
      hide PoolOk, Plain, Inv, Body, OnDisk;
      var i := 0;
      while i < |frames|
        invariant 0 <= i <= |frames| && Valid()
        invariant View() == old(View()) && guards == old(guards) && disk.owners == old(disk.owners)
        invariant |frames| == |old(frames)|
        invariant forall k :: 0 <= k < i ==> frames[k].id == INVALID || !frames[k].dirty
        decreases |frames| - i
      {
        CachedFacts(frames, table, guards, disk.disk.file, disk.owners.held);
        if frames[i].id != INVALID && frames[i].dirty {
          ok := FlushPage(frames[i].id);
          if !ok {
            return;
          }
        }
        i := i + 1;
      }
      AllClean(frames, table, guards, disk.disk.file, disk.owners.held);
      ok := true;
    }

    /** DeletePage: refused while the page is pinned; otherwise the page leaves the map and joins the free list. */
    method DeletePage(p: nat) returns (ok: bool)
      requires Valid()
      modifies this, disk
      ensures p !in old(disk.owners.chain) ==> Valid()
      ensures guards == old(guards) && |frames| == |old(frames)|
      ensures ok <==> InRange(old(disk.disk), p) && p != 0 && forall g :: g in guards ==> g.page != p
      ensures ok ==> disk.owners == OwnersFreed(old(disk.owners), p)
      ensures ok && p !in old(disk.owners.chain) ==> View() == old(View()) - {p}
      ensures !ok ==> Valid() && disk.owners == old(disk.owners) && View() == old(View())
    {
      hide PoolOk, Plain, Inv, Body, OnDisk, FreedPage, PutHeader;
      CachedFacts(frames, table, guards, disk.disk.file, disk.owners.held);
      HeldInRange(disk.disk, disk.owners);
      ghost var fs, tb, held, file := frames, table, disk.owners.held, disk.disk.file;
      if p in table {
        var i := table[p];
        if frames[i].pins != 0 {
          PinnedHasGuard(frames, guards, i);
          return false;
        }
        UsesAt(frames, uses, i, frames[i].(id := INVALID, bytes := Zeros(PAGE), dirty := false));
        frames := frames[i := frames[i].(id := INVALID, bytes := Zeros(PAGE), dirty := false)];
        table := table - {p};
      }
      assert table == tb - {p};
      ok := disk.FreePage(p);
      if ok {
        if p !in old(disk.owners.chain) {
          DeleteKeeps(fs, tb, guards, file, held, p, disk.disk.file);
        }
        GuardsOnPage(fs, tb, guards, p);
      }
    }
  }

  lemma PutPageHeld(d: Disk, o: Owners, p: nat, b: Bytes)
    requires Inv(d, o) && p in o.held && |b| == PAGE
    ensures InRange(d, p) && p < |d.file| && p != 0 && p !in o.chain
    ensures OnDisk(PutPage(d, p, b).file, p) == Body(b)
    ensures forall q :: q != p ==> OnDisk(PutPage(d, p, b).file, q) == OnDisk(d.file, q)
  {
    HeldInRange(d, o);
    InvMeans(d, o);
    PutPageBody(d, p, b);
  }

  lemma HeldInRange(d: Disk, o: Owners)
    requires Inv(d, o)
    ensures forall p :: p in o.held ==> InRange(d, p) && p != 0
  {
    hide DiskOk, ChainOk;
    InvMeans(d, o);
  }

  lemma HeldOffChain(d: Disk, o: Owners, p: nat)
    requires Inv(d, o) && p in o.held
    ensures InRange(d, p) && p != 0 && p !in o.chain && o.leaked - {p} == o.leaked
  {
    hide ChainOk, DiskOk;
    HeldInRange(d, o);
  }

  lemma DiskBody(d: Disk, o: Owners, p: nat)
    requires Inv(d, o) && InRange(d, p)
    ensures p < |d.file| && Body(d.file[p]) == OnDisk(d.file, p)
  {
    InvMeans(d, o);
  }

  lemma SeenIn(frames: seq<Frame>, table: map<nat, nat>, file: seq<Bytes>, held: set<nat>, p: nat)
    requires p in table && table[p] < |frames| && p in held
    ensures p in Plain(frames, table, file, held)
    ensures Plain(frames, table, file, held)[p] == Body(frames[table[p]].bytes)
  {
  }

  lemma PlainKeys(frames: seq<Frame>, table: map<nat, nat>, file: seq<Bytes>, held: set<nat>)
    ensures Plain(frames, table, file, held).Keys == held
  {
  }

  lemma StampBody(b: Bytes)
    requires |b| == PAGE
    ensures Body(Stamp(b)) == Body(b)
  {
    hide LittleEndian;
  }

  /** A page joins the map with the bytes it has on disk. */
  lemma Grown(frames: seq<Frame>, table: map<nat, nat>, guards: multiset<Guard>, file: seq<Bytes>, held: set<nat>,
              file': seq<Bytes>, p: nat)
    requires PoolOk(frames, table, guards, file, held) && p !in held
    requires p < |file'| && file'[p] == Stamp(FreePageBytes(INVALID))
    requires SamePages(held, file, file')
    ensures PoolOk(frames, table, guards, file', held + {p})
    ensures Plain(frames, table, file', held + {p}) == Plain(frames, table, file, held)[p := Body(FreePageBytes(INVALID))]
  {
    hide TableOk, PinsOk, Coherent, Body, Stamp, FreePageBytes;
    CachedFacts(frames, table, guards, file, held);
    HeldChange(frames, table, guards, file, held, file', held + {p});
    StampBody(FreePageBytes(INVALID));
  }

  /** A page that is not cached leaves the map. */
  lemma Shrunk(frames: seq<Frame>, table: map<nat, nat>, guards: multiset<Guard>, file: seq<Bytes>, held: set<nat>,
               file': seq<Bytes>, p: nat)
    requires PoolOk(frames, table, guards, file, held) && p !in table
    requires SamePages(held - {p}, file, file')
    ensures PoolOk(frames, table, guards, file', held - {p})
    ensures Plain(frames, table, file', held - {p}) == Plain(frames, table, file, held) - {p}
  {
    hide TableOk, PinsOk, Coherent, Body;
    CachedFacts(frames, table, guards, file, held);
    HeldChange(frames, table, guards, file, held, file', held - {p});
  }

  lemma OnDiskSame(held: set<nat>, file: seq<Bytes>, file': seq<Bytes>)
    requires SamePages(held, file, file')
    ensures forall q :: q in held ==> OnDisk(file', q) == OnDisk(file, q)
  {
    hide Body;
  }

  /** The frame of least age holds the page least recently used. */
  lemma LeastRecent(frames: seq<Frame>, table: map<nat, nat>, guards: multiset<Guard>, file: seq<Bytes>, held: set<nat>,
                    uses: seq<nat>, v: nat)
    requires PoolOk(frames, table, guards, file, held) && UsesOk(frames, uses) && v < |frames|
    requires forall i :: 0 <= i < |frames| && frames[i].pins == 0 && frames[i].id != INVALID && frames[i].age < MAX_AGE ==>
               frames[v].id != INVALID && frames[v].age <= frames[i].age
    ensures forall p :: p in table ==> table[p] < |frames|
    ensures |uses| < MAX_AGE && frames[v].id != INVALID ==>
              forall q :: q in table && frames[table[q]].pins == 0 ==> NotLater(uses, frames[v].id, q)
  {
    hide PoolOk, NotLater;
    CachedFacts(frames, table, guards, file, held);
    if |uses| < MAX_AGE && frames[v].id != INVALID {
      forall q | q in table && frames[table[q]].pins == 0
        ensures NotLater(uses, frames[v].id, q)
      {
        AgeIsRecency(uses, frames[v].id, frames[v].age, q, frames[table[q]].age);
      }
    }
  }

  lemma PinnedHasGuard(frames: seq<Frame>, guards: multiset<Guard>, i: nat)
    requires i < |frames| && frames[i].pins == Pins(guards, frames[i].id, i) && frames[i].pins != 0
    ensures exists g :: g in guards && g.page == frames[i].id
  {
    var g := if guards[Guard(frames[i].id, i, true)] > 0 then Guard(frames[i].id, i, true) else Guard(frames[i].id, i, false);
    assert g in guards;
  }

  ghost predicate Guarded(guards: multiset<Guard>, i: nat) {
    exists g :: g in guards && g.frame == i
  }

  /** A frame is pinned exactly when a live guard points into it, and that guard is on the frame's page. */
  lemma PinnedIsGuarded(frames: seq<Frame>, table: map<nat, nat>, guards: multiset<Guard>, file: seq<Bytes>,
                        held: set<nat>, i: nat)
    requires PoolOk(frames, table, guards, file, held) && i < |frames|
    ensures frames[i].pins != 0 <==> Guarded(guards, i)
    ensures forall g :: g in guards && g.frame == i ==> g.page == frames[i].id
  {
    hide PoolOk;
    CachedFacts(frames, table, guards, file, held);
    forall g | g in guards && g.frame == i
      ensures frames[i].pins != 0 && g.page == frames[i].id
    {
      assert g == Guard(frames[i].id, i, true) || g == Guard(frames[i].id, i, false);
    }
    if frames[i].pins != 0 {
      PinnedHasGuard(frames, guards, i);
    }
  }

  /** Every frame has a live guard. */
  ghost predicate Crowded(guards: multiset<Guard>, size: nat) {
    forall i :: 0 <= i < size ==> Guarded(guards, i)
  }

  /** With every frame pinned, the pages in the pool are the pages under guard. */
  lemma CrowdedMeans(frames: seq<Frame>, table: map<nat, nat>, guards: multiset<Guard>, file: seq<Bytes>, held: set<nat>)
    requires PoolOk(frames, table, guards, file, held)
    ensures Crowded(guards, |frames|) <==> forall i :: 0 <= i < |frames| ==> frames[i].pins != 0
    ensures Crowded(guards, |frames|) ==> forall p :: p in table <==> exists g :: g in guards && g.page == p
  {
    hide PoolOk;
    CachedFacts(frames, table, guards, file, held);
    forall i | 0 <= i < |frames|
      ensures frames[i].pins != 0 <==> Guarded(guards, i)
      ensures forall g :: g in guards && g.frame == i ==> g.page == frames[i].id
    {
      PinnedIsGuarded(frames, table, guards, file, held, i);
    }
    if Crowded(guards, |frames|) {
      forall p | p in table
        ensures exists g :: g in guards && g.page == p
      {
        assert Guarded(guards, table[p]);
        var g :| g in guards && g.frame == table[p];
        assert g.page == p;
      }
    }
  }

  lemma GuardsOnPage(frames: seq<Frame>, table: map<nat, nat>, guards: multiset<Guard>, p: nat)
    requires PinsOk(frames, table, guards)
    requires p in table ==> table[p] < |frames| && frames[table[p]].id == p && frames[table[p]].pins == 0
    ensures forall g :: g in guards ==> g.page != p
  {
    if p in table {
      NoGuards(frames, table, guards, table[p]);
    }
  }

  lemma AllClean(frames: seq<Frame>, table: map<nat, nat>, guards: multiset<Guard>, file: seq<Bytes>, held: set<nat>)
    requires PoolOk(frames, table, guards, file, held)
    requires forall k :: 0 <= k < |frames| ==> frames[k].id == INVALID || !frames[k].dirty
    ensures forall p :: p in Plain(frames, table, file, held) && (forall g :: g in guards ==> g.page != p || !g.writable) ==>
              OnDisk(file, p) == Plain(frames, table, file, held)[p]
  {
    hide Body, OnDisk;
    forall p | p in Plain(frames, table, file, held) && forall g :: g in guards ==> g.page != p || !g.writable
      ensures OnDisk(file, p) == Plain(frames, table, file, held)[p]
    {
      if p in table {
        assert Guard(p, table[p], true) !in guards;
      }
    }
  }

  /** An unpinned page leaves the pool and the map together. */
  lemma DeleteKeeps(frames: seq<Frame>, table: map<nat, nat>, guards: multiset<Guard>, file: seq<Bytes>, held: set<nat>,
                    p: nat, file': seq<Bytes>)
    requires PoolOk(frames, table, guards, file, held)
    requires p in table ==> table[p] < |frames| && frames[table[p]].pins == 0
    requires SamePages(held - {p}, file, file')
    ensures var frames' := if p in table
                           then frames[table[p] := frames[table[p]].(id := INVALID, bytes := Zeros(PAGE), dirty := false)]
                           else frames;
            && PoolOk(frames', table - {p}, guards, file', held - {p})
            && Plain(frames', table - {p}, file', held - {p}) == Plain(frames, table, file, held) - {p}
  {
    hide Body, Zeros, PinsOk, Coherent, OnDisk, SamePages;
    if p in table {
      var i := table[p];
      var f := frames[i].(id := INVALID, bytes := Zeros(PAGE), dirty := false);
      OnDiskSame(held - {p}, file, file');
      assert forall j :: 0 <= j < |frames| && j != i && frames[j].id != INVALID ==> frames[j].id in held - {p};
      TableEmptied(frames, table, held, i, f);
      PinsEmptied(frames, table, held, guards, i, f);
      CoherentAt(frames, guards, file, i, f, guards, file');
    } else {
      assert table - {p} == table;
      Shrunk(frames, table, guards, file, held, file', p);
    }
  }
}
