/** The page file: checksummed pages, the header page, and the free list threaded through free pages. */
module Pages {
  import opened Bytes
  import opened OrderedMap
  import opened Crc32c

  const PAGE := 4096
  const INVALID: U32 := 0xFFFF_FFFF
  const FREE: Byte := 4

  /** What WritePageLocked puts on disk: the first four bytes become the checksum of the rest. */
  function Stamp(b: Bytes): (s: Bytes)
    requires |b| == PAGE
    ensures |s| == PAGE && s[4..] == b[4..]
  {
    LittleEndian(Crc(b[4..]), 4) + b[4..]
  }

  predicate Good(b: Bytes) {
    |b| == PAGE && FromLittleEndian(b[..4]) == Crc(b[4..])
  }

  lemma StampIsGood(b: Bytes)
    requires |b| == PAGE
    ensures Good(Stamp(b))
  {
    hide LittleEndian, FromLittleEndian, Crc;
    Pow256Values();
    LittleEndianRoundTrip(Crc(b[4..]), 4);
    assert Stamp(b)[..4] == LittleEndian(Crc(b[4..]), 4);
  }

  /** Damage to up to four consecutive bytes behind the checksum of a good page is always noticed. */
  lemma DamageNoticed(b: Bytes, at: nat, wrong: Bytes)
    requires Good(b) && 4 <= at && |wrong| <= 4 && at + |wrong| <= PAGE && wrong != b[at..at + |wrong|]
    ensures !Good(b[..at] + wrong + b[at + |wrong|..])
  {
    hide Crc;
    var pre, right, post := b[4..at], b[at..at + |wrong|], b[at + |wrong|..];
    var bad := b[..at] + wrong + post;
    assert b[4..] == pre + right + post && bad[4..] == pre + wrong + post && bad[..4] == b[..4];
    BurstDetected(pre, right, wrong, post);
  }

  /** A page on the free list, before it is stamped. */
  function FreePageBytes(next: nat): (b: Bytes)
    ensures |b| == PAGE
  {
    Zeros(4) + [FREE] + Zeros(11) + LittleEndian(next, 4) + Zeros(4076)
  }

  function NextFree(b: Bytes): nat
    requires |b| == PAGE
  {
    FromLittleEndian(b[16..20])
  }

  lemma NextFreeBack(next: nat)
    requires next <= INVALID
    ensures NextFree(Stamp(FreePageBytes(next))) == next
  {
    hide LittleEndian, FromLittleEndian, Crc, Stamp;
    var b := FreePageBytes(next);
    Pow256Values();
    LittleEndianRoundTrip(next, 4);
    assert b[16..20] == LittleEndian(next, 4);
    assert Stamp(b)[16..20] == Stamp(b)[4..][12..16];
    assert b[4..][12..16] == b[16..20];
  }

  // ---- The header page ----

  // "TSTONE01", version 1, page size 2^12, two reserved bytes
  const MAGIC: Bytes := [84, 83, 84, 79, 78, 69, 48, 49, 1, 12, 0, 0]

  /** others holds the counters and catalog roots that this model does not interpret. */
  datatype Header = Header(pageCount: nat, freeHead: nat, others: Bytes)

  function HeaderFields(h: Header): Bytes {
    MAGIC + LittleEndian(h.pageCount, 4) + LittleEndian(h.freeHead, 4) + h.others + Zeros(4036)
  }

  function HeaderBytes(h: Header): Bytes {
    HeaderFields(h) + LittleEndian(Crc(HeaderFields(h)), 4)
  }

  function ReadHeader(b: Bytes): Option<Header> {
    if |b| != PAGE || b[..10] != MAGIC[..10] || FromLittleEndian(b[4092..]) != Crc(b[..4092]) then None
    else Some(Header(FromLittleEndian(b[12..16]), FromLittleEndian(b[16..20]), b[20..56]))
  }

  ghost predicate HeaderFits(h: Header) {
    1 <= h.pageCount <= INVALID && h.freeHead <= INVALID && |h.others| == 36
  }

  lemma HeaderBack(h: Header)
    requires HeaderFits(h)
    ensures |HeaderBytes(h)| == PAGE && ReadHeader(HeaderBytes(h)) == Some(h)
  {
    hide LittleEndian, FromLittleEndian, Crc;
    Pow256Values();
    var f := HeaderFields(h);
    var b := HeaderBytes(h);
    LittleEndianRoundTrip(h.pageCount, 4);
    LittleEndianRoundTrip(h.freeHead, 4);
    LittleEndianRoundTrip(Crc(f), 4);
    assert |f| == 4092 && b[..4092] == f && b[4092..] == LittleEndian(Crc(f), 4);
    assert b[..10] == MAGIC[..10];
    assert b[12..16] == LittleEndian(h.pageCount, 4);
    assert b[16..20] == LittleEndian(h.freeHead, 4);
    assert b[20..56] == h.others;
  }

  /** Where the fields of the header page stand: the page count at 12, the free list at 16, a checksum at the end. */
  lemma HeaderLayout(h: Header)
    requires HeaderFits(h)
    ensures var b := HeaderBytes(h);
            && |b| == PAGE && b[..12] == MAGIC && b[12..16] == LittleEndian(h.pageCount, 4)
            && b[16..20] == LittleEndian(h.freeHead, 4) && b[20..56] == h.others
            && b[4092..] == LittleEndian(Crc(b[..4092]), 4)
  {
    hide LittleEndian, Crc;
    assert HeaderBytes(h)[..4092] == HeaderFields(h);
  }

  /** A free page says so in byte 4 and names the next one from byte 16 on; all other bytes are zero. */
  lemma FreePageLayout(next: nat, i: nat)
    requires i < PAGE
    ensures FreePageBytes(next)[i]
         == if i == 4 then 4 else if 16 <= i < 20 then LittleEndian(next, 4)[i - 16] else 0
  {
    hide LittleEndian;
  }

  // ---- The disk and its owners ----

  datatype Disk = Disk(file: seq<Bytes>, header: Header)

  /** Who holds each page: a client, the free list (in list order), or nobody any more. */
  datatype Owners = Owners(held: set<nat>, chain: seq<nat>, leaked: set<nat>)

  predicate InRange(d: Disk, p: nat) {
    p != INVALID && p < d.header.pageCount
  }

  function PutPage(d: Disk, p: nat, b: Bytes): Disk
    requires p <= |d.file| && |b| == PAGE
  {
    d.(file := if p < |d.file| then d.file[p := Stamp(b)] else d.file + [Stamp(b)])
  }

  function PutHeader(d: Disk): Disk
    requires d.file != []
  {
    d.(file := d.file[0 := HeaderBytes(d.header)])
  }

  /** The page AllocatePage is about to return. */
  function Candidate(d: Disk): nat {
    if d.header.freeHead != INVALID then d.header.freeHead else d.header.pageCount
  }

  /** The header in memory once the candidate is taken. */
  function TakenHeader(d: Disk): Header
    requires d.header.freeHead != INVALID ==> d.header.freeHead < |d.file| && |d.file[d.header.freeHead]| == PAGE
  {
    if d.header.freeHead != INVALID then d.header.(freeHead := NextFree(d.file[d.header.freeHead]))
    else d.header.(pageCount := (d.header.pageCount + 1) % 0x1_0000_0000)
  }

  /** The i-th free page points at the next one, the last at nothing. */
  ghost predicate LinkOk(d: Disk, chain: seq<nat>, i: nat)
    requires i < |chain|
  {
    && chain[i] < |d.file| && |d.file[chain[i]]| == PAGE
    && NextFree(d.file[chain[i]]) == (if i + 1 < |chain| then chain[i + 1] else INVALID)
  }

  ghost predicate ChainOk(d: Disk, chain: seq<nat>) {
    && d.header.freeHead == (if chain == [] then INVALID else chain[0])
    && (forall i :: 0 <= i < |chain| ==> 1 <= chain[i] < d.header.pageCount)
    && (forall i :: 0 <= i < |chain| ==> LinkOk(d, chain, i))
    && (forall i, j :: 0 <= i < j < |chain| ==> chain[i] != chain[j])
  }

  ghost predicate DiskOk(d: Disk) {
    && HeaderFits(d.header)
    && d.header.pageCount <= |d.file|
    && d.file[0] == HeaderBytes(d.header)
    && forall p :: 1 <= p < d.header.pageCount ==> Good(d.file[p])
  }

  /** Every page has exactly one owner. */
  ghost predicate Partition(n: nat, o: Owners) {
    && (forall p :: p in o.held || p in o.chain || p in o.leaked ==> 1 <= p < n)
    && (forall p :: 1 <= p < n ==> p in o.held || p in o.chain || p in o.leaked)
    && (forall p :: p in o.held ==> p !in o.chain && p !in o.leaked)
    && (forall p :: p in o.chain ==> p !in o.leaked)
  }

  ghost predicate SamePages(ps: set<nat>, file: seq<Bytes>, file': seq<Bytes>) {
    forall p :: p in ps ==> p < |file| && p < |file'| && file'[p] == file[p]
  }

  ghost predicate Inv(d: Disk, o: Owners) {
    DiskOk(d) && ChainOk(d, o.chain) && Partition(d.header.pageCount, o)
  }

  // ---- Allocate, free, write ----

  ghost predicate CanAllocate(d: Disk) {
    d.header.freeHead != INVALID || d.header.pageCount < INVALID
  }

  /** Allocation up to the page write: the header on disk is still the old one. */
  function AllocatedPage(d: Disk): Disk
    requires d.header.freeHead != INVALID ==> d.header.freeHead < |d.file| && |d.file[d.header.freeHead]| == PAGE
    requires Candidate(d) <= |d.file|
  {
    PutPage(d.(header := TakenHeader(d)), Candidate(d), FreePageBytes(INVALID))
  }

  function FreedPage(d: Disk, p: nat): Disk
    requires p < |d.file|
  {
    PutPage(d, p, FreePageBytes(d.header.freeHead)).(header := d.header.(freeHead := p))
  }

  ghost function OwnersAllocated(d: Disk, o: Owners): Owners {
    Owners(o.held + {Candidate(d)}, if o.chain == [] then [] else o.chain[1..], o.leaked)
  }

  function OwnersFreed(o: Owners, p: nat): Owners {
    Owners(o.held - {p}, [p] + o.chain, o.leaked - {p})
  }

  lemma InvMeans(d: Disk, o: Owners)
    requires Inv(d, o)
    ensures 1 <= d.header.pageCount <= INVALID && d.header.pageCount <= |d.file|
    ensures forall p :: 1 <= p < d.header.pageCount ==> |d.file[p]| == PAGE
    ensures d.header.freeHead != INVALID ==>
              o.chain != [] && o.chain[0] == d.header.freeHead && 1 <= d.header.freeHead < d.header.pageCount
    ensures CanAllocate(d) ==> 1 <= Candidate(d) <= |d.file| && Candidate(d) < INVALID
  {
    hide HeaderBytes, NextFree;
  }

  lemma AllocateFromList(d: Disk, o: Owners)
    requires Inv(d, o) && o.chain != []
    ensures d.header.freeHead < |d.file| && |d.file[d.header.freeHead]| == PAGE && Candidate(d) <= |d.file|
    ensures Candidate(d) !in o.held && Inv(PutHeader(AllocatedPage(d)), OwnersAllocated(d, o))
  {
    hide HeaderBytes, NextFree, Stamp, FreePageBytes, Good;
    InvMeans(d, o);
    StampIsGood(FreePageBytes(INVALID));
    TakenChain(d, o);
    var rest := o.chain[1..];
    assert o.chain[0] in o.chain;
    assert forall p :: p in rest ==> p in o.chain;
    assert forall p :: p in o.chain && p != o.chain[0] ==> p in rest;
    assert o.chain[0] !in rest;
    var d' := PutHeader(AllocatedPage(d));
    forall i | 0 <= i < |rest|
      ensures LinkOk(d', rest, i)
    {
      assert LinkOk(d, o.chain, i + 1);
      assert rest[i] == o.chain[i + 1] && rest[i] != o.chain[0];
    }
    assert ChainOk(d', rest);
  }

  lemma AllocateByGrowth(d: Disk, o: Owners)
    requires Inv(d, o) && o.chain == [] && CanAllocate(d)
    ensures d.header.freeHead == INVALID && Candidate(d) <= |d.file|
    ensures Candidate(d) !in o.held && Inv(PutHeader(AllocatedPage(d)), OwnersAllocated(d, o))
  {
    hide HeaderBytes, NextFree, Stamp, FreePageBytes, Good;
    InvMeans(d, o);
    StampIsGood(FreePageBytes(INVALID));
  }

  /** AllocatePage never returns a page in use, and keeps every page with one owner. */
  lemma AllocateKeeps(d: Disk, o: Owners)
    requires Inv(d, o) && CanAllocate(d)
    ensures 1 <= Candidate(d) <= |d.file| && Candidate(d) !in o.held
    ensures d.header.freeHead != INVALID ==> d.header.freeHead < |d.file| && |d.file[d.header.freeHead]| == PAGE
    ensures var d' := PutHeader(AllocatedPage(d));
            && Inv(d', OwnersAllocated(d, o))
            && InRange(d', Candidate(d))
            && Candidate(d) < |d'.file| && d'.file[Candidate(d)] == Stamp(FreePageBytes(INVALID))
            && SamePages(o.held, d.file, d'.file)
  {
    hide HeaderBytes, NextFree, Stamp, FreePageBytes, Good, ChainOk;
    InvMeans(d, o);
    if o.chain == [] {
      AllocateByGrowth(d, o);
    } else {
      AllocateFromList(d, o);
    }
  }

  lemma TakenChain(d: Disk, o: Owners)
    requires Inv(d, o) && o.chain != []
    ensures d.header.freeHead < |d.file| && |d.file[d.header.freeHead]| == PAGE
    ensures TakenHeader(d).freeHead == (if |o.chain| > 1 then o.chain[1] else INVALID)
    ensures TakenHeader(d).freeHead <= INVALID
  {
    hide HeaderBytes;
    InvMeans(d, o);
    assert LinkOk(d, o.chain, 0);
    assert |o.chain| > 1 ==> 1 <= o.chain[1] < d.header.pageCount;
  }

  lemma FreeChain(d: Disk, chain: seq<nat>, p: nat)
    requires ChainOk(d, chain) && p !in chain && 1 <= p < d.header.pageCount <= INVALID && d.header.pageCount <= |d.file|
    requires d.header.freeHead <= INVALID
    ensures ChainOk(PutHeader(FreedPage(d, p)), [p] + chain)
  {
    hide HeaderBytes, NextFree, Stamp, FreePageBytes;
    NextFreeBack(d.header.freeHead);
    var d', c := PutHeader(FreedPage(d, p)), [p] + chain;
    forall i | 0 <= i < |c|
      ensures LinkOk(d', c, i)
    {
      if i > 0 {
        assert c[i] == chain[i - 1] && chain[i - 1] in chain;
        assert LinkOk(d, chain, i - 1);
      }
    }
    assert forall i :: 0 < i < |c| ==> c[i] == chain[i - 1] && c[i] in chain;
  }

  lemma FreePartition(n: nat, o: Owners, p: nat)
    requires Partition(n, o) && (p in o.held || p in o.leaked)
    ensures Partition(n, OwnersFreed(o, p)) && 1 <= p < n && p !in o.chain
  {
    assert forall q :: q in [p] + o.chain <==> q == p || q in o.chain;
  }

  /** A page that is given back goes to the head of the list; nothing else moves. */
  lemma FreeKeeps(d: Disk, o: Owners, p: nat)
    requires Inv(d, o) && (p in o.held || p in o.leaked)
    ensures 1 <= p < |d.file|
    ensures var d' := PutHeader(FreedPage(d, p));
            && Inv(d', OwnersFreed(o, p))
            && SamePages(o.held - {p}, d.file, d'.file)
  {
    hide HeaderBytes, Stamp, FreePageBytes, Good, ChainOk;
    InvMeans(d, o);
    FreePartition(d.header.pageCount, o, p);
    FreeChain(d, o.chain, p);
    StampIsGood(FreePageBytes(d.header.freeHead));
    assert SamePages(o.held - {p}, d.file, PutHeader(FreedPage(d, p)).file);
    hide Partition;
  }

  /** After a page on the list was freed again, the links run along the old list until they are back at it. */
  lemma {:induction false} DoubleFreeLinks(d: Disk, o: Owners, k: nat, c: seq<nat>, i: nat)
    requires Inv(d, o) && i <= k < |o.chain|
    requires o.chain[k] < |d.file| && ChainOk(PutHeader(FreedPage(d, o.chain[k])), c)
    ensures i + 1 < |c| && c[i + 1] == o.chain[i]
    decreases i
  {
    hide HeaderBytes, NextFree, Stamp, FreePageBytes, Good;
    var p := o.chain[k];
    var d' := PutHeader(FreedPage(d, p));
    InvMeans(d, o);
    NextFreeBack(d.header.freeHead);
    if i == 0 {
      assert LinkOk(d', c, 0);
    } else {
      DoubleFreeLinks(d, o, k, c, i - 1);
      assert LinkOk(d, o.chain, i - 1);
      assert LinkOk(d', c, i);
    }
  }

  /** FreePage keeps the pages apart exactly when the page is not on the list already. */
  lemma FreeExactly(d: Disk, o: Owners, p: nat)
    requires Inv(d, o) && 1 <= p < d.header.pageCount
    ensures p < |d.file|
    ensures (exists o' :: Inv(PutHeader(FreedPage(d, p)), o')) <==> p !in o.chain
  {
    hide DiskOk, FreedPage, PutHeader, LinkOk;
    InvMeans(d, o);
    FreedHead(d, p);
    if p !in o.chain {
      FreeKeeps(d, o, p);
    } else {
      var k :| 0 <= k < |o.chain| && o.chain[k] == p;
      forall o'
        ensures !Inv(PutHeader(FreedPage(d, p)), o')
      {
        if Inv(PutHeader(FreedPage(d, p)), o') {
          DoubleFreeLinks(d, o, k, o'.chain, k);
        }
      }
    }
  }

  lemma FreedHead(d: Disk, p: nat)
    requires p < |d.file|
    ensures FreedPage(d, p).file != [] && PutHeader(FreedPage(d, p)).header.freeHead == p
  {
  }

  lemma ChainUntouched(d: Disk, d': Disk, chain: seq<nat>)
    requires ChainOk(d, chain) && d'.header == d.header
    requires forall q :: q in chain && q < |d.file| ==> q < |d'.file| && d'.file[q] == d.file[q]
    ensures ChainOk(d', chain)
  {
    hide NextFree;
    forall i | 0 <= i < |chain|
      ensures LinkOk(d', chain, i)
    {
      assert LinkOk(d, chain, i) && chain[i] in chain;
    }
  }

  /** The header page is written as it is given, every other page with its checksum. */
  function WrittenPage(d: Disk, p: nat, b: Bytes): Disk
    requires p < |d.file| && |b| == PAGE
  {
    if p == 0 then d.(file := d.file[0 := b]) else PutPage(d, p, b)
  }

  lemma WriteKeeps(d: Disk, o: Owners, p: nat, b: Bytes)
    requires Inv(d, o) && (p in o.held || p in o.leaked) && |b| == PAGE
    ensures 1 <= p < |d.file| && Inv(PutPage(d, p, b), o)
  {
    hide HeaderBytes, NextFree, Stamp, Good, ChainOk;
    InvMeans(d, o);
    StampIsGood(b);
    ChainUntouched(d, PutPage(d, p, b), o.chain);
  }

  // ---- Crashes ----

  /** What Open makes of a file that a crash left behind. */
  function Reopened(file: seq<Bytes>): Option<Disk> {
    if file == [] then None
    else
      match ReadHeader(file[0])
      case None => None
      case Some(h) => Some(Disk(file, h))
  }

  lemma ReopenSame(d: Disk, o: Owners)
    requires Inv(d, o)
    ensures Reopened(d.file) == Some(d)
  {
    hide HeaderBytes, ReadHeader;
    HeaderBack(d.header);
  }

  /** No page id is left: every one is held or leaked. */
  ghost predicate Exhausted(held: set<nat>, leaked: set<nat>) {
    forall p :: 1 <= p < INVALID ==> p in held || p in leaked
  }

  /** Allocation fails exactly when no page id is left. */
  lemma AllocateFailsExactly(d: Disk, o: Owners)
    requires Inv(d, o)
    ensures CanAllocate(d) <==> !Exhausted(o.held, o.leaked)
  {
    hide DiskOk, LinkOk;
    InvMeans(d, o);
    if d.header.freeHead != INVALID {
      assert o.chain[0] in o.chain;
      assert 1 <= o.chain[0] < INVALID;
    } else if d.header.pageCount < INVALID {
      assert d.header.pageCount !in o.held && d.header.pageCount !in o.leaked;
    } else {
      assert o.chain == [];
    }
  }

  /** A crash in AllocatePage between page and header: the rest of the list may leak, nothing is shared. */
  lemma AllocateCrash(d: Disk, o: Owners)
    requires Inv(d, o) && CanAllocate(d)
    ensures d.header.freeHead != INVALID ==> d.header.freeHead < |d.file| && |d.file[d.header.freeHead]| == PAGE
    ensures Candidate(d) <= |d.file|
    ensures var r := Reopened(AllocatedPage(d).file);
            var o' := if o.chain == [] then o
                      else Owners(o.held, [o.chain[0]], o.leaked + (set p | p in o.chain[1..]));
            r.Some? && Inv(r.value, o')
  {
    hide HeaderBytes, ReadHeader, NextFree, Stamp, FreePageBytes, Good;
    InvMeans(d, o);
    HeaderBack(d.header);
    StampIsGood(FreePageBytes(INVALID));
    NextFreeBack(INVALID);
    if o.chain != [] {
      assert o.chain[0] in o.chain;
      assert forall p :: p in o.chain[1..] ==> p in o.chain;
      assert forall p :: p in o.chain && p != o.chain[0] ==> p in o.chain[1..];
      assert o.chain[0] !in o.chain[1..];
    }
  }

  /** A crash in FreePage between page and header: the page leaks, it is on neither side. */
  lemma FreeCrash(d: Disk, o: Owners, p: nat)
    requires Inv(d, o) && p in o.held
    ensures p < |d.file|
    ensures var r := Reopened(FreedPage(d, p).file);
            r.Some? && Inv(r.value, Owners(o.held - {p}, o.chain, o.leaked + {p}))
  {
    hide HeaderBytes, ReadHeader, NextFree, Stamp, FreePageBytes, Good, ChainOk;
    InvMeans(d, o);
    HeaderBack(d.header);
    StampIsGood(FreePageBytes(d.header.freeHead));
    ChainUntouched(d, Disk(FreedPage(d, p).file, d.header), o.chain);
  }

  // ---- Every run ----

  datatype Action = Allocate | Free(p: nat) | Write(p: nat, b: Bytes) | CrashAllocating | CrashFreeing(p: nat) | Crash

  datatype System = System(disk: Disk, owners: Owners)

  /** Clients free and write only pages they hold; anything else is not a step. */
  ghost function Step(s: System, a: Action): System
    requires Inv(s.disk, s.owners)
  {
    InvMeans(s.disk, s.owners);
    var System(d, o) := s;
    match a
    case Allocate => if CanAllocate(d) then System(PutHeader(AllocatedPage(d)), OwnersAllocated(d, o)) else s
    case Free(p) => if p in o.held then System(PutHeader(FreedPage(d, p)), OwnersFreed(o, p)) else s
    case Write(p, b) => if p in o.held && |b| == PAGE then System(PutPage(d, p, b), o) else s
    case CrashAllocating =>
      if !CanAllocate(d) || Reopened(AllocatedPage(d).file).None? then s
      else
        System(Reopened(AllocatedPage(d).file).value,
               if o.chain == [] then o
               else Owners(o.held, [o.chain[0]], o.leaked + (set p | p in o.chain[1..])))
    case CrashFreeing(p) =>
      if p !in o.held || Reopened(FreedPage(d, p).file).None? then s
      else System(Reopened(FreedPage(d, p).file).value, Owners(o.held - {p}, o.chain, o.leaked + {p}))
    case Crash => if Reopened(d.file).None? then s else System(Reopened(d.file).value, o)
  }

  lemma StepKeeps(s: System, a: Action)
    requires Inv(s.disk, s.owners)
    ensures Inv(Step(s, a).disk, Step(s, a).owners)
  {
    hide Inv, AllocatedPage, FreedPage, PutPage, Reopened;
    var System(d, o) := s;
    match a
    case Allocate => if CanAllocate(d) { AllocateKeeps(d, o); }
    case Free(p) => if p in o.held { FreeKeeps(d, o, p); }
    case Write(p, b) => if p in o.held && |b| == PAGE { WriteKeeps(d, o, p, b); }
    case CrashAllocating => if CanAllocate(d) { AllocateCrash(d, o); }
    case CrashFreeing(p) => if p in o.held { FreeCrash(d, o, p); }
    case Crash => ReopenSame(d, o);
  }

  ghost predicate Reachable(s: System, start: System, actions: seq<Action>)
    decreases actions
  {
    if actions == [] then s == start
    else Inv(start.disk, start.owners) && Reachable(s, Step(start, actions[0]), actions[1..])
  }

  /** Over any run with any crashes, every page has exactly one owner and the list stays acyclic. */
  lemma {:induction false} EveryRunConserves(s: System, start: System, actions: seq<Action>)
    requires Inv(start.disk, start.owners) && Reachable(s, start, actions)
    ensures Inv(s.disk, s.owners)
    decreases actions
  {
    hide Inv, Step;
    if actions != [] {
      StepKeeps(start, actions[0]);
      EveryRunConserves(s, Step(start, actions[0]), actions[1..]);
    }
  }

  /** A new file: the header page alone. */
  function NewDisk(others: Bytes): Disk {
    var h := Header(1, INVALID, others);
    Disk([HeaderBytes(h)], h)
  }

  lemma NewDiskInv(others: Bytes)
    requires |others| == 36
    ensures Inv(NewDisk(others), Owners({}, [], {}))
  {
  }
}
