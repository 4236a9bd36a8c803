/** The write-ahead log: record format, the reading loop, tail repair, and what survives a cut at any byte. */
module Wal {
  import opened Bytes
  import opened Crc32c

  const BEGIN: Byte := 1
  const COMMIT: Byte := 2
  const UPDATE: Byte := 5

  const HEADER := 25
  const MAX_LENGTH := 0x4000_0000

  datatype LogRecord = LogRecord(lsn: U64, txn: U64, prev: U64, kind: Byte, payload: Bytes)

  predicate Fits(r: LogRecord) {
    |r.payload| <= MAX_LENGTH - HEADER
  }

  function Head(r: LogRecord): (h: Bytes)
    ensures |h| == HEADER
  {
    LittleEndian(r.lsn, 8) + LittleEndian(r.txn, 8) + LittleEndian(r.prev, 8) + [r.kind]
  }

  /** What the checksum covers: length, header, payload. */
  function Body(r: LogRecord): Bytes {
    LittleEndian(HEADER + |r.payload|, 4) + Head(r) + r.payload
  }

  function Encode(r: LogRecord): (e: Bytes)
    ensures |e| == 33 + |r.payload|
  {
    Body(r) + LittleEndian(Crc(Body(r)), 4)
  }

  /** Where each field of a record stands. */
  lemma RecordLayout(r: LogRecord)
    ensures var e, n := Encode(r), |r.payload|;
            && |e| == 33 + n
            && e[..4] == LittleEndian(25 + n, 4) && e[4..12] == LittleEndian(r.lsn, 8) && e[12..20] == LittleEndian(r.txn, 8)
            && e[20..28] == LittleEndian(r.prev, 8) && e[28] == r.kind && e[29..29 + n] == r.payload
            && e[29 + n..] == LittleEndian(Crc(e[..29 + n]), 4)
  {
    hide LittleEndian, Crc;
    assert Encode(r)[..29 + |r.payload|] == Body(r);
  }

  function EncodeAll(rs: seq<LogRecord>): Bytes {
    if rs == [] then [] else Encode(rs[0]) + EncodeAll(rs[1..])
  }

  // ---- Reading ----

  function Length(s: Bytes): nat
    requires |s| >= 4
  {
    FromLittleEndian(s[..4])
  }

  /** Whether a whole record with a good checksum stands at the front. */
  predicate HasRecord(s: Bytes) {
    && |s| >= 4
    && HEADER <= Length(s) <= MAX_LENGTH
    && |s| >= Length(s) + 8
    && Crc(s[..Length(s) + 4]) == FromLittleEndian(s[Length(s) + 4..Length(s) + 8])
  }

  function Decode(s: Bytes): LogRecord
    requires HasRecord(s)
  {
    FromLittleEndianBounded(s[4..12]);
    FromLittleEndianBounded(s[12..20]);
    FromLittleEndianBounded(s[20..28]);
    Pow256Values();
    LogRecord(FromLittleEndian(s[4..12]), FromLittleEndian(s[12..20]), FromLittleEndian(s[20..28]),
              s[28], s[29..Length(s) + 4])
  }

  function ReadOne(s: Bytes): Parsed<LogRecord> {
    if HasRecord(s) then Got(Decode(s), s[Length(s) + 8..]) else Fail
  }

  /** The valid prefix: reading stops at the first place where no whole record stands. */
  function Records(s: Bytes): seq<LogRecord> {
    match ReadOne(s)
    case Fail => []
    case Got(r, rest) => [r] + Records(rest)
  }

  method ReadRecords(file: Bytes) returns (records: seq<LogRecord>)
    ensures records == Records(file)
  {
    hide HasRecord, Decode, Records, Length;
    records := [];
    var pos := 0;
    assert file[0..] == file;
    assert records + Records(file) == Records(file);
    while HasRecord(file[pos..])
      invariant 0 <= pos <= |file|
      invariant records + Records(file[pos..]) == Records(file)
      decreases |file| - pos
    {
      var tail := file[pos..];
      RecordFitsIn(tail);
      RecordsUnfold(tail);
      var next := pos + Length(tail) + 8;
      assert tail[Length(tail) + 8..] == file[next..];
      assert records + ([Decode(tail)] + Records(file[next..])) == records + [Decode(tail)] + Records(file[next..]);
      records := records + [Decode(tail)];
      pos := next;
    }
    RecordsUnfold(file[pos..]);
  }

  lemma RecordsUnfold(s: Bytes)
    ensures HasRecord(s) ==> 4 <= |s| && Length(s) + 8 <= |s| && Records(s) == [Decode(s)] + Records(s[Length(s) + 8..])
    ensures !HasRecord(s) ==> Records(s) == []
  {
    hide Decode, Crc;
  }

  lemma RecordFitsIn(s: Bytes)
    requires HasRecord(s)
    ensures 4 <= |s| && Length(s) + 8 <= |s|
  {
  }

  // ---- A record and its bytes ----

  lemma ReadBackLength(r: LogRecord, s: Bytes)
    requires Fits(r) && |s| >= 4 && s[..4] == LittleEndian(HEADER + |r.payload|, 4)
    ensures Length(s) == HEADER + |r.payload|
  {
    Pow256Values();
    LittleEndianRoundTrip(HEADER + |r.payload|, 4);
  }

  lemma ReadBackHead(r: LogRecord)
    ensures FromLittleEndian(Head(r)[..8]) == r.lsn
    ensures FromLittleEndian(Head(r)[8..16]) == r.txn
    ensures FromLittleEndian(Head(r)[16..24]) == r.prev
    ensures Head(r)[24] == r.kind
  {
    hide LittleEndian, FromLittleEndian;
    Pow256Values();
    LittleEndianRoundTrip(r.lsn, 8);
    LittleEndianRoundTrip(r.txn, 8);
    LittleEndianRoundTrip(r.prev, 8);
    assert Head(r)[..8] == LittleEndian(r.lsn, 8);
    assert Head(r)[8..16] == LittleEndian(r.txn, 8);
    assert Head(r)[16..24] == LittleEndian(r.prev, 8);
  }

  lemma ReadOneBack(r: LogRecord, rest: Bytes)
    requires Fits(r)
    ensures ReadOne(Encode(r) + rest) == Got(r, rest)
  {
    hide LittleEndian, FromLittleEndian, Head, Crc;
    var s, n := Encode(r) + rest, HEADER + |r.payload|;
    var crc := LittleEndian(Crc(Body(r)), 4);
    assert s == LittleEndian(n, 4) + Head(r) + r.payload + crc + rest;
    assert s[..4] == LittleEndian(n, 4);
    ReadBackLength(r, s);
    assert s[..n + 4] == Body(r) && s[n + 4..n + 8] == crc && s[n + 8..] == rest;
    Pow256Values();
    LittleEndianRoundTrip(Crc(Body(r)), 4);
    var h := Head(r);
    ReadBackHead(r);
    assert s[4..29] == h;
    assert s[4..12] == h[..8] && s[12..20] == h[8..16] && s[20..28] == h[16..24] && s[28] == h[24];
    assert s[29..n + 4] == r.payload;
  }

  /** The reader accepts nothing but the encoding of what it returns. */
  lemma ReadOneInverse(s: Bytes)
    requires ReadOne(s).Got?
    ensures Fits(ReadOne(s).value)
    ensures s == Encode(ReadOne(s).value) + ReadOne(s).rest
  {
    hide LittleEndian, FromLittleEndian, Crc;
    var n := Length(s);
    var Got(r, rest) := ReadOne(s);
    LittleEndianInverse(s[..4]);
    LittleEndianInverse(s[4..12]);
    LittleEndianInverse(s[12..20]);
    LittleEndianInverse(s[20..28]);
    LittleEndianInverse(s[n + 4..n + 8]);
    assert Body(r) == s[..4] + (s[4..12] + s[12..20] + s[20..28] + [s[28]]) + s[29..n + 4];
    assert Body(r) == s[..n + 4];
    assert s == s[..n + 4] + s[n + 4..n + 8] + s[n + 8..];
  }

  /** A record of which any byte is missing at the end is not there. */
  lemma TornRecordIgnored(r: LogRecord, k: nat)
    requires Fits(r) && k < |Encode(r)|
    ensures ReadOne(Encode(r)[..k]) == Fail
  {
    hide LittleEndian, FromLittleEndian, Head, Crc;
    var s := Encode(r)[..k];
    if k >= 4 {
      assert s[..4] == LittleEndian(HEADER + |r.payload|, 4);
      ReadBackLength(r, s);
    }
  }

  // ---- A log cut at any byte ----

  /** Damage to up to four consecutive bytes between a record's length and its checksum is always noticed. */
  lemma DamageNoticed(r: LogRecord, at: nat, wrong: Bytes, rest: Bytes)
    requires Fits(r) && 4 <= at && |wrong| <= 4 && at + |wrong| <= 29 + |r.payload|
    requires wrong != Encode(r)[at..at + |wrong|]
    ensures ReadOne(Encode(r)[..at] + wrong + Encode(r)[at + |wrong|..] + rest) == Fail
  {
    hide Crc, LittleEndian, Decode, FromLittleEndian;
    var e, n := Encode(r), 29 + |r.payload|;
    var pre, right, post := e[..at], e[at..at + |wrong|], e[at + |wrong|..n];
    var s := e[..at] + wrong + e[at + |wrong|..] + rest;
    assert s[..4] == e[..4] && e[..4] == LittleEndian(HEADER + |r.payload|, 4);
    ReadBackLength(r, s);
    assert s[..n] == pre + wrong + post && Body(r) == pre + right + post;
    assert s[n..n + 4] == LittleEndian(Crc(Body(r)), 4);
    Pow256Values();
    LittleEndianRoundTrip(Crc(Body(r)), 4);
    BurstDetected(pre, right, wrong, post);
  }

  ghost predicate AllFit(rs: seq<LogRecord>) {
    forall r :: r in rs ==> Fits(r)
  }

  /** How many records lie wholly inside the first k bytes. */
  function Whole(rs: seq<LogRecord>, k: nat): (n: nat)
    ensures n <= |rs|
  {
    if rs == [] || k < |Encode(rs[0])| then 0 else 1 + Whole(rs[1..], k - |Encode(rs[0])|)
  }

  lemma {:induction false} EncodeAllAppend(a: seq<LogRecord>, b: seq<LogRecord>)
    ensures EncodeAll(a + b) == EncodeAll(a) + EncodeAll(b)
  {
    hide Encode;
    if a == [] {
      assert a + b == b;
    } else {
      assert (a + b)[1..] == a[1..] + b;
      EncodeAllAppend(a[1..], b);
    }
  }

  /** Whole is what it says: so many records fit, and no more. */
  lemma {:induction false} WholeIsExact(rs: seq<LogRecord>, k: nat)
    ensures var n := Whole(rs, k);
            |EncodeAll(rs[..n])| <= k && (n < |rs| ==> k < |EncodeAll(rs[..n + 1])|)
    decreases rs
  {
    hide Encode;
    if rs != [] {
      if k < |Encode(rs[0])| {
        assert rs[..1] == [rs[0]] && rs[..1][1..] == [];
      } else {
        var m := Whole(rs[1..], k - |Encode(rs[0])|);
        WholeIsExact(rs[1..], k - |Encode(rs[0])|);
        assert rs[..m + 1][1..] == rs[1..][..m];
        assert m + 1 < |rs| ==> rs[..m + 2][1..] == rs[1..][..m + 1];
      }
    }
  }

  /** Reading any byte prefix of a log gives exactly the records that lie wholly inside it. */
  lemma {:induction false} CutAnywhere(rs: seq<LogRecord>, k: nat)
    requires AllFit(rs) && k <= |EncodeAll(rs)|
    ensures Records(EncodeAll(rs)[..k]) == rs[..Whole(rs, k)]
    decreases rs
  {
    hide Encode, ReadOne, Fits;
    var all := EncodeAll(rs);
    if rs == [] {
      assert all[..k] == [];
      NothingInNothing();
    } else {
      var e := Encode(rs[0]);
      assert rs[0] in rs;
      if k < |e| {
        assert all[..k] == e[..k];
        TornRecordIgnored(rs[0], k);
      } else {
        var rest := EncodeAll(rs[1..])[..k - |e|];
        assert all[..k] == e + rest;
        ReadOneBack(rs[0], rest);
        CutAnywhere(rs[1..], k - |e|);
      }
    }
  }

  lemma NothingInNothing()
    ensures ReadOne([]) == Fail
  {
  }

  lemma {:induction false} WholeOfAll(rs: seq<LogRecord>)
    ensures Whole(rs, |EncodeAll(rs)|) == |rs|
  {
    hide Encode;
    if rs != [] {
      WholeOfAll(rs[1..]);
    }
  }

  lemma ReadAllBack(rs: seq<LogRecord>)
    requires AllFit(rs)
    ensures Records(EncodeAll(rs)) == rs
  {
    CutAnywhere(rs, |EncodeAll(rs)|);
    WholeOfAll(rs);
    assert EncodeAll(rs)[..|EncodeAll(rs)|] == EncodeAll(rs);
  }

  /** Of any file, however damaged, the records read are encoded by its front bytes. */
  lemma {:induction false} RecordsAreAPrefix(s: Bytes)
    ensures AllFit(Records(s)) && EncodeAll(Records(s)) <= s
    decreases s
  {
    if ReadOne(s).Got? {
      ReadOneInverse(s);
      hide Encode, ReadOne, Fits;
      var Got(r, rest) := ReadOne(s);
      assert Records(s)[1..] == Records(rest);
      RecordsAreAPrefix(rest);
    }
  }

  // ---- The log manager ----

  function Min(a: nat, b: nat): nat {
    if a < b then a else b
  }

  function Next(n: U64): U64 {
    if n == 0xFFFF_FFFF_FFFF_FFFF then 0 else n + 1
  }

  /** The sum that Open keeps of 33 + payload size over the records read. */
  function ValidBytes(rs: seq<LogRecord>): nat {
    if rs == [] then 0 else 33 + |rs[0].payload| + ValidBytes(rs[1..])
  }

  lemma {:induction false} ValidBytesIsExact(rs: seq<LogRecord>)
    ensures ValidBytes(rs) == |EncodeAll(rs)|
  {
    if rs != [] {
      ValidBytesIsExact(rs[1..]);
    }
  }

  lemma {:induction false} ValidBytesSplit(rs: seq<LogRecord>, r: LogRecord)
    ensures ValidBytes(rs + [r]) == ValidBytes(rs) + 33 + |r.payload|
  {
    if rs != [] {
      assert (rs + [r])[1..] == rs[1..] + [r];
      ValidBytesSplit(rs[1..], r);
    }
  }

  datatype Status<+T> = Ok(value: T) | NotOpen | AlreadyOpen | TooLarge

  class LogManager {
    var file: Bytes       // everything written so far
    var synced: nat       // how much of it Flush has made durable
    var nextLsn: U64
    var durableLsn: U64
    var isOpen: bool

    constructor (file: Bytes)
      ensures this.file == file && synced == |file| && nextLsn == 1 && durableLsn == 0 && !isOpen
    {
      this.file := file;
      synced := |file|;
      nextLsn, durableLsn, isOpen := 1, 0, false;
    }

    /** Reads the file, cuts off the torn tail and resumes numbering behind the last record. */
    method Open() returns (status: Status<()>)
      modifies this
      ensures status == if old(isOpen) then AlreadyOpen else Ok(())
      ensures old(isOpen) ==> unchanged(this)
      ensures !old(isOpen) ==>
                && isOpen && synced == Min(old(synced), |file|)
                && file == EncodeAll(Records(old(file)))
                && Records(file) == Records(old(file))
                && var rs := Records(file);
                   if rs == [] then nextLsn == old(nextLsn) && durableLsn == old(durableLsn)
                   else nextLsn == Next(rs[|rs| - 1].lsn) && durableLsn == rs[|rs| - 1].lsn
    {
      hide Records, EncodeAll;
      if isOpen {
        return AlreadyOpen;
      }
      var records := ReadRecords(file);
      var validBytes := 0;
      var i := 0;
      while i < |records|
        invariant 0 <= i <= |records|
        invariant validBytes == ValidBytes(records[..i]) && unchanged(this)
      {
        assert records[..i + 1] == records[..i] + [records[i]];
        ValidBytesSplit(records[..i], records[i]);
        validBytes := validBytes + 33 + |records[i].payload|;
        i := i + 1;
      }
      assert records[..|records|] == records;
      ValidBytesIsExact(records);
      RecordsAreAPrefix(file);
      ReadAllBack(records);
      if |file| > validBytes {
        file := file[..validBytes];
      }
      assert file == EncodeAll(records);
      synced := Min(synced, |file|);
      isOpen := true;
      if records != [] {
        nextLsn := Next(records[|records| - 1].lsn);
        durableLsn := records[|records| - 1].lsn;
      }
      status := Ok(());
    }

    method Append(txn: U64, prev: U64, kind: Byte, payload: Bytes) returns (status: Status<U64>)
      modifies this
      ensures status == if !old(isOpen) then NotOpen
                        else if |payload| > MAX_LENGTH - HEADER then TooLarge
                        else Ok(old(nextLsn))
      ensures !status.Ok? ==> unchanged(this)
      ensures status.Ok? ==>
                && file == old(file) + Encode(LogRecord(old(nextLsn), txn, prev, kind, payload))
                && nextLsn == Next(old(nextLsn))
                && isOpen && synced == old(synced) && durableLsn == old(durableLsn)
    {
      hide LittleEndian, Crc;
      if !isOpen {
        return NotOpen;
      }
      if |payload| > MAX_LENGTH - HEADER {
        return TooLarge;
      }
      var lsn := nextLsn;
      nextLsn := Next(nextLsn);
      var data := LittleEndian(HEADER + |payload|, 4);
      data := data + (LittleEndian(lsn, 8) + LittleEndian(txn, 8) + LittleEndian(prev, 8) + [kind]);
      data := data + payload;
      var crc := Crc(data);
      data := data + LittleEndian(crc, 4);
      file := file + data;
      status := Ok(lsn);
    }

    /** Everything written becomes durable, whatever LSN the caller names. */
    method Flush(through: U64) returns (status: Status<()>)
      modifies this
      ensures status == if old(isOpen) then Ok(()) else NotOpen
      ensures !status.Ok? ==> unchanged(this)
      ensures status.Ok? ==>
                && synced == |file| && file == old(file) && nextLsn == old(nextLsn) && isOpen
                && durableLsn == if through == 0 then old(nextLsn - 1) % 0x1_0000_0000_0000_0000 else through
    {
      if !isOpen {
        return NotOpen;
      }
      synced := |file|;
      durableLsn := if through == 0 then (nextLsn - 1) % 0x1_0000_0000_0000_0000 else through;
      status := Ok(());
    }

    method ReadAll() returns (records: seq<LogRecord>)
      ensures records == Records(file)
    {
      records := ReadRecords(file);
    }

    method Truncate() returns (status: Status<()>)
      modifies this
      ensures status == if old(isOpen) then Ok(()) else NotOpen
      ensures !status.Ok? ==> unchanged(this)
      ensures status.Ok? ==> file == [] && synced == 0 && nextLsn == 1 && durableLsn == 0 && isOpen
    {
      if !isOpen {
        return NotOpen;
      }
      file, synced := [], 0;
      nextLsn, durableLsn := 1, 0;
      status := Ok(());
    }
  }

  /** After tail repair every later append is readable. */
  lemma AppendsAfterRepairReadable(file: Bytes, more: seq<LogRecord>)
    requires AllFit(more)
    ensures Records(EncodeAll(Records(file)) + EncodeAll(more)) == Records(file) + more
  {
    hide Records, EncodeAll, Fits;
    RecordsAreAPrefix(file);
    EncodeAllAppend(Records(file), more);
    ReadAllBack(Records(file) + more);
  }
}
