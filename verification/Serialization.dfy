/** The data-file format: SerializeTables, LoadTablesBytes and what they promise each other. */
module Serialization {
  import opened Bytes
  import opened OrderedMap
  import opened Values

  // ---- Writing ----

  // "TUPLESTONE-DATA-2"
  const MAGIC: Bytes := [84, 85, 80, 76, 69, 83, 84, 79, 78, 69, 45, 68, 65, 84, 65, 45, 50]

  function PutString(s: Bytes): Bytes {
    LittleEndian(|s|, 4) + s
  }

  function PutPayload(v: Value): Bytes {
    match v
    case Null => []
    case Boolean(b) => [if b then 1 else 0]
    case Integer(i) => LittleEndian(ToU64(i), 8)
    case Real(bits) => LittleEndian(bits, 8)
    case Text(t) => PutString(t)
    case Blob(b) => PutString(b)
  }

  function PutValue(v: Value): Bytes {
    [Tag(TypeOf(v))] + PutPayload(v)
  }

  function PutFlag(b: bool): Bytes {
    [if b then 1 else 0]
  }

  function PutColumn(c: Column): Bytes {
    PutString(c.name) + ([Tag(c.typ)] + (PutFlag(c.nullable) + (PutFlag(c.primaryKey) + PutFlag(c.unique))))
  }

  function PutColumns(cs: seq<Column>): Bytes {
    if cs == [] then [] else PutColumn(cs[0]) + PutColumns(cs[1..])
  }

  function PutValues(vs: seq<Value>): Bytes {
    if vs == [] then [] else PutValue(vs[0]) + PutValues(vs[1..])
  }

  function PutRow(row: Row): Bytes {
    LittleEndian(|row|, 4) + PutValues(row)
  }

  function PutRows(rows: seq<Row>): Bytes {
    if rows == [] then [] else PutRow(rows[0]) + PutRows(rows[1..])
  }

  function PutTable(e: (Bytes, Table)): Bytes {
    PutString(e.0)
    + (LittleEndian(|e.1.schema|, 4) + (PutColumns(e.1.schema) + (LittleEndian(|e.1.rows|, 4) + PutRows(e.1.rows))))
  }

  function PutTables(ts: Tables): Bytes {
    if ts == [] then [] else PutTable(ts[0]) + PutTables(ts[1..])
  }

  function Serialize(ts: Tables): Bytes {
    PutString(MAGIC) + (LittleEndian(|ts|, 4) + PutTables(ts))
  }

  // ---- Reading ----

  function GetByte(s: Bytes): Parsed<Byte> {
    if s == [] then Fail else Got(s[0], s[1..])
  }

  function GetUnsigned(s: Bytes, width: nat): Parsed<nat> {
    if |s| < width then Fail else Got(FromLittleEndian(s[..width]), s[width..])
  }

  function GetString(s: Bytes): Parsed<Bytes> {
    match GetUnsigned(s, 4)
    case Fail => Fail
    case Got(size, rest) => if size > |rest| then Fail else Got(rest[..size], rest[size..])
  }

  function GetU64(s: Bytes): (r: Parsed<U64>) {
    if |s| < 8 then Fail
    else
      FromLittleEndianBounded(s[..8]);
      Pow256Values();
      Got(FromLittleEndian(s[..8]), s[8..])
  }

  function GetValue(s: Bytes): Parsed<Value> {
    match GetByte(s)
    case Fail => Fail
    case Got(tag, rest) =>
      if tag == 0 then Got(Null, rest)
      else if tag == 1 then
        match GetByte(rest) {
          case Fail => Fail
          case Got(b, rest') => if b > 1 then Fail else Got(Boolean(b != 0), rest')
        }
      else if tag == 2 then
        match GetU64(rest) {
          case Fail => Fail
          case Got(n, rest') => Got(Integer(ToI64(n)), rest')
        }
      else if tag == 3 then
        match GetU64(rest) {
          case Fail => Fail
          case Got(n, rest') => Got(Real(n), rest')
        }
      else if tag == 4 then
        match GetString(rest) {
          case Fail => Fail
          case Got(t, rest') => Got(Text(t), rest')
        }
      else if tag == 5 then
        match GetString(rest) {
          case Fail => Fail
          case Got(b, rest') => Got(Blob(b), rest')
        }
      else Fail
  }

  /** The column types a schema may have; anything else is corruption. */
  function ColumnType(tag: Byte): Option<TypeId> {
    if tag == 1 then Some(TBoolean)
    else if tag == 2 then Some(TInteger)
    else if tag == 3 then Some(TReal)
    else if tag == 4 then Some(TText)
    else if tag == 5 then Some(TBlob)
    else None
  }

  function GetColumn(s: Bytes): Parsed<Column> {
    match GetString(s)
    case Fail => Fail
    case Got(name, r) =>
      if |r| < 4 || ColumnType(r[0]).None? then Fail
      else Got(Column(name, ColumnType(r[0]).value, r[1] != 0, r[2] != 0, r[3] != 0), r[4..])
  }

  function GetColumns(n: nat, s: Bytes, done: seq<Column>): Parsed<seq<Column>> {
    if n == 0 then Got(done, s)
    else
      match GetColumn(s)
      case Fail => Fail
      case Got(c, rest) => GetColumns(n - 1, rest, done + [c])
  }

  function GetValues(n: nat, s: Bytes, done: Row): Parsed<Row> {
    if n == 0 then Got(done, s)
    else
      match GetValue(s)
      case Fail => Fail
      case Got(v, rest) => GetValues(n - 1, rest, done + [v])
  }

  function GetRow(width: nat, s: Bytes): Parsed<Row> {
    match GetUnsigned(s, 4)
    case Fail => Fail
    case Got(w, rest) => if w != width then Fail else GetValues(width, rest, [])
  }

  function GetRows(n: nat, width: nat, s: Bytes, done: seq<Row>): Parsed<seq<Row>> {
    if n == 0 then Got(done, s)
    else
      match GetRow(width, s)
      case Fail => Fail
      case Got(row, rest) => GetRows(n - 1, width, rest, done + [row])
  }

  function GetSchema(s: Bytes): Parsed<seq<Column>> {
    match GetUnsigned(s, 4)
    case Fail => Fail
    case Got(n, rest) => if n > 10000 then Fail else GetColumns(n, rest, [])
  }

  function GetBody(schema: seq<Column>, s: Bytes): Parsed<seq<Row>> {
    match GetUnsigned(s, 4)
    case Fail => Fail
    case Got(n, rest) => if n > 100000000 then Fail else GetRows(n, |schema|, rest, [])
  }

  function GetTable(s: Bytes): Parsed<(Bytes, Table)> {
    match GetString(s)
    case Fail => Fail
    case Got(name, r) =>
      match GetSchema(r)
      case Fail => Fail
      case Got(schema, r') =>
        match GetBody(schema, r')
        case Fail => Fail
        case Got(rows, rest) => Got((name, Table(schema, rows)), rest)
  }

  function GetTables(n: nat, s: Bytes, done: Tables): Parsed<Tables> {
    if n == 0 then Got(done, s)
    else
      match GetTable(s)
      case Fail => Fail
      case Got(e, rest) => GetTables(n - 1, rest, Emplace(done, Lower(e.0), e.1))
  }

  datatype LoadResult = Loaded(tables: Tables) | Incompatible | Corruption

  function GetCounted(s: Bytes): Parsed<Tables> {
    match GetUnsigned(s, 4)
    case Fail => Fail
    case Got(n, rest) => if n > 100000 then Fail else GetTables(n, rest, [])
  }

  function Load(bytes: Bytes): LoadResult {
    match GetString(bytes)
    case Fail => Incompatible
    case Got(magic, rest) =>
      if magic != MAGIC then Incompatible
      else
        match GetCounted(rest)
        case Fail => Corruption
        case Got(tables, left) => if left != [] then Corruption else Loaded(tables)
  }

  // ---- The format limits ----

  const LIMIT32 := 0x1_0000_0000

  predicate ValueFits(v: Value) {
    match v
    case Text(t) => |t| < LIMIT32
    case Blob(b) => |b| < LIMIT32
    case _ => true
  }

  predicate RowFits(width: nat, row: Row) {
    |row| == width && forall v :: v in row ==> ValueFits(v)
  }

  predicate ColumnFits(c: Column) {
    |c.name| < LIMIT32 && c.typ != TNull
  }

  predicate SchemaFits(schema: seq<Column>) {
    |schema| <= 10000 && forall c :: c in schema ==> ColumnFits(c)
  }

  predicate BodyFits(schema: seq<Column>, rows: seq<Row>) {
    |rows| <= 100000000 && forall row :: row in rows ==> RowFits(|schema|, row)
  }

  predicate EntryFits(e: (Bytes, Table)) {
    && Lower(e.0) == e.0 && |e.0| < LIMIT32
    && SchemaFits(e.1.schema) && BodyFits(e.1.schema, e.1.rows)
  }

  /** The tables the format can hold. */
  predicate Fits(ts: Tables) {
    Sorted(ts) && |ts| <= 100000 && forall e :: e in ts ==> EntryFits(e)
  }

  // ---- Reading back what was written ----

  lemma UnsignedBack(v: nat, width: nat, rest: Bytes)
    requires v < Pow256(width)
    ensures GetUnsigned(LittleEndian(v, width) + rest, width) == Got(v, rest)
  {
    var b := LittleEndian(v, width);
    LittleEndianRoundTrip(v, width);
    assert (b + rest)[..width] == b && (b + rest)[width..] == rest;
  }

  lemma CountBack(v: nat, rest: Bytes)
    requires v < LIMIT32
    ensures GetUnsigned(LittleEndian(v, 4) + rest, 4) == Got(v, rest)
  {
    Pow256Values();
    UnsignedBack(v, 4, rest);
  }

  lemma StringBack(s: Bytes, rest: Bytes)
    requires |s| < LIMIT32
    ensures GetString(PutString(s) + rest) == Got(s, rest)
  {
    assert PutString(s) + rest == LittleEndian(|s|, 4) + (s + rest);
    CountBack(|s|, s + rest);
    assert (s + rest)[..|s|] == s && (s + rest)[|s|..] == rest;
  }

  lemma U64Back(n: U64, rest: Bytes)
    ensures GetU64(LittleEndian(n, 8) + rest) == Got(n, rest)
  {
    Pow256Values();
    UnsignedBack(n, 8, rest);
  }

  lemma ValueBack(v: Value, rest: Bytes)
    requires ValueFits(v)
    ensures GetValue(PutValue(v) + rest) == Got(v, rest)
  {
    hide GetString, GetU64, PutString, LittleEndian;
    var s := PutValue(v) + rest;
    assert s == [Tag(TypeOf(v))] + (PutPayload(v) + rest);
    assert s[0] == Tag(TypeOf(v)) && s[1..] == PutPayload(v) + rest;
    match v
    case Null => assert [] + rest == rest;
    case Boolean(b) => assert (PutPayload(v) + rest)[1..] == rest;
    case Integer(i) => U64Back(ToU64(i), rest);
    case Real(bits) => U64Back(bits, rest);
    case Text(t) => StringBack(t, rest);
    case Blob(b) => StringBack(b, rest);
  }

  lemma ColumnBack(c: Column, rest: Bytes)
    requires ColumnFits(c)
    ensures GetColumn(PutColumn(c) + rest) == Got(c, rest)
  {
    var flags := [Tag(c.typ)] + (PutFlag(c.nullable) + (PutFlag(c.primaryKey) + PutFlag(c.unique)));
    assert PutColumn(c) + rest == PutString(c.name) + (flags + rest);
    StringBack(c.name, flags + rest);
    assert (flags + rest)[4..] == rest;
  }

  lemma {:induction false} ColumnsBack(cs: seq<Column>, rest: Bytes, done: seq<Column>)
    requires forall c :: c in cs ==> ColumnFits(c)
    ensures GetColumns(|cs|, PutColumns(cs) + rest, done) == Got(done + cs, rest)
    decreases cs
  {
    if cs == [] {
      assert PutColumns(cs) + rest == rest && done + cs == done;
    } else {
      hide GetColumn, PutColumn;
      assert PutColumns(cs) + rest == PutColumn(cs[0]) + (PutColumns(cs[1..]) + rest);
      ColumnBack(cs[0], PutColumns(cs[1..]) + rest);
      ColumnsBack(cs[1..], rest, done + [cs[0]]);
      assert done + [cs[0]] + cs[1..] == done + cs;
    }
  }

  lemma {:induction false} ValuesBack(vs: Row, rest: Bytes, done: Row)
    requires forall v :: v in vs ==> ValueFits(v)
    ensures GetValues(|vs|, PutValues(vs) + rest, done) == Got(done + vs, rest)
    decreases vs
  {
    if vs == [] {
      assert PutValues(vs) + rest == rest && done + vs == done;
    } else {
      hide GetValue, PutValue;
      assert PutValues(vs) + rest == PutValue(vs[0]) + (PutValues(vs[1..]) + rest);
      ValueBack(vs[0], PutValues(vs[1..]) + rest);
      ValuesBack(vs[1..], rest, done + [vs[0]]);
      assert done + [vs[0]] + vs[1..] == done + vs;
    }
  }

  lemma RowBack(row: Row, width: nat, rest: Bytes)
    requires width < LIMIT32 && RowFits(width, row)
    ensures GetRow(width, PutRow(row) + rest) == Got(row, rest)
  {
    hide GetUnsigned, PutValues, GetValues, LittleEndian;
    assert PutRow(row) + rest == LittleEndian(|row|, 4) + (PutValues(row) + rest);
    CountBack(|row|, PutValues(row) + rest);
    ValuesBack(row, rest, []);
    assert [] + row == row;
  }

  lemma {:induction false} RowsBack(rows: seq<Row>, width: nat, rest: Bytes, done: seq<Row>)
    requires width < LIMIT32
    requires forall row :: row in rows ==> RowFits(width, row)
    ensures GetRows(|rows|, width, PutRows(rows) + rest, done) == Got(done + rows, rest)
    decreases rows
  {
    if rows == [] {
      assert PutRows(rows) + rest == rest && done + rows == done;
    } else {
      hide GetRow, PutRow, RowFits;
      assert PutRows(rows) + rest == PutRow(rows[0]) + (PutRows(rows[1..]) + rest);
      RowBack(rows[0], width, PutRows(rows[1..]) + rest);
      RowsBack(rows[1..], width, rest, done + [rows[0]]);
      assert done + [rows[0]] + rows[1..] == done + rows;
    }
  }

  lemma SchemaBack(schema: seq<Column>, rest: Bytes)
    requires SchemaFits(schema)
    ensures GetSchema(LittleEndian(|schema|, 4) + (PutColumns(schema) + rest)) == Got(schema, rest)
  {
    CountBack(|schema|, PutColumns(schema) + rest);
    ColumnsBack(schema, rest, []);
    assert [] + schema == schema;
  }

  lemma BodyBack(schema: seq<Column>, rows: seq<Row>, rest: Bytes)
    requires |schema| <= 10000 && BodyFits(schema, rows)
    ensures GetBody(schema, LittleEndian(|rows|, 4) + (PutRows(rows) + rest)) == Got(rows, rest)
  {
    CountBack(|rows|, PutRows(rows) + rest);
    RowsBack(rows, |schema|, rest, []);
    assert [] + rows == rows;
  }

  lemma TableBack(e: (Bytes, Table), rest: Bytes)
    requires EntryFits(e)
    ensures GetTable(PutTable(e) + rest) == Got(e, rest)
  {
    hide GetString, GetSchema, GetBody, PutString, PutColumns, PutRows, LittleEndian;
    var body := LittleEndian(|e.1.rows|, 4) + (PutRows(e.1.rows) + rest);
    var schema := LittleEndian(|e.1.schema|, 4) + (PutColumns(e.1.schema) + body);
    assert PutTable(e) + rest == PutString(e.0) + schema;
    StringBack(e.0, schema);
    SchemaBack(e.1.schema, body);
    BodyBack(e.1.schema, e.1.rows, rest);
  }

  lemma {:induction false} TablesBack(ts: Tables, rest: Bytes, done: Tables)
    requires Sorted(done + ts)
    requires forall e :: e in ts ==> EntryFits(e)
    ensures GetTables(|ts|, PutTables(ts) + rest, done) == Got(done + ts, rest)
    decreases ts
  {
    hide GetTable, PutTable, EntryFits, Lower, Emplace, Sorted, Below;
    if ts == [] {
      assert PutTables(ts) + rest == rest && done + ts == done;
    } else {
      var e := ts[0];
      var after := PutTables(ts[1..]) + rest;
      assert PutTables(ts) + rest == PutTable(e) + after;
      TableBack(e, after);
      assert done + [e] + ts[1..] == done + ts;
      assert Emplace(done, Lower(e.0), e.1) == done + [e] by {
        LowerName(e);
        BelowNext(done, ts);
        EmplaceLast(done, e.0, e.1);
      }
      TablesBack(ts[1..], rest, done + [e]);
    }
  }

  lemma LowerName(e: (Bytes, Table))
    requires EntryFits(e)
    ensures Lower(e.0) == e.0
  {
  }

  lemma BelowNext(done: Tables, ts: Tables)
    requires Sorted(done + ts) && ts != []
    ensures Below(done, ts[0].0)
  {
    forall d | d in done
      ensures Less(d.0, ts[0].0)
    {
      var i :| 0 <= i < |done| && done[i] == d;
      assert (done + ts)[i] == d && (done + ts)[|done|] == ts[0];
    }
  }

  /** The parse of a whole file, with what it leaves unread. */
  function Parse(bytes: Bytes): Parsed<Tables> {
    match GetString(bytes)
    case Fail => Fail
    case Got(magic, rest) => if magic != MAGIC then Fail else GetCounted(rest)
  }

  lemma LoadIsParse(bytes: Bytes)
    ensures Load(bytes).Loaded? <==> Parse(bytes).Got? && Parse(bytes).rest == []
    ensures Load(bytes).Loaded? ==> Load(bytes).tables == Parse(bytes).value
  {
  }

  lemma ParseBack(ts: Tables)
    requires Fits(ts)
    ensures Parse(Serialize(ts)) == Got(ts, [])
  {
    hide GetTables, PutTables, LittleEndian, GetString, PutString, GetUnsigned, EntryFits;
    var counted := LittleEndian(|ts|, 4) + PutTables(ts);
    StringBack(MAGIC, counted);
    CountBack(|ts|, PutTables(ts));
    assert [] + ts == ts && PutTables(ts) + [] == PutTables(ts);
    TablesBack(ts, [], []);
  }

  // ---- More bytes behind never change what was read ----

  lemma UnsignedExtends(s: Bytes, width: nat, t: Bytes)
    requires GetUnsigned(s, width).Got?
    ensures GetUnsigned(s + t, width) == Got(GetUnsigned(s, width).value, GetUnsigned(s, width).rest + t)
  {
    assert (s + t)[..width] == s[..width] && (s + t)[width..] == s[width..] + t;
  }

  lemma StringExtends(s: Bytes, t: Bytes)
    requires GetString(s).Got?
    ensures GetString(s + t) == Got(GetString(s).value, GetString(s).rest + t)
  {
    UnsignedExtends(s, 4, t);
    var Got(size, rest) := GetUnsigned(s, 4);
    assert (rest + t)[..size] == rest[..size] && (rest + t)[size..] == rest[size..] + t;
  }

  lemma U64Extends(s: Bytes, t: Bytes)
    requires GetU64(s).Got?
    ensures GetU64(s + t) == Got(GetU64(s).value, GetU64(s).rest + t)
  {
    UnsignedExtends(s, 8, t);
  }

  lemma ValueExtends(s: Bytes, t: Bytes)
    requires GetValue(s).Got?
    ensures GetValue(s + t) == Got(GetValue(s).value, GetValue(s).rest + t)
  {
    hide GetString, GetU64;
    var rest := s[1..];
    assert (s + t)[0] == s[0] && (s + t)[1..] == rest + t;
    if s[0] == 1 {
      assert (rest + t)[0] == rest[0] && (rest + t)[1..] == rest[1..] + t;
    } else if s[0] == 2 || s[0] == 3 {
      U64Extends(rest, t);
    } else if s[0] == 4 || s[0] == 5 {
      StringExtends(rest, t);
    }
  }

  lemma ColumnExtends(s: Bytes, t: Bytes)
    requires GetColumn(s).Got?
    ensures GetColumn(s + t) == Got(GetColumn(s).value, GetColumn(s).rest + t)
  {
    hide GetString;
    StringExtends(s, t);
    var r := GetString(s).rest;
    assert (r + t)[..4] == r[..4] && (r + t)[4..] == r[4..] + t;
  }

  lemma {:induction false} ColumnsExtend(n: nat, s: Bytes, done: seq<Column>, t: Bytes)
    requires GetColumns(n, s, done).Got?
    ensures GetColumns(n, s + t, done) == Got(GetColumns(n, s, done).value, GetColumns(n, s, done).rest + t)
    decreases n
  {
    hide GetColumn;
    if n > 0 {
      ColumnExtends(s, t);
      ColumnsExtend(n - 1, GetColumn(s).rest, done + [GetColumn(s).value], t);
    }
  }

  lemma {:induction false} ValuesExtend(n: nat, s: Bytes, done: Row, t: Bytes)
    requires GetValues(n, s, done).Got?
    ensures GetValues(n, s + t, done) == Got(GetValues(n, s, done).value, GetValues(n, s, done).rest + t)
    decreases n
  {
    hide GetValue;
    if n > 0 {
      ValueExtends(s, t);
      ValuesExtend(n - 1, GetValue(s).rest, done + [GetValue(s).value], t);
    }
  }

  lemma {:induction false} RowsExtend(n: nat, width: nat, s: Bytes, done: seq<Row>, t: Bytes)
    requires GetRows(n, width, s, done).Got?
    ensures GetRows(n, width, s + t, done)
         == Got(GetRows(n, width, s, done).value, GetRows(n, width, s, done).rest + t)
    decreases n
  {
    hide GetUnsigned, GetValues;
    if n > 0 {
      UnsignedExtends(s, 4, t);
      ValuesExtend(width, GetUnsigned(s, 4).rest, [], t);
      RowsExtend(n - 1, width, GetRow(width, s).rest, done + [GetRow(width, s).value], t);
    }
  }

  lemma TableExtends(s: Bytes, t: Bytes)
    requires GetTable(s).Got?
    ensures GetTable(s + t) == Got(GetTable(s).value, GetTable(s).rest + t)
  {
    hide GetString, GetUnsigned, GetColumns, GetRows;
    StringExtends(s, t);
    var r := GetString(s).rest;
    UnsignedExtends(r, 4, t);
    var columns := GetUnsigned(r, 4);
    ColumnsExtend(columns.value, columns.rest, [], t);
    var schema := GetColumns(columns.value, columns.rest, []);
    UnsignedExtends(schema.rest, 4, t);
    var rows := GetUnsigned(schema.rest, 4);
    RowsExtend(rows.value, |schema.value|, rows.rest, [], t);
  }

  lemma {:induction false} TablesExtend(n: nat, s: Bytes, done: Tables, t: Bytes)
    requires GetTables(n, s, done).Got?
    ensures GetTables(n, s + t, done) == Got(GetTables(n, s, done).value, GetTables(n, s, done).rest + t)
    decreases n
  {
    hide GetTable;
    if n > 0 {
      TableExtends(s, t);
      var Got(e, rest) := GetTable(s);
      TablesExtend(n - 1, rest, Emplace(done, Lower(e.0), e.1), t);
    }
  }

  lemma ParseExtends(s: Bytes, t: Bytes)
    requires Parse(s).Got?
    ensures Parse(s + t) == Got(Parse(s).value, Parse(s).rest + t)
  {
    hide GetString, GetUnsigned, GetTables;
    StringExtends(s, t);
    var r := GetString(s).rest;
    UnsignedExtends(r, 4, t);
    var count := GetUnsigned(r, 4);
    TablesExtend(count.value, count.rest, [], t);
  }

  // ---- What the reader accepts fits the format ----

  lemma StringFits(s: Bytes)
    requires GetString(s).Got?
    ensures |GetString(s).value| < LIMIT32
  {
    FromLittleEndianBounded(s[..4]);
    Pow256Values();
  }

  lemma ReadValueFits(s: Bytes)
    requires GetValue(s).Got?
    ensures ValueFits(GetValue(s).value)
  {
    hide GetString;
    if s[0] == 4 || s[0] == 5 {
      StringFits(s[1..]);
    }
  }

  lemma {:induction false} ReadColumnsFit(n: nat, s: Bytes, done: seq<Column>)
    requires GetColumns(n, s, done).Got?
    requires forall c :: c in done ==> ColumnFits(c)
    ensures var cs := GetColumns(n, s, done).value;
            |cs| == |done| + n && forall c :: c in cs ==> ColumnFits(c)
    decreases n
  {
    hide GetString;
    if n > 0 {
      StringFits(s);
      ReadColumnsFit(n - 1, GetColumn(s).rest, done + [GetColumn(s).value]);
    }
  }

  lemma {:induction false} ReadValuesFit(n: nat, s: Bytes, done: Row)
    requires GetValues(n, s, done).Got?
    requires forall v :: v in done ==> ValueFits(v)
    ensures var vs := GetValues(n, s, done).value; RowFits(|done| + n, vs)
    decreases n
  {
    hide GetValue;
    if n > 0 {
      ReadValueFits(s);
      ReadValuesFit(n - 1, GetValue(s).rest, done + [GetValue(s).value]);
    }
  }

  lemma {:induction false} ReadRowsFit(n: nat, width: nat, s: Bytes, done: seq<Row>)
    requires GetRows(n, width, s, done).Got?
    requires forall row :: row in done ==> RowFits(width, row)
    ensures var rows := GetRows(n, width, s, done).value;
            |rows| == |done| + n && forall row :: row in rows ==> RowFits(width, row)
    decreases n
  {
    hide GetUnsigned, GetValues, RowFits;
    if n > 0 {
      ReadValuesFit(width, GetUnsigned(s, 4).rest, []);
      ReadRowsFit(n - 1, width, GetRow(width, s).rest, done + [GetRow(width, s).value]);
    }
  }

  lemma ReadTableFits(s: Bytes)
    requires GetTable(s).Got?
    ensures var e := GetTable(s).value; EntryFits((Lower(e.0), e.1))
  {
    hide GetString, GetUnsigned, GetColumns, GetRows, ColumnFits, RowFits, Lower;
    var e := GetTable(s).value;
    StringFits(s);
    LowerIdempotent(e.0);
    var r := GetString(s).rest;
    var columns := GetUnsigned(r, 4);
    ReadColumnsFit(columns.value, columns.rest, []);
    var schema := GetColumns(columns.value, columns.rest, []);
    var rows := GetUnsigned(schema.rest, 4);
    ReadRowsFit(rows.value, |schema.value|, rows.rest, []);
  }

  lemma {:induction false} ReadTablesFit(n: nat, s: Bytes, done: Tables)
    requires GetTables(n, s, done).Got?
    requires Sorted(done) && forall e :: e in done ==> EntryFits(e)
    ensures var ts := GetTables(n, s, done).value;
            Sorted(ts) && |ts| <= |done| + n && forall e :: e in ts ==> EntryFits(e)
    decreases n
  {
    hide GetTable, EntryFits, Lower;
    if n > 0 {
      ReadTableFits(s);
      var Got(e, rest) := GetTable(s);
      EmplaceSorted(done, Lower(e.0), e.1);
      ReadTablesFit(n - 1, rest, Emplace(done, Lower(e.0), e.1));
    }
  }

  lemma LoadedFits(bytes: Bytes)
    requires Load(bytes).Loaded?
    ensures Fits(Load(bytes).tables)
  {
    hide GetTables, EntryFits;
    var rest := GetString(bytes).rest;
    var count := GetUnsigned(rest, 4);
    ReadTablesFit(count.value, count.rest, []);
  }

  // ---- What the format promises ----

  /** Saving and loading gives the tables back exactly when they fit the format. */
  lemma RoundTrip(ts: Tables)
    ensures Load(Serialize(ts)) == Loaded(ts) <==> Fits(ts)
  {
    hide Parse, Serialize, Load, Fits;
    LoadIsParse(Serialize(ts));
    if Fits(ts) {
      ParseBack(ts);
    }
    if Load(Serialize(ts)) == Loaded(ts) {
      LoadedFits(Serialize(ts));
    }
  }

  /** Whatever loads is saved and loaded unchanged. */
  lemma LoadedIsStable(bytes: Bytes)
    requires Load(bytes).Loaded?
    ensures Load(Serialize(Load(bytes).tables)) == Load(bytes)
  {
    LoadedFits(bytes);
    RoundTrip(Load(bytes).tables);
  }

  /** Of an accepted file, no proper prefix and no proper extension is accepted. */
  lemma AcceptedIsPrefixFree(s: Bytes, t: Bytes)
    requires Load(s).Loaded? && t != []
    ensures !Load(s + t).Loaded?
  {
    hide Parse, Load;
    LoadIsParse(s);
    LoadIsParse(s + t);
    ParseExtends(s, t);
  }

  lemma CutOrExtendedFileRejected(ts: Tables, k: nat, extra: Bytes)
    requires Fits(ts) && extra != []
    ensures !Load(Serialize(ts) + extra).Loaded?
    ensures k < |Serialize(ts)| ==> !Load(Serialize(ts)[..k]).Loaded?
  {
    hide Load, Serialize;
    var s := Serialize(ts);
    RoundTrip(ts);
    AcceptedIsPrefixFree(s, extra);
    if k < |s| {
      assert s[..k] + s[k..] == s;
      if Load(s[..k]).Loaded? {
        AcceptedIsPrefixFree(s[..k], s[k..]);
      }
    }
  }

  // ---- The bytes of one small file ----

  // A table t with the columns a INTEGER PRIMARY KEY and b TEXT, and the row (1, 'x').
  const SMALL: Tables := [([116], Table([Column([97], TInteger, false, true, false), Column([98], TText, true, false, false)],
                                        [[Integer(1), Text([120])]]))]

  lemma SmallNumbers()
    ensures LittleEndian(1, 4) == [1, 0, 0, 0] && LittleEndian(2, 4) == [2, 0, 0, 0] && LittleEndian(17, 4) == [17, 0, 0, 0]
    ensures LittleEndian(1, 8) == [1, 0, 0, 0, 0, 0, 0, 0]
  {
    assert LittleEndian(0, 4) == [0, 0, 0, 0];
  }

  const COLUMN_BYTES: Bytes := [1, 0, 0, 0, 97, 2, 0, 1, 0, 1, 0, 0, 0, 98, 4, 1, 0, 0]
  const ROW_BYTES: Bytes := [2, 0, 0, 0, 2, 1, 0, 0, 0, 0, 0, 0, 0, 4, 1, 0, 0, 0, 120]

  lemma SmallColumns()
    ensures PutColumns(SMALL[0].1.schema) == COLUMN_BYTES
  {
    SmallNumbers();
    hide LittleEndian;
    var schema := SMALL[0].1.schema;
    assert schema[1..] == [schema[1]] && schema[1..][1..] == [];
    assert PutColumn(schema[0]) == [1, 0, 0, 0, 97, 2, 0, 1, 0];
    assert PutColumn(schema[1]) == [1, 0, 0, 0, 98, 4, 1, 0, 0];
    hide PutColumn;
    assert PutColumns([]) == [] && PutColumns(schema[1..]) == PutColumn(schema[1]) + PutColumns([]);
  }

  lemma SmallRows()
    ensures PutRows(SMALL[0].1.rows) == ROW_BYTES
  {
    SmallNumbers();
    hide LittleEndian;
    var rows := SMALL[0].1.rows;
    var row := rows[0];
    assert row[1..] == [row[1]] && row[1..][1..] == [] && rows[1..] == [];
    assert PutValue(row[0]) == [2, 1, 0, 0, 0, 0, 0, 0, 0] && PutValue(row[1]) == [4, 1, 0, 0, 0, 120];
    hide PutValue;
    assert PutValues([]) == [] && PutValues(row[1..]) == PutValue(row[1]) + PutValues([]);
    assert PutValues(row) == PutValue(row[0]) + PutValues(row[1..]);
    assert PutRows([]) == [] && PutRows(rows) == PutRow(row) + PutRows([]);
  }

  /** The file that holds that table: the magic string, one table, its name, two columns, one row. */
  lemma SmallFile()
    ensures Serialize(SMALL)
         == ([17, 0, 0, 0] + MAGIC)
            + ([1, 0, 0, 0] + ([1, 0, 0, 0] + [116] + ([2, 0, 0, 0] + (COLUMN_BYTES + ([1, 0, 0, 0] + ROW_BYTES)))))
  {
    SmallNumbers();
    SmallColumns();
    SmallRows();
    hide LittleEndian, PutColumns, PutRows, COLUMN_BYTES, ROW_BYTES;
    var e := SMALL[0];
    assert PutTables(SMALL) == PutTable(e) by {
      assert SMALL[1..] == [] && PutTables([]) == [];
      hide PutTable;
      assert PutTables(SMALL) == PutTable(e) + PutTables(SMALL[1..]);
    }
    hide PutTables;
    assert |SMALL| == 1 && |e.1.schema| == 2 && |e.1.rows| == 1 && |MAGIC| == 17;
  }
}
