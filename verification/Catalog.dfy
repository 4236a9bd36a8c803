/** The three catalog tables, recomputed from the others before every statement and commit. */
module Catalog {
  import opened Bytes
  import opened OrderedMap
  import opened Values
  import opened Constraints

  // "tuplestone_", "tuplestone_columns", "tuplestone_indexes", "tuplestone_tables"
  const RESERVED: Bytes := [116, 117, 112, 108, 101, 115, 116, 111, 110, 101, 95]
  const COLUMNS: Bytes := RESERVED + [99, 111, 108, 117, 109, 110, 115]
  const INDEXES: Bytes := RESERVED + [105, 110, 100, 101, 120, 101, 115]
  const TABLES: Bytes := RESERVED + [116, 97, 98, 108, 101, 115]

  predicate IsCatalog(name: Bytes) {
    name == TABLES || name == COLUMNS || name == INDEXES
  }

  /** Everything but the catalog: what commits, crashes and replays are about. */
  function User(ts: Tables): Tables {
    if ts == [] then []
    else if IsCatalog(ts[0].0) then User(ts[1..])
    else [ts[0]] + User(ts[1..])
  }

  /** The user tables are the same. */
  ghost predicate Same(a: Tables, b: Tables) {
    User(a) == User(b)
  }

  // table_id, name, first_page, tuple_count
  const TABLES_SCHEMA: seq<Column> := [
    Column([116, 97, 98, 108, 101, 95, 105, 100], TInteger, false, true, true),
    Column([110, 97, 109, 101], TText, false, false, true),
    Column([102, 105, 114, 115, 116, 95, 112, 97, 103, 101], TInteger, false, false, false),
    Column([116, 117, 112, 108, 101, 95, 99, 111, 117, 110, 116], TInteger, false, false, false)
  ]

  // table_id, ordinal, name, type, nullable, is_primary
  const COLUMNS_SCHEMA: seq<Column> := [
    Column([116, 97, 98, 108, 101, 95, 105, 100], TInteger, false, false, false),
    Column([111, 114, 100, 105, 110, 97, 108], TInteger, false, false, false),
    Column([110, 97, 109, 101], TText, false, false, false),
    Column([116, 121, 112, 101], TInteger, false, false, false),
    Column([110, 117, 108, 108, 97, 98, 108, 101], TBoolean, false, false, false),
    Column([105, 115, 95, 112, 114, 105, 109, 97, 114, 121], TBoolean, false, false, false)
  ]

  // index_id, table_id, name, root_page, is_unique, column_ordinals
  const INDEXES_SCHEMA: seq<Column> := [
    Column([105, 110, 100, 101, 120, 95, 105, 100], TInteger, false, true, true),
    Column([116, 97, 98, 108, 101, 95, 105, 100], TInteger, false, false, false),
    Column([110, 97, 109, 101], TText, false, false, false),
    Column([114, 111, 111, 116, 95, 112, 97, 103, 101], TInteger, false, false, false),
    Column([105, 115, 95, 117, 110, 105, 113, 117, 101], TBoolean, false, false, false),
    Column([99, 111, 108, 117, 109, 110, 95, 111, 114, 100, 105, 110, 97, 108, 115], TText, false, false, false)
  ]

  /** A count or an id as a 64-bit integer value. */
  function Number(n: nat): Value {
    Integer(ToI64(n % 0x1_0000_0000_0000_0000))
  }

  predicate Listed(name: Bytes) {
    !(RESERVED <= name)
  }

  function TableRows(ts: Tables, id: nat): seq<Row> {
    if ts == [] then []
    else if !Listed(ts[0].0) then TableRows(ts[1..], id)
    else [[Number(id), Text(ts[0].0), Number(0), Number(|ts[0].1.rows|)]] + TableRows(ts[1..], id + 1)
  }

  function ColumnRowsOf(schema: seq<Column>, id: nat): seq<Row> {
    seq(|schema|, i requires 0 <= i < |schema| =>
      [Number(id), Number(i), Text(schema[i].name), Number(Tag(schema[i].typ)), Boolean(schema[i].nullable),
       Boolean(schema[i].primaryKey)])
  }

  function ColumnRows(ts: Tables, id: nat): seq<Row> {
    if ts == [] then []
    else if !Listed(ts[0].0) then ColumnRows(ts[1..], id)
    else ColumnRowsOf(ts[0].1.schema, id) + ColumnRows(ts[1..], id + 1)
  }

  /** RefreshCatalog: the catalog tables are replaced, every other table is left alone. */
  function Refresh(ts: Tables): Tables {
    var one := Assign(ts, TABLES, Table(TABLES_SCHEMA, TableRows(ts, 1)));
    var two := Assign(one, COLUMNS, Table(COLUMNS_SCHEMA, ColumnRows(ts, 1)));
    Assign(two, INDEXES, Table(INDEXES_SCHEMA, []))
  }

  /** The loop of RefreshCatalog over the tables in name order. */
  method RefreshCatalog(ts: Tables) returns (r: Tables)
    ensures r == Refresh(ts)
  {
    hide Assign, ColumnRowsOf;
    var tableRows: seq<Row>, columnRows: seq<Row>, id := [], [], 1;
    var i := 0;
    assert ts[0..] == ts;
    while i < |ts|
      invariant 0 <= i <= |ts| && id >= 1
      invariant tableRows + TableRows(ts[i..], id) == TableRows(ts, 1)
      invariant columnRows + ColumnRows(ts[i..], id) == ColumnRows(ts, 1)
    {
      var (name, table) := ts[i];
      assert ts[i..][1..] == ts[i + 1..];
      if Listed(name) {
        var row := [Number(id), Text(name), Number(0), Number(|table.rows|)];
        assert tableRows + TableRows(ts[i..], id) == tableRows + [row] + TableRows(ts[i + 1..], id + 1);
        tableRows := tableRows + [row];
        columnRows := columnRows + ColumnRowsOf(table.schema, id);
        id := id + 1;
      }
      i := i + 1;
    }
    assert ts[i..] == [];
    assert tableRows == TableRows(ts, 1) && columnRows == ColumnRows(ts, 1);
    r := Assign(ts, TABLES, Table(TABLES_SCHEMA, tableRows));
    r := Assign(r, COLUMNS, Table(COLUMNS_SCHEMA, columnRows));
    r := Assign(r, INDEXES, Table(INDEXES_SCHEMA, []));
  }

  // ---- The user tables ----

  lemma {:induction false} UserSorted(ts: Tables)
    requires Sorted(ts)
    ensures Sorted(User(ts))
    ensures forall e :: e in User(ts) ==> e in ts && !IsCatalog(e.0)
    ensures forall e :: e in ts && !IsCatalog(e.0) ==> e in User(ts)
  {
    hide IsCatalog, Less;
    if ts != [] {
      SortedTail(ts);
      UserSorted(ts[1..]);
      assert ts == [ts[0]] + ts[1..];
      if !IsCatalog(ts[0].0) {
        forall e | e in User(ts[1..])
          ensures Less(ts[0].0, e.0)
        {
          assert e in ts[1..];
        }
        SortedCons(ts[0], User(ts[1..]));
      }
    }
  }

  lemma CatalogUnlisted(name: Bytes)
    requires IsCatalog(name)
    ensures !Listed(name)
  {
  }

  lemma {:induction false} RowsOfUser(ts: Tables, id: nat)
    ensures TableRows(User(ts), id) == TableRows(ts, id)
    ensures ColumnRows(User(ts), id) == ColumnRows(ts, id)
    decreases ts
  {
    hide IsCatalog, Listed, ColumnRowsOf;
    if ts != [] {
      RowsOfUser(ts[1..], id);
      RowsOfUser(ts[1..], id + 1);
      if IsCatalog(ts[0].0) {
        CatalogUnlisted(ts[0].0);
      } else {
        assert User(ts)[1..] == User(ts[1..]);
      }
    }
  }

  ghost predicate CatalogEntry(e: (Bytes, Table), ts: Tables) {
    || e == (TABLES, Table(TABLES_SCHEMA, TableRows(ts, 1)))
    || e == (COLUMNS, Table(COLUMNS_SCHEMA, ColumnRows(ts, 1)))
    || e == (INDEXES, Table(INDEXES_SCHEMA, []))
  }

  lemma NamesDiffer()
    ensures TABLES != COLUMNS && TABLES != INDEXES && COLUMNS != INDEXES
  {
    assert TABLES[11] == 116 && COLUMNS[11] == 99 && INDEXES[11] == 105;
  }

  lemma RefreshEntries(ts: Tables)
    requires Sorted(ts)
    ensures Sorted(Refresh(ts))
    ensures forall e :: e in Refresh(ts) ==> e in User(ts) || CatalogEntry(e, ts)
    ensures forall e :: e in User(ts) || CatalogEntry(e, ts) ==> e in Refresh(ts)
  {
    hide User, Assign, TableRows, ColumnRows, Less;
    UserSorted(ts);
    NamesDiffer();
    var one := Assign(ts, TABLES, Table(TABLES_SCHEMA, TableRows(ts, 1)));
    AssignSorted(ts, TABLES, Table(TABLES_SCHEMA, TableRows(ts, 1)));
    var two := Assign(one, COLUMNS, Table(COLUMNS_SCHEMA, ColumnRows(ts, 1)));
    AssignSorted(one, COLUMNS, Table(COLUMNS_SCHEMA, ColumnRows(ts, 1)));
    AssignSorted(two, INDEXES, Table(INDEXES_SCHEMA, []));
  }

  lemma RefreshKeepsUser(ts: Tables)
    requires Sorted(ts)
    ensures Sorted(Refresh(ts)) && User(Refresh(ts)) == User(ts)
  {
    hide User, Refresh, Less, TableRows, ColumnRows;
    RefreshEntries(ts);
    UserSorted(ts);
    UserSorted(Refresh(ts));
    SortedUnique(User(Refresh(ts)), User(ts));
  }

  /** The refreshed tables are a function of the user tables alone. */
  lemma RefreshOfUser(a: Tables, b: Tables)
    requires Sorted(a) && Sorted(b) && User(a) == User(b)
    ensures Refresh(a) == Refresh(b)
  {
    hide User, Refresh, Less, TableRows, ColumnRows;
    RefreshEntries(a);
    RefreshEntries(b);
    RowsOfUser(a, 1);
    RowsOfUser(b, 1);
    SortedUnique(Refresh(a), Refresh(b));
  }

  // ---- The catalog keeps its own constraints ----

  lemma {:induction false} TableRowsAt(ts: Tables, id: nat)
    requires Sorted(ts)
    ensures var rows := TableRows(ts, id);
            && |rows| <= |ts|
            && (forall i :: 0 <= i < |rows| ==> TableRowShape(rows[i], id + i))
            && (forall i :: 0 <= i < |rows| ==> exists e :: e in ts && e.0 == rows[i][1].text)
            && (forall i, j :: 0 <= i < j < |rows| ==> Less(rows[i][1].text, rows[j][1].text))
    decreases ts
  {
    hide Listed, Less, Number;
    if ts != [] {
      SortedTail(ts);
      assert ts == [ts[0]] + ts[1..];
      if !Listed(ts[0].0) {
        TableRowsAt(ts[1..], id);
      } else {
        TableRowsAt(ts[1..], id + 1);
        assert ts[0] in ts;
        assert Number(0).Integer? && Number(|ts[0].1.rows|).Integer? by { NumberIsInteger(0); NumberIsInteger(|ts[0].1.rows|); }
      }
    }
  }

  // ---- What the catalog says ----

  /** The tables the catalog lists, in name order. */
  function Directory(ts: Tables): Tables {
    if ts == [] then []
    else if Listed(ts[0].0) then [ts[0]] + Directory(ts[1..])
    else Directory(ts[1..])
  }

  /** How many columns the first i tables have. */
  function ColumnsBefore(ts: Tables, i: nat): nat
    requires i <= |ts|
  {
    if i == 0 then 0 else ColumnsBefore(ts, i - 1) + |ts[i - 1].1.schema|
  }

  lemma {:induction false} ColumnsShift(e: (Bytes, Table), ts: Tables, i: nat)
    requires i <= |ts|
    ensures ColumnsBefore([e] + ts, i + 1) == |e.1.schema| + ColumnsBefore(ts, i)
  {
    if i > 0 {
      ColumnsShift(e, ts, i - 1);
    }
  }

  /** One row for each listed table: its id, its name, no page, and how many rows it has. */
  lemma {:induction false} TableCells(ts: Tables, id: nat, i: nat)
    ensures |TableRows(ts, id)| == |Directory(ts)|
    ensures i < |Directory(ts)| ==>
              var (name, table) := Directory(ts)[i];
              TableRows(ts, id)[i] == [Number(id + i), Text(name), Number(0), Number(|table.rows|)]
    decreases ts
  {
    hide Listed, Number;
    if ts != [] {
      if Listed(ts[0].0) {
        TableCells(ts[1..], id + 1, if i == 0 then 0 else i - 1);
      } else {
        TableCells(ts[1..], id, i);
      }
    }
  }

  function ColumnCell(column: Column, id: nat, c: nat): Row {
    [Number(id), Number(c), Text(column.name), Number(Tag(column.typ)), Boolean(column.nullable), Boolean(column.primaryKey)]
  }

  lemma {:induction false} ColumnCount(ts: Tables, id: nat)
    ensures |ColumnRows(ts, id)| == ColumnsBefore(Directory(ts), |Directory(ts)|)
    decreases ts
  {
    hide Listed, Number;
    if ts != [] {
      var rest := ts[1..];
      if Listed(ts[0].0) {
        ColumnCount(rest, id + 1);
        ColumnsShift(ts[0], Directory(rest), |Directory(rest)|);
      } else {
        ColumnCount(rest, id);
      }
    }
  }

  /** One row for each column of each listed table, in order: table, place, name, type and flags. */
  lemma {:induction false} ColumnCells(ts: Tables, id: nat, i: nat, c: nat)
    requires i < |Directory(ts)| && c < |Directory(ts)[i].1.schema|
    ensures var at := ColumnsBefore(Directory(ts), i) + c;
            && at < |ColumnRows(ts, id)| == ColumnsBefore(Directory(ts), |Directory(ts)|)
            && ColumnRows(ts, id)[at] == ColumnCell(Directory(ts)[i].1.schema[c], id + i, c)
    decreases ts
  {
    hide Listed, ColumnCell, ColumnRowsOf;
    ColumnCount(ts, id);
    var rest := ts[1..];
    if !Listed(ts[0].0) {
      ColumnCells(rest, id, i, c);
    } else {
      FirstCells(ts[0].1.schema, id, c);
      if i > 0 {
        ColumnCells(rest, id + 1, i - 1, c);
        ColumnsShift(ts[0], Directory(rest), i - 1);
        assert Directory(ts)[i] == Directory(rest)[i - 1];
      }
    }
  }

  lemma FirstCells(schema: seq<Column>, id: nat, c: nat)
    ensures |ColumnRowsOf(schema, id)| == |schema|
    ensures c < |schema| ==> ColumnRowsOf(schema, id)[c] == ColumnCell(schema[c], id, c)
  {
  }

  /** Counts and ids are what they say, as long as they fit a signed word. */
  lemma NumberIs(n: nat)
    requires n < 0x8000_0000_0000_0000
    ensures Number(n) == Integer(n)
  {
  }

  lemma NumberIsInteger(n: nat)
    ensures Number(n).Integer?
  {
  }

  ghost predicate TableRowShape(row: Row, id: nat) {
    |row| == 4 && row[0] == Number(id) && row[1].Text? && row[2].Integer? && row[3].Integer?
  }

  lemma TableRowOk(row: Row, id: nat)
    requires TableRowShape(row, id)
    ensures RowOk(TABLES_SCHEMA, row)
  {
    assert |TABLES_SCHEMA| == 4;
  }

  lemma TableRowsApart(a: Row, b: Row, i: nat, j: nat)
    requires TableRowShape(a, i) && TableRowShape(b, j)
    requires i < j < EXACT && Less(a[1].text, b[1].text)
    ensures |TABLES_SCHEMA| == 4 && !Clash(TABLES_SCHEMA, a, b)
  {
    hide Equal, Less, Compare;
    assert |TABLES_SCHEMA| == 4;
    assert !Equal(a[0], b[0]) by { CompareSmallIntegers(i, j); }
    assert !Equal(a[1], b[1]) by {
      EqualTexts(a[1].text, b[1].text);
      LessIrreflexive(a[1].text);
    }
  }

  lemma TablesTableValid(ts: Tables)
    requires Sorted(ts) && |ts| < EXACT - 1
    ensures TableValid(Table(TABLES_SCHEMA, TableRows(ts, 1)))
  {
    hide TableRows, Less, RowOk, Clash, Number, TABLES_SCHEMA;
    var rows := TableRows(ts, 1);
    TableRowsAt(ts, 1);
    forall i | 0 <= i < |rows|
      ensures RowOk(TABLES_SCHEMA, rows[i])
    {
      TableRowOk(rows[i], 1 + i);
    }
    RowsHaveWidth(TABLES_SCHEMA, rows);
    forall i, j | 0 <= i < j < |rows|
      ensures !Clash(TABLES_SCHEMA, rows[i], rows[j])
    {
      TableRowsApart(rows[i], rows[j], 1 + i, 1 + j);
    }
  }

  lemma RowsHaveWidth(schema: seq<Column>, rows: seq<Row>)
    requires RowsOk(schema, rows)
    ensures forall i :: 0 <= i < |rows| ==> |rows[i]| == |schema|
  {
  }

  lemma {:induction false} ColumnRowsOk(ts: Tables, id: nat)
    ensures RowsOk(COLUMNS_SCHEMA, ColumnRows(ts, id))
    decreases ts
  {
    hide Listed;
    assert |COLUMNS_SCHEMA| == 6;
    if ts != [] {
      ColumnRowsOk(ts[1..], id);
      ColumnRowsOk(ts[1..], id + 1);
    }
  }

  lemma ColumnsTableValid(ts: Tables)
    ensures TableValid(Table(COLUMNS_SCHEMA, ColumnRows(ts, 1)))
  {
    hide ColumnRows;
    ColumnRowsOk(ts, 1);
  }

  ghost predicate AllValid(ts: Tables) {
    Sorted(ts) && forall e :: e in ts ==> TableValid(e.1)
  }

  /** Refreshing keeps every constraint, those of the catalog tables included. */
  lemma RefreshKeepsValid(ts: Tables)
    requires AllValid(ts) && |ts| < EXACT - 1
    ensures AllValid(Refresh(ts))
  {
    hide User, Refresh, Less, TableRows, ColumnRows, TableValid;
    RefreshEntries(ts);
    UserSorted(ts);
    TablesTableValid(ts);
    ColumnsTableValid(ts);
    assert TableValid(Table(INDEXES_SCHEMA, [])) by { EmptyTableValid(INDEXES_SCHEMA); }
  }

  lemma EmptyTableValid(schema: seq<Column>)
    ensures TableValid(Table(schema, []))
  {
  }
}
