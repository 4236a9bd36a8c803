/** The Writer and Reader objects and the loops that save and load a data file. */
module DataFile {
  import opened Bytes
  import opened OrderedMap
  import opened Values
  import opened Serialization

  lemma {:induction false} LittleEndianSplit(v: nat, n: nat)
    ensures LittleEndian(v, n + 1) == LittleEndian(v, n) + [v / Pow256(n) % 256]
    decreases n
  {
    if n > 0 {
      LittleEndianSplit(v / 256, n - 1);
      DivideTwice(v, Pow256(n - 1));
    }
  }

  lemma {:induction false} FromLittleEndianSplit(s: Bytes, b: Byte)
    ensures FromLittleEndian(s + [b]) == FromLittleEndian(s) + b * Pow256(|s|)
    decreases s
  {
    if s == [] {
      assert s + [b] == [b] && [b][1..] == [];
    } else {
      assert (s + [b])[1..] == s[1..] + [b];
      FromLittleEndianSplit(s[1..], b);
      assert 256 * (b * Pow256(|s| - 1)) == b * Pow256(|s|);
    }
  }

  class Writer {
    var data: Bytes

    constructor ()
      ensures data == []
    {
      data := [];
    }

    method U8(b: Byte)
      modifies this
      ensures data == old(data) + [b]
    {
      data := data + [b];
    }

    /** U32 and U64: byte i is the value shifted right by 8 * i bits and cut to eight. */
    method Unsigned(v: nat, width: nat)
      modifies this
      ensures data == old(data) + LittleEndian(v, width)
    {
      var i := 0;
      while i < width
        invariant 0 <= i <= width
        invariant data == old(data) + LittleEndian(v, i)
      {
        LittleEndianSplit(v, i);
        U8(v / Pow256(i) % 256);
        i := i + 1;
      }
    }

    method String(s: Bytes)
      modifies this
      ensures data == old(data) + PutString(s)
    {
      Unsigned(|s|, 4);
      data := data + s;
    }

    method ValueData(v: Value)
      modifies this
      ensures data == old(data) + PutValue(v)
    {
      hide LittleEndian, PutString;
      U8(Tag(TypeOf(v)));
      match v {
        case Null =>
        case Boolean(b) => U8(if b then 1 else 0);
        case Integer(i) => Unsigned(ToU64(i), 8);
        case Real(bits) => Unsigned(bits, 8);
        case Text(t) => String(t);
        case Blob(b) => String(b);
      }
    }

    method ColumnData(c: Column)
      modifies this
      ensures data == old(data) + PutColumn(c)
    {
      hide PutString;
      String(c.name);
      U8(Tag(c.typ));
      U8(if c.nullable then 1 else 0);
      U8(if c.primaryKey then 1 else 0);
      U8(if c.unique then 1 else 0);
    }

    method Columns(cs: seq<Column>)
      modifies this
      ensures data == old(data) + PutColumns(cs)
    {
      hide PutColumn;
      var i := 0;
      while i < |cs|
        invariant 0 <= i <= |cs|
        invariant data + PutColumns(cs[i..]) == old(data) + PutColumns(cs)
      {
        assert cs[i..][1..] == cs[i + 1..];
        ColumnData(cs[i]);
        i := i + 1;
      }
    }

    method Rows(rows: seq<Row>)
      modifies this
      ensures data == old(data) + PutRows(rows)
    {
      hide PutValue, LittleEndian;
      var i := 0;
      while i < |rows|
        invariant 0 <= i <= |rows|
        invariant data + PutRows(rows[i..]) == old(data) + PutRows(rows)
      {
        assert rows[i..][1..] == rows[i + 1..];
        ghost var before := data;
        Unsigned(|rows[i]|, 4);
        ghost var start := data;
        var j := 0;
        while j < |rows[i]|
          invariant 0 <= j <= |rows[i]|
          invariant data + PutValues(rows[i][j..]) == start + PutValues(rows[i])
        {
          assert rows[i][j..][1..] == rows[i][j + 1..];
          ValueData(rows[i][j]);
          j := j + 1;
        }
        assert data == start + PutValues(rows[i]);
        assert data == before + PutRow(rows[i]);
        i := i + 1;
      }
    }

    method TableData(e: (Bytes, Table))
      modifies this
      ensures data == old(data) + PutTable(e)
    {
      hide PutColumns, PutRows, PutString, LittleEndian;
      String(e.0);
      Unsigned(|e.1.schema|, 4);
      Columns(e.1.schema);
      Unsigned(|e.1.rows|, 4);
      Rows(e.1.rows);
    }
  }

  method SerializeTables(ts: Tables) returns (bytes: Bytes)
    ensures bytes == Serialize(ts)
  {
    hide PutTable, PutString, LittleEndian;
    var writer := new Writer();
    writer.String(MAGIC);
    writer.Unsigned(|ts|, 4);
    var i := 0;
    while i < |ts|
      invariant 0 <= i <= |ts|
      invariant writer.data + PutTables(ts[i..]) == Serialize(ts)
    {
      assert ts[i..][1..] == ts[i + 1..];
      writer.TableData(ts[i]);
      i := i + 1;
    }
    bytes := writer.data;
  }

  class Reader {
    const data: Bytes
    var pos: nat

    constructor (data: Bytes)
      ensures this.data == data && pos == 0
    {
      this.data := data;
      pos := 0;
    }

    ghost predicate Valid()
      reads this
    {
      pos <= |data|
    }

    ghost function Rest(): Bytes
      requires Valid()
      reads this
    {
      data[pos..]
    }

    method U8() returns (ok: bool, b: Byte)
      requires Valid()
      modifies this
      ensures Valid()
      ensures match GetByte(old(Rest()))
              case Fail => !ok && pos == old(pos)
              case Got(v, rest) => ok && b == v && Rest() == rest && pos == old(pos) + 1
    {
      if pos >= |data| {
        return false, 0;
      }
      ok, b := true, data[pos];
      pos := pos + 1;
    }

    /** U32 and U64: the bytes are put together one by one, each shifted to its place. */
    method Unsigned(width: nat) returns (ok: bool, v: nat)
      requires Valid()
      modifies this
      ensures Valid()
      ensures match GetUnsigned(old(Rest()), width)
              case Fail => !ok
              case Got(value, rest) => ok && v == value && Rest() == rest
    {
      v := 0;
      var i := 0;
      while i < width
        invariant 0 <= i <= width && pos == old(pos) + i && Valid()
        invariant v == FromLittleEndian(data[old(pos)..pos])
      {
        var more, b := U8();
        if !more {
          return false, v;
        }
        assert data[old(pos)..pos] == data[old(pos)..pos - 1] + [b];
        FromLittleEndianSplit(data[old(pos)..pos - 1], b);
        v := v + b * Pow256(i);
        i := i + 1;
      }
      ok := true;
      assert old(Rest())[..width] == data[old(pos)..pos];
    }

    method U64() returns (ok: bool, v: U64)
      requires Valid()
      modifies this
      ensures Valid()
      ensures match GetU64(old(Rest()))
              case Fail => !ok
              case Got(value, rest) => ok && v == value && Rest() == rest
    {
      var got, n := Unsigned(8);
      if !got {
        return false, 0;
      }
      FromLittleEndianBounded(old(Rest())[..8]);
      Pow256Values();
      ok, v := true, n;
    }

    method String() returns (ok: bool, s: Bytes)
      requires Valid()
      modifies this
      ensures Valid()
      ensures match GetString(old(Rest()))
              case Fail => !ok
              case Got(value, rest) => ok && s == value && Rest() == rest
    {
      var got, size := Unsigned(4);
      if !got || size > |data| - pos {
        return false, [];
      }
      assert Rest()[..size] == data[pos..pos + size] && Rest()[size..] == data[pos + size..];
      ok, s := true, data[pos..pos + size];
      pos := pos + size;
    }

    method ValueData() returns (ok: bool, v: Value)
      requires Valid()
      modifies this
      ensures Valid()
      ensures match GetValue(old(Rest()))
              case Fail => !ok
              case Got(value, rest) => ok && v == value && Rest() == rest
    {
      hide GetU64, GetString;
      v := Null;
      var tag;
      ok, tag := U8();
      if !ok {
        return;
      }
      if tag == 0 {
      } else if tag == 1 {
        var b;
        ok, b := U8();
        if !ok || b > 1 {
          return false, Null;
        }
        v := Boolean(b != 0);
      } else if tag == 2 {
        var n;
        ok, n := U64();
        v := Integer(ToI64(n));
      } else if tag == 3 {
        var n;
        ok, n := U64();
        v := Real(n);
      } else if tag == 4 {
        var t;
        ok, t := String();
        v := Text(t);
      } else if tag == 5 {
        var b;
        ok, b := String();
        v := Blob(b);
      } else {
        ok := false;
      }
    }

    method ColumnData() returns (ok: bool, c: Column)
      requires Valid()
      modifies this
      ensures Valid()
      ensures match GetColumn(old(Rest()))
              case Fail => !ok
              case Got(value, rest) => ok && c == value && Rest() == rest
    {
      hide GetString;
      c := Column([], TNull, true, false, false);
      var name, tag, nullable, primary, unique;
      ok, name := String();
      if !ok { return; }
      ghost var r := Rest();
      ok, tag := U8();
      if !ok { return; }
      ok, nullable := U8();
      if !ok { return; }
      ok, primary := U8();
      if !ok { return; }
      ok, unique := U8();
      if !ok { return; }
      assert r[4..] == Rest() && r[0] == tag && r[1] == nullable && r[2] == primary && r[3] == unique;
      var typ := ColumnType(tag);
      if typ.None? {
        return false, c;
      }
      c := Column(name, typ.value, nullable != 0, primary != 0, unique != 0);
    }

    method Columns(n: nat) returns (ok: bool, columns: seq<Column>)
      requires Valid()
      modifies this
      ensures Valid()
      ensures match GetColumns(n, old(Rest()), [])
              case Fail => !ok
              case Got(value, rest) => ok && columns == value && Rest() == rest
    {
      hide GetColumn;
      columns := [];
      var i := 0;
      while i < n
        invariant 0 <= i <= n && Valid()
        invariant GetColumns(n - i, Rest(), columns) == GetColumns(n, old(Rest()), [])
      {
        var got, column := ColumnData();
        if !got {
          return false, columns;
        }
        columns := columns + [column];
        i := i + 1;
      }
      ok := true;
    }

    method Rows(n: nat, width: nat) returns (ok: bool, rows: seq<Row>)
      requires Valid()
      modifies this
      ensures Valid()
      ensures match GetRows(n, width, old(Rest()), [])
              case Fail => !ok
              case Got(value, rest) => ok && rows == value && Rest() == rest
    {
      hide GetValue, GetUnsigned;
      rows := [];
      var i := 0;
      while i < n
        invariant 0 <= i <= n && Valid()
        invariant GetRows(n - i, width, Rest(), rows) == GetRows(n, width, old(Rest()), [])
      {
        ghost var start := Rest();
        var got, w := Unsigned(4);
        if !got || w != width {
          return false, rows;
        }
        var row: Row := [];
        var j := 0;
        ghost var values := Rest();
        while j < width
          invariant 0 <= j <= width && Valid()
          invariant GetValues(width - j, Rest(), row) == GetValues(width, values, [])
        {
          var more, v := ValueData();
          if !more {
            return false, rows;
          }
          row := row + [v];
          j := j + 1;
        }
        assert GetRow(width, start) == Got(row, Rest());
        rows := rows + [row];
        i := i + 1;
      }
      ok := true;
    }

    method TableData() returns (ok: bool, name: Bytes, table: Table)
      requires Valid()
      modifies this
      ensures Valid()
      ensures match GetTable(old(Rest()))
              case Fail => !ok
              case Got(e, rest) => ok && (name, table) == e && Rest() == rest
    {
      hide GetString, GetUnsigned, GetColumns, GetRows;
      table := Table([], []);
      var columnCount, columns, rowCount, rows;
      ok, name := String();
      if !ok { return; }
      ok, columnCount := Unsigned(4);
      if !ok || columnCount > 10000 { return false, name, table; }
      ok, columns := Columns(columnCount);
      if !ok { return; }
      ok, rowCount := Unsigned(4);
      if !ok || rowCount > 100000000 { return false, name, table; }
      ok, rows := Rows(rowCount, |columns|);
      if !ok { return; }
      table := Table(columns, rows);
    }

    method TablesData() returns (ok: bool, tables: Tables)
      requires Valid()
      modifies this
      ensures Valid()
      ensures match GetCounted(old(Rest()))
              case Fail => !ok
              case Got(value, rest) => ok && tables == value && Rest() == rest
    {
      hide GetUnsigned, GetTable, Lower, Emplace;
      tables := [];
      var tableCount;
      ok, tableCount := Unsigned(4);
      if !ok || tableCount > 100000 {
        return false, tables;
      }
      ghost var start := Rest();
      var i := 0;
      while i < tableCount
        invariant 0 <= i <= tableCount && Valid()
        invariant GetTables(tableCount - i, Rest(), tables) == GetTables(tableCount, start, [])
      {
        var got, name, table := TableData();
        if !got {
          return false, tables;
        }
        tables := Emplace(tables, Lower(name), table);
        i := i + 1;
      }
    }
  }

  method LoadTablesBytes(bytes: Bytes) returns (result: LoadResult)
    ensures result == Load(bytes)
  {
    hide GetString, GetCounted;
    var reader := new Reader(bytes);
    assert reader.Rest() == bytes;
    var ok, magic := reader.String();
    if !ok || magic != MAGIC {
      return Incompatible;
    }
    var tables;
    ok, tables := reader.TablesData();
    if !ok || reader.pos != |reader.data| {
      return Corruption;
    }
    result := Loaded(tables);
  }
}
