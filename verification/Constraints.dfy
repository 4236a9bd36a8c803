/** Row validation and the row loops of INSERT, UPDATE and DELETE. */
module Constraints {
  import opened OrderedMap
  import opened Values

  // ---- What a table promises ----

  predicate CellOk(c: Column, v: Value) {
    if v.Null? then c.nullable
    else TypeOf(v) == c.typ || (IsNumber(TypeOf(v)) && IsNumber(c.typ))
  }

  predicate RowOk(schema: seq<Column>, row: Row) {
    |row| == |schema| && forall i :: 0 <= i < |row| ==> CellOk(schema[i], row[i])
  }

  predicate Keyed(c: Column) {
    c.primaryKey || c.unique
  }

  /** Two rows share a non-NULL value in a PRIMARY KEY or UNIQUE column. */
  predicate Clash(schema: seq<Column>, a: Row, b: Row) {
    exists i :: 0 <= i < |schema| && i < |a| && i < |b| && Keyed(schema[i]) && !b[i].Null? && Equal(a[i], b[i])
  }

  ghost predicate RowsOk(schema: seq<Column>, rows: seq<Row>) {
    forall i :: 0 <= i < |rows| ==> RowOk(schema, rows[i])
  }

  ghost predicate TableValid(t: Table) {
    && RowsOk(t.schema, t.rows)
    && forall i, j :: 0 <= i < j < |t.rows| ==> !Clash(t.schema, t.rows[i], t.rows[j])
  }

  lemma ClashSymmetric(schema: seq<Column>, a: Row, b: Row)
    requires |a| == |b| == |schema|
    ensures Clash(schema, a, b) == Clash(schema, b, a)
  {
    hide Equal;
    forall i | 0 <= i < |schema|
      ensures Equal(a[i], b[i]) == Equal(b[i], a[i])
      ensures Equal(a[i], b[i]) ==> a[i].Null? == b[i].Null?
    {
      EqualSymmetric(a[i], b[i]);
      EqualNulls(a[i], b[i]);
    }
    if Clash(schema, a, b) {
      var i :| 0 <= i < |schema| && Keyed(schema[i]) && !b[i].Null? && Equal(a[i], b[i]);
      assert Equal(b[i], a[i]);
    }
    if Clash(schema, b, a) {
      var i :| 0 <= i < |schema| && Keyed(schema[i]) && !a[i].Null? && Equal(b[i], a[i]);
      assert Equal(a[i], b[i]);
    }
  }

  lemma EqualNulls(a: Value, b: Value)
    ensures Equal(a, b) ==> a.Null? == b.Null?
  {
  }

  // ---- Identical keys ----

  /** Rows of a valid table have identical values in a PRIMARY KEY or UNIQUE column only where both are NULL or NaN. */
  lemma IdenticalKeys(t: Table, i: nat, j: nat, c: nat)
    requires TableValid(t) && i < j < |t.rows| && c < |t.schema| && Keyed(t.schema[c])
    ensures |t.rows[i]| == |t.rows[j]| == |t.schema|
    ensures t.rows[i][c] == t.rows[j][c] ==> t.rows[i][c].Null? || IsNaN(t.rows[i][c])
  {
    hide Equal;
    EqualItself(t.rows[i][c]);
    assert !Clash(t.schema, t.rows[i], t.rows[j]);
  }

  /** A UNIQUE column can hold a value twice exactly when the value is NaN, as the same NaN bound twice shows. */
  lemma RepeatsExactly(v: Value)
    requires !v.Null?
    ensures TableValid(Table([Column([97], TypeOf(v), true, false, true)], [[v], [v]])) <==> IsNaN(v)
  {
    hide Equal;
    EqualItself(v);
    var t := Table([Column([97], TypeOf(v), true, false, true)], [[v], [v]]);
    if !IsNaN(v) {
      assert Keyed(t.schema[0]) && Clash(t.schema, t.rows[0], t.rows[1]);
    } else {
      assert !Clash(t.schema, [v], [v]);
    }
  }

  // ---- ValidateRow ----

  datatype Verdict = Accepted | WrongCount | NotNull(column: nat) | WrongType(column: nat) | Duplicate(column: nat)

  /** No row but the ignored one clashes with the new row. */
  ghost predicate Fresh(t: Table, row: Row, ignored: Option<nat>) {
    forall j :: 0 <= j < |t.rows| && Some(j) != ignored ==> !Clash(t.schema, t.rows[j], row)
  }

  ghost predicate Accepts(t: Table, row: Row, ignored: Option<nat>) {
    RowOk(t.schema, row) && Fresh(t, row, ignored)
  }

  /** Another row has the new row's value in a PRIMARY KEY or UNIQUE column. */
  ghost predicate Taken(t: Table, row: Row, ignored: Option<nat>, i: nat)
    requires |row| == |t.schema| && RowsOk(t.schema, t.rows) && i < |row|
  {
    Keyed(t.schema[i]) && !row[i].Null? &&
    exists j :: 0 <= j < |t.rows| && Some(j) != ignored && Equal(t.rows[j][i], row[i])
  }

  /** Accepts exactly the rows that keep the constraints, and otherwise names the first column at fault. */
  method ValidateRow(t: Table, row: Row, ignored: Option<nat>) returns (v: Verdict)
    requires RowsOk(t.schema, t.rows)
    ensures v == Accepted <==> Accepts(t, row, ignored)
    ensures v == WrongCount <==> |row| != |t.schema|
    ensures v.NotNull? || v.WrongType? ==>
              && |row| == |t.schema| && v.column < |row|
              && !CellOk(t.schema[v.column], row[v.column]) && (v.NotNull? <==> row[v.column].Null?)
              && forall i :: 0 <= i < v.column ==> CellOk(t.schema[i], row[i])
    ensures v.Duplicate? ==>
              && RowOk(t.schema, row) && v.column < |row| && Taken(t, row, ignored, v.column)
              && forall i :: 0 <= i < v.column ==> !Taken(t, row, ignored, i)
  {
    hide Equal;
    if |row| != |t.schema| {
      return WrongCount;
    }
    var i := 0;
    while i < |row|
      invariant 0 <= i <= |row|
      invariant forall k :: 0 <= k < i ==> CellOk(t.schema[k], row[k])
    {
      var column := t.schema[i];
      if row[i].Null? && !column.nullable {
        return NotNull(i);
      }
      if !row[i].Null? && TypeOf(row[i]) != column.typ && !(IsNumber(TypeOf(row[i])) && IsNumber(column.typ)) {
        return WrongType(i);
      }
      i := i + 1;
    }
    i := 0;
    while i < |row|
      invariant 0 <= i <= |row|
      invariant forall k, j ::
                  0 <= k < i && Keyed(t.schema[k]) && 0 <= j < |t.rows| && Some(j) != ignored && Equal(t.rows[j][k], row[k])
                  ==> row[k].Null?
    {
      if Keyed(t.schema[i]) {
        var j := 0;
        while j < |t.rows|
          invariant 0 <= j <= |t.rows|
          invariant forall l ::
                      0 <= l < j && Some(l) != ignored && Equal(t.rows[l][i], row[i]) ==> row[i].Null?
        {
          if Some(j) != ignored && Equal(t.rows[j][i], row[i]) && !row[i].Null? {
            assert Clash(t.schema, t.rows[j], row);
            return Duplicate(i);
          }
          j := j + 1;
        }
      }
      i := i + 1;
    }
    v := Accepted;
  }

  // ---- Statements on one table ----

  /** What evaluating a WHERE clause on a row can give. */
  datatype Selection = EvalError | Skipped | Selected

  /** Rows go in one by one; the first that fails to evaluate or to validate stops the statement. */
  ghost function InsertRows(t: Table, rows: seq<Option<Row>>): (r: (Table, bool))
    decreases rows
  {
    if rows == [] then (t, true)
    else if rows[0].None? || !Accepts(t, rows[0].value, None) then (t, false)
    else InsertRows(t.(rows := t.rows + [rows[0].value]), rows[1..])
  }

  /** Rows are rewritten in place from index i on; each sees the rows before it already rewritten. */
  ghost function UpdateRows(t: Table, i: nat, where: Row -> Selection, assign: Row -> Option<Row>): (r: (Table, bool))
    requires i <= |t.rows|
    decreases |t.rows| - i
  {
    if i == |t.rows| then (t, true)
    else
      match where(t.rows[i])
      case EvalError => (t, false)
      case Skipped => UpdateRows(t, i + 1, where, assign)
      case Selected =>
        match assign(t.rows[i])
        case None => (t, false)
        case Some(next) =>
          if !Accepts(t, next, Some(i)) then (t, false)
          else UpdateRows(t.(rows := t.rows[i := next]), i + 1, where, assign)
  }

  function Kept(rows: seq<Row>, where: Row -> Selection): Option<seq<Row>> {
    if rows == [] then Some([])
    else
      match Kept(rows[..|rows| - 1], where)
      case None => None
      case Some(kept) =>
        var row := rows[|rows| - 1];
        match where(row)
        case EvalError => None
        case Skipped => Some(kept + [row])
        case Selected => Some(kept)
  }

  /** Nothing is deleted when the clause fails to evaluate on any row. */
  function DeleteRows(t: Table, where: Row -> Selection): (Table, bool) {
    match Kept(t.rows, where)
    case None => (t, false)
    case Some(kept) => (t.(rows := kept), true)
  }

  lemma AppendValid(t: Table, row: Row)
    requires TableValid(t) && Accepts(t, row, None)
    ensures TableValid(t.(rows := t.rows + [row]))
  {
    hide Clash;
  }

  lemma ReplaceValid(t: Table, i: nat, row: Row)
    requires TableValid(t) && i < |t.rows| && Accepts(t, row, Some(i))
    ensures TableValid(t.(rows := t.rows[i := row]))
  {
    hide Clash;
    var rows := t.rows[i := row];
    forall a, b | 0 <= a < b < |rows|
      ensures !Clash(t.schema, rows[a], rows[b])
    {
      if a == i {
        ClashSymmetric(t.schema, row, t.rows[b]);
      }
    }
  }

  /** However far it gets, INSERT leaves a valid table that starts with the rows that were there. */
  lemma {:induction false} InsertKeepsValid(t: Table, rows: seq<Option<Row>>)
    requires TableValid(t)
    ensures var t' := InsertRows(t, rows).0;
            TableValid(t') && t'.schema == t.schema && t.rows <= t'.rows
    decreases rows
  {
    hide Clash;
    if rows != [] && rows[0].Some? && Accepts(t, rows[0].value, None) {
      AppendValid(t, rows[0].value);
      InsertKeepsValid(t.(rows := t.rows + [rows[0].value]), rows[1..]);
    }
  }

  /** A failed INSERT leaves no trace exactly when its first row was the one refused. */
  lemma FailedInsertTrace(t: Table, rows: seq<Option<Row>>)
    requires TableValid(t) && !InsertRows(t, rows).1
    ensures InsertRows(t, rows).0 == t <==> rows[0].None? || !Accepts(t, rows[0].value, None)
  {
    hide Clash;
    if rows[0].Some? && Accepts(t, rows[0].value, None) {
      AppendValid(t, rows[0].value);
      InsertKeepsValid(t.(rows := t.rows + [rows[0].value]), rows[1..]);
    }
  }

  lemma {:induction false} UpdateKeepsValid(t: Table, i: nat, where: Row -> Selection, assign: Row -> Option<Row>)
    requires TableValid(t) && i <= |t.rows|
    ensures var t' := UpdateRows(t, i, where, assign).0;
            TableValid(t') && t'.schema == t.schema && |t'.rows| == |t.rows| && t'.rows[..i] == t.rows[..i]
    decreases |t.rows| - i
  {
    hide Clash, Accepts;
    if i < |t.rows| {
      if where(t.rows[i]).Skipped? {
        UpdateKeepsValid(t, i + 1, where, assign);
        assert UpdateRows(t, i + 1, where, assign).0.rows[..i + 1][..i] == t.rows[..i];
      } else if where(t.rows[i]).Selected? && assign(t.rows[i]).Some? && Accepts(t, assign(t.rows[i]).value, Some(i)) {
        ReplaceValid(t, i, assign(t.rows[i]).value);
        var u := t.(rows := t.rows[i := assign(t.rows[i]).value]);
        UpdateKeepsValid(u, i + 1, where, assign);
        assert UpdateRows(u, i + 1, where, assign).0.rows[..i + 1][..i] == u.rows[..i + 1][..i] == t.rows[..i];
      }
    }
  }

  // ---- What the statements do, row by row ----

  /** Row i is left as it is where it is passed over, and rewritten where it is selected. */
  ghost predicate Rewritten(before: Table, after: Table, i: nat, where: Row -> Selection, assign: Row -> Option<Row>)
    requires i < |before.rows| && i < |after.rows|
  {
    match where(before.rows[i])
    case EvalError => false
    case Skipped => after.rows[i] == before.rows[i]
    case Selected => assign(before.rows[i]) == Some(after.rows[i])
  }

  /** The row cannot be evaluated, or its new value is refused by the table as it stands. */
  ghost predicate Stuck(t: Table, i: nat, where: Row -> Selection, assign: Row -> Option<Row>)
    requires i < |t.rows|
  {
    || where(t.rows[i]).EvalError?
    || (where(t.rows[i]).Selected? &&
        (assign(t.rows[i]).None? || !Accepts(t, assign(t.rows[i]).value, Some(i))))
  }

  /**
   * UPDATE rewrites every selected row and no other, up to the end or up to the first row that cannot be evaluated or
   * is refused; that row and those behind it are left alone.
   */
  lemma {:induction false} UpdateEffect(t: Table, i: nat, where: Row -> Selection, assign: Row -> Option<Row>) returns (j: nat)
    requires i <= |t.rows|
    ensures var (t', ok) := UpdateRows(t, i, where, assign);
            && t'.schema == t.schema && |t'.rows| == |t.rows|
            && i <= j <= |t.rows| && (ok <==> j == |t.rows|)
            && (forall k :: 0 <= k < |t.rows| && (k < i || k >= j) ==> t'.rows[k] == t.rows[k])
            && (forall k :: i <= k < j ==> Rewritten(t, t', k, where, assign))
            && (j < |t.rows| ==> Stuck(t', j, where, assign))
    decreases |t.rows| - i
  {
    hide Accepts;
    j := i;
    if i < |t.rows| && !Stuck(t, i, where, assign) {
      var u := if where(t.rows[i]).Skipped? then t else t.(rows := t.rows[i := assign(t.rows[i]).value]);
      j := UpdateEffect(u, i + 1, where, assign);
      assert UpdateRows(t, i, where, assign) == UpdateRows(u, i + 1, where, assign);
      var t' := UpdateRows(u, i + 1, where, assign).0;
      forall k | i <= k < j
        ensures Rewritten(t, t', k, where, assign)
      {
        if k > i {
          assert Rewritten(u, t', k, where, assign) && u.rows[k] == t.rows[k];
        } else {
          assert t'.rows[i] == u.rows[i];
        }
      }
    }
  }

  /** The rows that can be evaluated, in their order. */
  function Evaluated(rows: seq<Option<Row>>): seq<Row>
    requires forall i :: 0 <= i < |rows| ==> rows[i].Some?
  {
    seq(|rows|, i requires 0 <= i < |rows| => rows[i].value)
  }

  /** INSERT appends its rows in their order, all of them or those before the first that cannot be evaluated or is refused. */
  lemma {:induction false} InsertEffect(t: Table, rows: seq<Option<Row>>) returns (j: nat)
    ensures var (t', ok) := InsertRows(t, rows);
            && j <= |rows| && (ok <==> j == |rows|)
            && (forall i :: 0 <= i < j ==> rows[i].Some?)
            && t' == t.(rows := t.rows + Evaluated(rows[..j]))
            && (j < |rows| ==> rows[j].None? || !Accepts(t', rows[j].value, None))
    decreases rows
  {
    hide Accepts;
    j := 0;
    assert t.rows + Evaluated(rows[..0]) == t.rows;
    if rows != [] && rows[0].Some? && Accepts(t, rows[0].value, None) {
      var u := t.(rows := t.rows + [rows[0].value]);
      var m := InsertEffect(u, rows[1..]);
      j := m + 1;
      assert forall i :: 0 <= i < j ==> rows[i].Some? by {
        forall i | 0 < i < j
          ensures rows[i].Some?
        {
          assert rows[i] == rows[1..][i - 1];
        }
      }
      assert Evaluated(rows[..j]) == [rows[0].value] + Evaluated(rows[1..][..m]);
    }
  }

  /** DELETE succeeds exactly when its clause can be evaluated on every row, and otherwise changes nothing. */
  lemma {:induction false} DeleteEffect(t: Table, where: Row -> Selection)
    ensures DeleteRows(t, where).1 <==> forall i :: 0 <= i < |t.rows| ==> !where(t.rows[i]).EvalError?
    ensures !DeleteRows(t, where).1 ==> DeleteRows(t, where).0 == t
    ensures DeleteRows(t, where).1 ==> Kept(t.rows, where) == Some(DeleteRows(t, where).0.rows)
    ensures DeleteRows(t, where).0.schema == t.schema
  {
    KeptExactly(t.rows, where);
  }

  lemma {:induction false} KeptExactly(rows: seq<Row>, where: Row -> Selection)
    ensures Kept(rows, where).Some? <==> forall i :: 0 <= i < |rows| ==> !where(rows[i]).EvalError?
  {
    if rows != [] {
      var front := rows[..|rows| - 1];
      KeptExactly(front, where);
      assert forall i :: 0 <= i < |front| ==> front[i] == rows[i];
    }
  }

  // ---- Traces ----

  /** UPDATE leaves row i as it is: it is passed over, or rewritten to itself. */
  ghost predicate LeavesRow(t: Table, i: nat, where: Row -> Selection, assign: Row -> Option<Row>)
    requires i < |t.rows|
  {
    || where(t.rows[i]).Skipped?
    || (where(t.rows[i]).Selected? && assign(t.rows[i]) == Some(t.rows[i]) && Accepts(t, t.rows[i], Some(i)))
  }

  /** UPDATE gives row i a new value that the other rows, as they stand, allow. */
  ghost predicate ChangesRow(t: Table, i: nat, where: Row -> Selection, assign: Row -> Option<Row>)
    requires i < |t.rows|
  {
    && where(t.rows[i]).Selected? && assign(t.rows[i]).Some? && assign(t.rows[i]).value != t.rows[i]
    && Accepts(t, assign(t.rows[i]).value, Some(i))
  }

  /** The first row from i on that UPDATE does not leave as it is, it changes. */
  ghost predicate ChangesFirst(t: Table, i: nat, where: Row -> Selection, assign: Row -> Option<Row>)
    requires i <= |t.rows|
    decreases |t.rows| - i
  {
    i < |t.rows| &&
    if LeavesRow(t, i, where, assign) then ChangesFirst(t, i + 1, where, assign) else ChangesRow(t, i, where, assign)
  }

  /** An UPDATE leaves a trace, failed or not, exactly when the first row it touches is one it could change. */
  lemma {:induction false} UpdateTrace(t: Table, i: nat, where: Row -> Selection, assign: Row -> Option<Row>)
    requires TableValid(t) && i <= |t.rows|
    ensures UpdateRows(t, i, where, assign).0 == t <==> !ChangesFirst(t, i, where, assign)
    decreases |t.rows| - i
  {
    hide Clash, Accepts;
    if i < |t.rows| {
      if LeavesRow(t, i, where, assign) {
        assert t.rows[i := t.rows[i]] == t.rows;
        UpdateTrace(t, i + 1, where, assign);
      } else if ChangesRow(t, i, where, assign) {
        var next := assign(t.rows[i]).value;
        var u := t.(rows := t.rows[i := next]);
        ReplaceValid(t, i, next);
        UpdateKeepsValid(u, i + 1, where, assign);
        assert UpdateRows(u, i + 1, where, assign).0.rows[..i + 1][i] == next;
      }
    }
  }

  /** What is kept is a subsequence: the kept rows stand at ascending places of the old ones. */
  ghost predicate Subsequence(kept: seq<Row>, rows: seq<Row>, at: seq<nat>) {
    && |at| == |kept|
    && (forall i :: 0 <= i < |at| ==> at[i] < |rows| && rows[at[i]] == kept[i])
    && forall i, j :: 0 <= i < j < |at| ==> at[i] < at[j]
  }

  lemma {:induction false} KeptIsSubsequence(rows: seq<Row>, where: Row -> Selection) returns (at: seq<nat>)
    requires Kept(rows, where).Some?
    ensures Subsequence(Kept(rows, where).value, rows, at)
    ensures forall i :: 0 <= i < |at| ==> where(rows[at[i]]).Skipped?
    ensures forall k :: 0 <= k < |rows| && where(rows[k]).Skipped? ==> k in at
  {
    if rows == [] {
      at := [];
    } else {
      var front := rows[..|rows| - 1];
      at := KeptIsSubsequence(front, where);
      assert forall i :: 0 <= i < |at| ==> rows[at[i]] == front[at[i]];
      assert forall k :: 0 <= k < |front| ==> rows[k] == front[k];
      if where(rows[|rows| - 1]).Skipped? {
        var before := at;
        at := at + [|rows| - 1];
        assert at[|before|] == |rows| - 1;
        assert forall k :: k in before ==> k in at;
      }
    }
  }

  lemma DeleteKeepsValid(t: Table, where: Row -> Selection)
    requires TableValid(t)
    ensures TableValid(DeleteRows(t, where).0) && DeleteRows(t, where).0.schema == t.schema
  {
    hide Clash;
    if Kept(t.rows, where).Some? {
      var at := KeptIsSubsequence(t.rows, where);
      var kept := Kept(t.rows, where).value;
      assert forall i :: 0 <= i < |kept| ==> kept[i] == t.rows[at[i]];
    }
  }

  /** A table whose rows the statements change in place. */
  class TableStore {
    var table: Table

    constructor (table: Table)
      ensures this.table == table
    {
      this.table := table;
    }

    method Insert(rows: seq<Option<Row>>) returns (ok: bool)
      requires TableValid(table)
      modifies this
      ensures (table, ok) == InsertRows(old(table), rows)
      ensures TableValid(table)
    {
      hide Clash, Accepts;
      InsertKeepsValid(table, rows);
      var i := 0;
      assert rows[0..] == rows;
      while i < |rows|
        invariant 0 <= i <= |rows| && TableValid(table)
        invariant InsertRows(table, rows[i..]) == InsertRows(old(table), rows)
      {
        assert rows[i..][1..] == rows[i + 1..];
        if rows[i].None? {
          return false;
        }
        var row := rows[i].value;
        var verdict := ValidateRow(table, row, None);
        if verdict != Accepted {
          return false;
        }
        AppendValid(table, row);
        table := table.(rows := table.rows + [row]);
        i := i + 1;
      }
      ok := true;
    }

    method Update(where: Row -> Selection, assign: Row -> Option<Row>) returns (ok: bool)
      requires TableValid(table)
      modifies this
      ensures (table, ok) == UpdateRows(old(table), 0, where, assign)
      ensures TableValid(table)
    {
      hide Clash, Accepts;
      UpdateKeepsValid(table, 0, where, assign);
      var i := 0;
      while i < |table.rows|
        invariant 0 <= i <= |table.rows| && TableValid(table)
        invariant UpdateRows(table, i, where, assign) == UpdateRows(old(table), 0, where, assign)
        decreases |table.rows| - i
      {
        var selected := where(table.rows[i]);
        if selected.EvalError? {
          return false;
        }
        if selected.Selected? {
          var next := assign(table.rows[i]);
          if next.None? {
            return false;
          }
          var verdict := ValidateRow(table, next.value, Some(i));
          if verdict != Accepted {
            return false;
          }
          ReplaceValid(table, i, next.value);
          table := table.(rows := table.rows[i := next.value]);
        }
        i := i + 1;
      }
      ok := true;
    }

    method Delete(where: Row -> Selection) returns (ok: bool)
      requires TableValid(table)
      modifies this
      ensures (table, ok) == DeleteRows(old(table), where)
      ensures TableValid(table)
    {
      hide Clash;
      DeleteKeepsValid(table, where);
      var kept: seq<Row> := [];
      var i := 0;
      while i < |table.rows|
        invariant 0 <= i <= |table.rows| && unchanged(this)
        invariant Kept(table.rows[..i], where) == Some(kept)
      {
        assert table.rows[..i + 1][..i] == table.rows[..i];
        var selected := where(table.rows[i]);
        if selected.EvalError? {
          KeptFails(table.rows, where, i + 1);
          return false;
        }
        if selected.Skipped? {
          kept := kept + [table.rows[i]];
        }
        i := i + 1;
      }
      assert table.rows[..i] == table.rows;
      table := table.(rows := kept);
      ok := true;
    }
  }

  lemma {:induction false} KeptFails(rows: seq<Row>, where: Row -> Selection, i: nat)
    requires i <= |rows| && Kept(rows[..i], where).None?
    ensures Kept(rows, where).None?
    decreases |rows| - i
  {
    if i < |rows| {
      assert rows[..i + 1][..i] == rows[..i];
      KeptFails(rows, where, i + 1);
    } else {
      assert rows[..i] == rows;
    }
  }
}
