/** Catalog rows gathered into constraints, as the MySQL adapter does it: by name, columns by ordinal. */
module MysqlConstraints {
  import opened Common
  import opened Text

  /** A row of the constraint catalog; a constraint has one for each of its columns. */
  datatype Row = Row(
    name: Bytes,
    constraintType: Bytes,
    columnName: Option<Bytes>,
    ordinal: Option<int>,
    referencedSchema: Option<Bytes>,
    referencedTable: Option<Bytes>,
    referencedColumn: Option<Bytes>,
    matchOption: Option<Bytes>,
    updateRule: Option<Bytes>,
    deleteRule: Option<Bytes>,
    checkClause: Option<Bytes>,
    enforced: bool)

  datatype OrderedColumn = OrderedColumn(ordinal: int, name: Bytes)

  datatype Accumulator = Accumulator(
    name: Bytes,
    constraintType: Bytes,
    columns: seq<OrderedColumn>,
    referencedSchema: Option<Bytes>,
    referencedTable: Option<Bytes>,
    referencedColumns: seq<OrderedColumn>,
    matchOption: Bytes,
    updateRule: Bytes,
    deleteRule: Bytes,
    checkClause: Option<Bytes>,
    enforced: bool)

  const CHECK: Bytes := Ascii("CHECK")

  function NewAccumulator(row: Row): Accumulator {
    Accumulator(row.name, row.constraintType, [], None, None, [], [], [], [], None, row.enforced)
  }

  function OrdinalOf(row: Row): int {
    if row.ordinal.Some? then row.ordinal.value else 0
  }

  function Later<T>(later: Option<T>, earlier: Option<T>): Option<T> {
    if later.Some? then later else earlier
  }

  function LaterText(later: Option<Bytes>, earlier: Bytes): Bytes {
    if later.Some? then later.value else earlier
  }

  function Absorb(a: Accumulator, row: Row): Accumulator {
    a.(columns := a.columns + ColumnIn(row),
       referencedSchema := Later(row.referencedSchema, a.referencedSchema),
       referencedTable := Later(row.referencedTable, a.referencedTable),
       referencedColumns := a.referencedColumns + ReferencedIn(row),
       matchOption := LaterText(row.matchOption, a.matchOption),
       updateRule := LaterText(row.updateRule, a.updateRule),
       deleteRule := LaterText(row.deleteRule, a.deleteRule),
       checkClause := Later(row.checkClause, a.checkClause),
       enforced := row.enforced)
  }

  /** The column a row contributes. */
  function ColumnIn(row: Row): seq<OrderedColumn> {
    if row.columnName.None? || row.constraintType == CHECK then []
    else [OrderedColumn(OrdinalOf(row), row.columnName.value)]
  }

  function ReferencedIn(row: Row): seq<OrderedColumn> {
    if row.referencedColumn.Some? then [OrderedColumn(OrdinalOf(row), row.referencedColumn.value)] else []
  }

  // ---- What the accumulation means, name by name ----

  /** The rows of a name, in their order. */
  function RowsOf(rows: seq<Row>, name: Bytes): (r: seq<Row>)
    ensures forall i | 0 <= i < |r| :: r[i].name == name && r[i] in rows
  {
    if rows == [] then []
    else RowsOf(rows[..|rows| - 1], name) + if rows[|rows| - 1].name == name then [rows[|rows| - 1]] else []
  }

  function Gather(rows: seq<Row>): Accumulator
    requires rows != []
  {
    if |rows| == 1 then Absorb(NewAccumulator(rows[0]), rows[0])
    else Absorb(Gather(rows[..|rows| - 1]), rows[|rows| - 1])
  }

  /** The names of the rows, each where it was first seen. */
  function FirstSeen(rows: seq<Row>): seq<Bytes> {
    if rows == [] then []
    else
      var before := FirstSeen(rows[..|rows| - 1]);
      if rows[|rows| - 1].name in before then before else before + [rows[|rows| - 1].name]
  }

  lemma {:induction false} SeenNames(rows: seq<Row>, name: Bytes)
    ensures name in FirstSeen(rows) <==> RowsOf(rows, name) != []
    ensures name in FirstSeen(rows) <==> exists i :: 0 <= i < |rows| && rows[i].name == name
  {
    if rows != [] {
      var init, last := rows[..|rows| - 1], rows[|rows| - 1];
      SeenNames(init, name);
      assert rows == init + [last];
      if exists i :: 0 <= i < |rows| && rows[i].name == name {
        var i :| 0 <= i < |rows| && rows[i].name == name;
        assert i < |init| ==> init[i].name == name;
      }
      if name in FirstSeen(init) {
        var i :| 0 <= i < |init| && init[i].name == name;
        assert rows[i].name == name;
      } else if last.name == name {
        assert rows[|rows| - 1].name == name;
      }
    }
  }

  lemma {:induction false} SeenOnce(rows: seq<Row>)
    ensures forall i, j | 0 <= i < j < |FirstSeen(rows)| :: FirstSeen(rows)[i] != FirstSeen(rows)[j]
  {
    if rows != [] {
      SeenOnce(rows[..|rows| - 1]);
    }
  }

  /** The accumulators of all names, in the order in which they were first seen. */
  ghost predicate Accumulated(rows: seq<Row>, byName: map<Bytes, nat>, ordered: seq<Accumulator>) {
    var names := FirstSeen(rows);
    && |ordered| == |names|
    && (forall i | 0 <= i < |names| :: RowsOf(rows, names[i]) != [] && ordered[i] == Gather(RowsOf(rows, names[i])))
    && (forall i | 0 <= i < |names| :: names[i] in byName && byName[names[i]] == i)
    && (forall name | name in byName :: name in names)
  }

  /** The loop over the rows: a map from names to accumulators, and their order. */
  method Accumulate(rows: seq<Row>) returns (ordered: seq<Accumulator>)
    ensures |ordered| == |FirstSeen(rows)|
    ensures forall i | 0 <= i < |ordered| ::
              RowsOf(rows, FirstSeen(rows)[i]) != [] && ordered[i] == Gather(RowsOf(rows, FirstSeen(rows)[i]))
  {
    hide Absorb;
    hide NewAccumulator;
    hide Gather;
    hide RowsOf;
    var byName: map<Bytes, nat> := map[];
    assert rows[..0] == [] && FirstSeen([]) == [];
    ordered := [];
    var i := 0;
    while i < |rows|
      invariant 0 <= i <= |rows|
      invariant Accumulated(rows[..i], byName, ordered)
    {
      var row := rows[i];
      assert rows[..i + 1] == rows[..i] + [row];
      AccumulatedNext(rows[..i], byName, ordered, row);
      if row.name !in byName {
        byName := byName[row.name := |ordered|];
        ordered := ordered + [NewAccumulator(row)];
      }
      var at := byName[row.name];
      ordered := ordered[at := Absorb(ordered[at], row)];
      i := i + 1;
    }
    assert rows[..i] == rows;
  }

  lemma RowsOfNext(rows: seq<Row>, row: Row, name: Bytes)
    ensures RowsOf(rows + [row], name) == RowsOf(rows, name) + if row.name == name then [row] else []
  {
    assert (rows + [row])[..|rows|] == rows;
  }

  lemma GatherNext(rows: seq<Row>, row: Row)
    ensures Gather(rows + [row]) == if rows == [] then Absorb(NewAccumulator(row), row) else Absorb(Gather(rows), row)
  {
    hide Absorb;
    hide NewAccumulator;
    assert (rows + [row])[..|rows|] == rows;
  }

  lemma FirstSeenNext(rows: seq<Row>, row: Row)
    ensures FirstSeen(rows + [row]) ==
            if row.name in FirstSeen(rows) then FirstSeen(rows) else FirstSeen(rows) + [row.name]
  {
    assert (rows + [row])[..|rows|] == rows;
  }

  lemma IndexedNames(rows: seq<Row>, byName: map<Bytes, nat>, ordered: seq<Accumulator>, name: Bytes)
    requires Accumulated(rows, byName, ordered)
    ensures name in byName <==> name in FirstSeen(rows)
    ensures name in byName ==> byName[name] < |ordered| && FirstSeen(rows)[byName[name]] == name
  {
    hide Gather;
    hide RowsOf;
    hide FirstSeen;
    var names := FirstSeen(rows);
    if name in names {
      var i :| 0 <= i < |names| && names[i] == name;
      assert names[i] in byName;
    }
  }

  lemma AccumulatedNext(rows: seq<Row>, byName: map<Bytes, nat>, ordered: seq<Accumulator>, row: Row)
    requires Accumulated(rows, byName, ordered)
    ensures row.name in byName ==>
              && byName[row.name] < |ordered|
              && Accumulated(rows + [row], byName,
                             ordered[byName[row.name] := Absorb(ordered[byName[row.name]], row)])
    ensures row.name !in byName ==>
              Accumulated(rows + [row], byName[row.name := |ordered|], ordered + [Absorb(NewAccumulator(row), row)])
  {
    hide Absorb;
    hide NewAccumulator;
    hide Gather;
    hide FirstSeen;
    hide RowsOf;
    var names := FirstSeen(rows);
    SeenOnce(rows);
    SeenNames(rows, row.name);
    IndexedNames(rows, byName, ordered, row.name);
    FirstSeenNext(rows, row);
    GatherNext(RowsOf(rows, row.name), row);
    RowsOfNext(rows, row, row.name);
    forall i | 0 <= i < |names| && names[i] != row.name
      ensures RowsOf(rows + [row], names[i]) == RowsOf(rows, names[i])
    {
      RowsOfNext(rows, row, names[i]);
    }
  }

  // ---- Columns ----

  function ColumnsIn(rows: seq<Row>): seq<OrderedColumn> {
    if rows == [] then [] else ColumnsIn(rows[..|rows| - 1]) + ColumnIn(rows[|rows| - 1])
  }

  function ReferencedColumnsIn(rows: seq<Row>): seq<OrderedColumn> {
    if rows == [] then [] else ReferencedColumnsIn(rows[..|rows| - 1]) + ReferencedIn(rows[|rows| - 1])
  }

  /** Every column of the rows and no other, in their order. */
  lemma {:induction false} GatheredColumns(rows: seq<Row>)
    requires rows != []
    ensures Gather(rows).columns == ColumnsIn(rows)
    ensures Gather(rows).referencedColumns == ReferencedColumnsIn(rows)
    ensures Gather(rows).name == rows[0].name && Gather(rows).constraintType == rows[0].constraintType
    ensures Gather(rows).enforced == rows[|rows| - 1].enforced
    decreases |rows|
  {
    if |rows| > 1 {
      GatheredColumns(rows[..|rows| - 1]);
    } else {
      assert rows[..0] == [];
      assert ColumnsIn(rows) == ColumnIn(rows[0]) && ReferencedColumnsIn(rows) == ReferencedIn(rows[0]);
    }
  }

  /** The columns of rows: those that a row names and is no check, with their ordinals, or zero without one. */
  lemma ColumnsAre(rows: seq<Row>, column: OrderedColumn)
    ensures column in ColumnsIn(rows) <==>
              exists i :: 0 <= i < |rows| && rows[i].columnName == Some(column.name)
                          && rows[i].constraintType != Ascii("CHECK")
                          && (rows[i].ordinal == Some(column.ordinal) || (rows[i].ordinal.None? && column.ordinal == 0))
    ensures column in ReferencedColumnsIn(rows) <==>
              exists i :: 0 <= i < |rows| && rows[i].referencedColumn == Some(column.name)
                          && (rows[i].ordinal == Some(column.ordinal) || (rows[i].ordinal.None? && column.ordinal == 0))
  {
    hide Ascii;
    ColumnsOfRows(rows, column);
    assert forall i | 0 <= i < |rows| ::
        column in ColumnIn(rows[i]) <==>
        && rows[i].columnName == Some(column.name) && rows[i].constraintType != CHECK
        && OrdinalOf(rows[i]) == column.ordinal;
    assert forall i | 0 <= i < |rows| ::
        column in ReferencedIn(rows[i]) <==>
        rows[i].referencedColumn == Some(column.name) && OrdinalOf(rows[i]) == column.ordinal;
  }

  /** sort.SliceStable by ordinal: an element goes after those that are not greater. */
  function InsertColumn(s: seq<OrderedColumn>, x: OrderedColumn): (r: seq<OrderedColumn>) {
    if s == [] || s[|s| - 1].ordinal <= x.ordinal then s + [x]
    else InsertColumn(s[..|s| - 1], x) + [s[|s| - 1]]
  }

  function SortColumns(s: seq<OrderedColumn>): seq<OrderedColumn> {
    if s == [] then [] else InsertColumn(SortColumns(s[..|s| - 1]), s[|s| - 1])
  }

  ghost predicate Ascending(s: seq<OrderedColumn>) {
    forall i, j | 0 <= i < j < |s| :: s[i].ordinal <= s[j].ordinal
  }

  /** The columns of an ordinal, in their order. */
  function Ties(s: seq<OrderedColumn>, ordinal: int): seq<OrderedColumn> {
    if s == [] then []
    else Ties(s[..|s| - 1], ordinal) + if s[|s| - 1].ordinal == ordinal then [s[|s| - 1]] else []
  }

  lemma {:induction false} TiesAppend(s: seq<OrderedColumn>, t: seq<OrderedColumn>, ordinal: int)
    ensures Ties(s + t, ordinal) == Ties(s, ordinal) + Ties(t, ordinal)
    decreases |t|
  {
    if t == [] {
      assert s + t == s;
    } else {
      assert (s + t)[..|s + t| - 1] == s + t[..|t| - 1];
      TiesAppend(s, t[..|t| - 1], ordinal);
    }
  }

  /** Inserting keeps the order; the greatest ordinal is that of the last column before, or the new one. */
  lemma {:induction false} InsertColumnSorted(s: seq<OrderedColumn>, x: OrderedColumn)
    requires Ascending(s)
    ensures var r := InsertColumn(s, x);
      && Ascending(r) && r != []
      && r[|r| - 1].ordinal == if s == [] || s[|s| - 1].ordinal <= x.ordinal then x.ordinal else s[|s| - 1].ordinal
    decreases |s|
  {
    if s != [] && s[|s| - 1].ordinal > x.ordinal {
      var init, last := s[..|s| - 1], s[|s| - 1];
      InsertColumnSorted(init, x);
      if init != [] { assert s[|s| - 2].ordinal <= last.ordinal; }
      AscendingNext(InsertColumn(init, x), last);
    } else {
      AscendingNext(s, x);
    }
  }

  lemma AscendingNext(s: seq<OrderedColumn>, x: OrderedColumn)
    requires Ascending(s) && (s != [] ==> s[|s| - 1].ordinal <= x.ordinal)
    ensures Ascending(s + [x])
  {
  }

  lemma TiesOfOne(x: OrderedColumn, ordinal: int)
    ensures Ties([x], ordinal) == if x.ordinal == ordinal then [x] else []
  {
    assert [x][..0] == [];
  }

  lemma {:induction false} InsertColumnTies(s: seq<OrderedColumn>, x: OrderedColumn, ordinal: int)
    ensures Ties(InsertColumn(s, x), ordinal) == Ties(s, ordinal) + Ties([x], ordinal)
    decreases |s|
  {
    hide Ties;
    if s == [] || s[|s| - 1].ordinal <= x.ordinal {
      TiesAppend(s, [x], ordinal);
    } else {
      var init, last := s[..|s| - 1], s[|s| - 1];
      InsertColumnTies(init, x, ordinal);
      assert s == init + [last];
      TiesAppend(init, [last], ordinal);
      TiesAppend(InsertColumn(init, x), [last], ordinal);
      TiesOfOne(x, ordinal);
      TiesOfOne(last, ordinal);
    }
  }

  lemma {:induction false} SortColumnsAscending(s: seq<OrderedColumn>)
    ensures Ascending(SortColumns(s))
    decreases |s|
  {
    hide InsertColumn;
    hide Ascending;
    if s == [] {
      assert Ascending([]) by { NothingAscends(); }
    } else {
      SortColumnsAscending(s[..|s| - 1]);
      InsertColumnSorted(SortColumns(s[..|s| - 1]), s[|s| - 1]);
    }
  }

  lemma NothingAscends()
    ensures Ascending([])
  {
  }

  /** Sorting leaves the columns of each ordinal as they were: none lost, none invented, none swapped. */
  lemma {:induction false} SortColumnsStable(s: seq<OrderedColumn>, ordinal: int)
    ensures Ties(SortColumns(s), ordinal) == Ties(s, ordinal)
    decreases |s|
  {
    hide InsertColumn;
    if s != [] {
      var init, last := s[..|s| - 1], s[|s| - 1];
      SortColumnsStable(init, ordinal);
      InsertColumnTies(SortColumns(init), last, ordinal);
      TiesAppend(init, [last], ordinal);
      assert s == init + [last];
    }
  }

  /** Ascending columns are determined by the columns of each ordinal. */
  lemma {:induction false} AscendingUnique(s: seq<OrderedColumn>, t: seq<OrderedColumn>)
    requires Ascending(s) && Ascending(t) && Alike(s, t)
    ensures s == t
    decreases |s| + |t|
  {
    hide Ties;
    if s != [] && t != [] {
      var x, y := s[|s| - 1], t[|t| - 1];
      LastTie(s);
      LastTie(t);
      if x.ordinal < y.ordinal { NoTies(s, y.ordinal); }
      if y.ordinal < x.ordinal { NoTies(t, x.ordinal); }
      assert x == y;
      var u, v := s[..|s| - 1], t[..|t| - 1];
      assert s == u + [x] && t == v + [x];
      forall ordinal ensures Ties(u, ordinal) == Ties(v, ordinal) {
        var rest := Ties([x], ordinal);
        TiesAppend(u, [x], ordinal);
        TiesAppend(v, [x], ordinal);
        assert Ties(s, ordinal) == Ties(t, ordinal);
        assert Ties(s, ordinal)[..|Ties(s, ordinal)| - |rest|] == Ties(u, ordinal);
        assert Ties(t, ordinal)[..|Ties(t, ordinal)| - |rest|] == Ties(v, ordinal);
      }
      AscendingUnique(u, v);
    } else if s != [] {
      LastTie(s);
      TiesOfNone(s[|s| - 1].ordinal);
    } else if t != [] {
      LastTie(t);
      TiesOfNone(t[|t| - 1].ordinal);
    }
  }

  lemma TiesOfNone(ordinal: int)
    ensures Ties([], ordinal) == []
  {
  }

  lemma LastTie(s: seq<OrderedColumn>)
    requires s != []
    ensures var x := s[|s| - 1]; var ties := Ties(s, x.ordinal); ties != [] && ties[|ties| - 1] == x
  {
  }

  lemma {:induction false} NoTies(s: seq<OrderedColumn>, ordinal: int)
    requires Ascending(s) && (s != [] ==> s[|s| - 1].ordinal < ordinal)
    ensures Ties(s, ordinal) == []
    decreases |s|
  {
    if |s| > 1 {
      assert s[|s| - 2].ordinal <= s[|s| - 1].ordinal;
      NoTies(s[..|s| - 1], ordinal);
    }
  }

  /** They have the same columns of each ordinal, in the same order. */
  ghost predicate Alike(s: seq<OrderedColumn>, t: seq<OrderedColumn>) {
    forall ordinal :: Ties(s, ordinal) == Ties(t, ordinal)
  }

  /** Two orders of the rows give one list exactly when they agree on the order of each ordinal's columns. */
  lemma SortedAlike(s: seq<OrderedColumn>, t: seq<OrderedColumn>)
    ensures SortColumns(s) == SortColumns(t) <==> Alike(s, t)
  {
    hide SortColumns;
    SortingIsAlike(s);
    SortingIsAlike(t);
    SortColumnsAscending(s);
    SortColumnsAscending(t);
    if Alike(s, t) {
      AscendingUnique(SortColumns(s), SortColumns(t));
    }
  }

  lemma SortingIsAlike(s: seq<OrderedColumn>)
    ensures Alike(SortColumns(s), s)
  {
    hide SortColumns;
    forall ordinal ensures Ties(SortColumns(s), ordinal) == Ties(s, ordinal) {
      SortColumnsStable(s, ordinal);
    }
  }

  ghost predicate DistinctOrdinals(s: seq<OrderedColumn>) {
    forall i, j | 0 <= i < j < |s| :: s[i].ordinal != s[j].ordinal
  }

  lemma LastIsApart(s: seq<OrderedColumn>)
    requires DistinctOrdinals(s) && s != []
    ensures forall y | y in s[..|s| - 1] :: y.ordinal != s[|s| - 1].ordinal
    ensures DistinctOrdinals(s[..|s| - 1])
  {
    var init := s[..|s| - 1];
    forall y | y in init ensures y.ordinal != s[|s| - 1].ordinal {
      var k :| 0 <= k < |init| && init[k] == y;
      assert s[k].ordinal != s[|s| - 1].ordinal;
    }
  }

  lemma {:induction false} TiesDistinct(s: seq<OrderedColumn>, x: OrderedColumn)
    requires DistinctOrdinals(s)
    ensures x in s ==> Ties(s, x.ordinal) == [x]
    ensures (forall y | y in s :: y.ordinal != x.ordinal) ==> Ties(s, x.ordinal) == []
    decreases |s|
  {
    if s != [] {
      var init, last := s[..|s| - 1], s[|s| - 1];
      assert s == init + [last];
      LastIsApart(s);
      TiesDistinct(init, x);
    }
  }

  /** With distinct ordinals the order of the rows does not matter. */
  lemma RowOrderDoesNotMatter(s: seq<OrderedColumn>, t: seq<OrderedColumn>)
    requires DistinctOrdinals(s) && DistinctOrdinals(t) && forall y :: y in s <==> y in t
    ensures SortColumns(s) == SortColumns(t)
  {
    hide SortColumns;
    hide DistinctOrdinals;
    forall ordinal ensures Ties(s, ordinal) == Ties(t, ordinal) {
      if x :| x in s && x.ordinal == ordinal {
        assert x in t;
        TiesDistinct(s, x);
        TiesDistinct(t, x);
      } else {
        assert forall y | y in s :: y.ordinal != ordinal;
        assert forall y | y in t :: y in s && y.ordinal != ordinal;
        TiesDistinct(s, OrderedColumn(ordinal, []));
        TiesDistinct(t, OrderedColumn(ordinal, []));
      }
    }
    SortedAlike(s, t);
  }

  lemma {:induction false} ColumnsOfRows(rows: seq<Row>, y: OrderedColumn)
    ensures y in ColumnsIn(rows) <==> exists i :: 0 <= i < |rows| && y in ColumnIn(rows[i])
    ensures y in ReferencedColumnsIn(rows) <==> exists i :: 0 <= i < |rows| && y in ReferencedIn(rows[i])
    decreases |rows|
  {
    hide ColumnIn;
    hide ReferencedIn;
    if rows != [] {
      var last := |rows| - 1;
      ColumnsOfRows(rows[..last], y);
      assert rows == rows[..last] + [rows[last]];
    }
  }

  /** The same rows, in any order. */
  ghost predicate SameRows(rows: seq<Row>, other: seq<Row>) {
    (forall row | row in rows :: row in other) && (forall row | row in other :: row in rows)
  }

  lemma SameRowsSameColumns(rows: seq<Row>, other: seq<Row>, y: OrderedColumn)
    requires forall row | row in rows :: row in other
    ensures y in ColumnsIn(rows) ==> y in ColumnsIn(other)
    ensures y in ReferencedColumnsIn(rows) ==> y in ReferencedColumnsIn(other)
  {
    hide ColumnIn;
    hide ReferencedIn;
    hide ColumnsIn;
    hide ReferencedColumnsIn;
    ColumnsOfRows(rows, y);
    ColumnsOfRows(other, y);
    if y in ColumnsIn(rows) {
      var i :| 0 <= i < |rows| && y in ColumnIn(rows[i]);
      assert rows[i] in other;
      var j :| 0 <= j < |other| && other[j] == rows[i];
      assert y in ColumnIn(other[j]);
    }
    if y in ReferencedColumnsIn(rows) {
      var i :| 0 <= i < |rows| && y in ReferencedIn(rows[i]);
      assert rows[i] in other;
      var j :| 0 <= j < |other| && other[j] == rows[i];
      assert y in ReferencedIn(other[j]);
    }
  }

  /**
   The column lists of a constraint do not depend on the order of its rows, when no two columns of either
   list have the same ordinal.
   */
  lemma GatheredInAnyOrder(rows: seq<Row>, other: seq<Row>)
    requires rows != [] && other != [] && SameRows(rows, other)
    requires DistinctOrdinals(ColumnsIn(rows)) && DistinctOrdinals(ColumnsIn(other))
    requires DistinctOrdinals(ReferencedColumnsIn(rows)) && DistinctOrdinals(ReferencedColumnsIn(other))
    ensures SortColumns(Gather(rows).columns) == SortColumns(Gather(other).columns)
    ensures SortColumns(Gather(rows).referencedColumns) == SortColumns(Gather(other).referencedColumns)
  {
    hide ColumnsIn;
    hide ReferencedColumnsIn;
    hide SortColumns;
    hide Gather;
    hide DistinctOrdinals;
    GatheredColumns(rows);
    GatheredColumns(other);
    forall y
      ensures y in ColumnsIn(rows) <==> y in ColumnsIn(other)
      ensures y in ReferencedColumnsIn(rows) <==> y in ReferencedColumnsIn(other)
    {
      SameRowsSameColumns(rows, other, y);
      SameRowsSameColumns(other, rows, y);
    }
    RowOrderDoesNotMatter(ColumnsIn(rows), ColumnsIn(other));
    RowOrderDoesNotMatter(ReferencedColumnsIn(rows), ReferencedColumnsIn(other));
  }

  // ---- Constraints ----

  datatype Reference = Reference(schema: Bytes, table: Bytes, columns: seq<Bytes>)

  datatype Kind = PrimaryKey | Unique | ForeignKey | Check

  datatype Constraint = Constraint(
    name: Bytes,
    kind: Kind,
    columns: seq<Bytes>,
    validated: bool,
    checkExpression: Option<Bytes>,
    matchType: Bytes,
    updateAction: Bytes,
    deleteAction: Bytes,
    referenced: Option<Reference>)

  /** What the adapter knows besides the rows: the names it recognises, the database, and the columns of the page. */
  datatype Catalog = Catalog(
    matchOf: Bytes -> Option<Bytes>,
    actionOf: Bytes -> Option<Bytes>,
    database: Bytes,
    retained: set<Bytes>)

  function KindOf(constraintType: Bytes): Option<Kind> {
    if constraintType == Ascii("PRIMARY KEY") then Some(PrimaryKey)
    else if constraintType == Ascii("UNIQUE") then Some(Unique)
    else if constraintType == Ascii("FOREIGN KEY") then Some(ForeignKey)
    else if constraintType == CHECK then Some(Check)
    else None
  }

  function ColumnNames(s: seq<OrderedColumn>): (names: seq<Bytes>)
    ensures |names| == |s| && forall i | 0 <= i < |s| :: names[i] == s[i].name
  {
    seq(|s|, i requires 0 <= i < |s| => s[i].name)
  }

  predicate Retains(retained: set<Bytes>, names: seq<Bytes>) {
    exists i | 0 <= i < |names| :: names[i] in retained
  }

  /** Err is an unknown type, option or action; None a constraint of other pages' columns only. */
  function Materialize(c: Catalog, a: Accumulator): Result<Option<Constraint>, ()> {
    match KindOf(a.constraintType)
    case None => Err(())
    case Some(kind) =>
      var columns := ColumnNames(SortColumns(a.columns));
      if kind != Check && !Retains(c.retained, columns) then Ok(None)
      else
        var base := Constraint(a.name, kind, if kind == Check then [] else columns, a.enforced,
                               if kind == Check then a.checkClause else None, [], [], [], None);
        if kind != ForeignKey then Ok(Some(base))
        else if c.matchOf(a.matchOption).None? then Err(())
        else if c.actionOf(a.updateRule).None? || c.actionOf(a.deleteRule).None? then Err(())
        else
          Ok(Some(base.(matchType := c.matchOf(a.matchOption).value,
                        updateAction := c.actionOf(a.updateRule).value,
                        deleteAction := c.actionOf(a.deleteRule).value,
                        referenced :=
                          if a.referencedSchema == Some(c.database) && a.referencedTable.Some? then
                            Some(Reference(a.referencedSchema.value, a.referencedTable.value,
                                           ColumnNames(SortColumns(a.referencedColumns))))
                          else None)))
  }

  /** The constraint of a name, from the rows of that name alone. */
  function ConstraintFor(c: Catalog, rows: seq<Row>, name: Bytes): Result<Option<Constraint>, ()>
    requires RowsOf(rows, name) != []
  {
    Materialize(c, Gather(RowsOf(rows, name)))
  }

  /** The constraints of these names, in their order, without those that are not retained. */
  ghost predicate Lists(c: Catalog, rows: seq<Row>, names: seq<Bytes>, constraints: seq<Constraint>) {
    && (forall i | 0 <= i < |names| :: RowsOf(rows, names[i]) != [])
    && if names == [] then constraints == []
       else
         var r := ConstraintFor(c, rows, names[|names| - 1]);
         && r.Ok?
         && if r.value.None? then Lists(c, rows, names[..|names| - 1], constraints)
            else constraints != [] && constraints[|constraints| - 1] == r.value.value
                 && Lists(c, rows, names[..|names| - 1], constraints[..|constraints| - 1])
  }

  method ListConstraints(c: Catalog, rows: seq<Row>) returns (r: Result<seq<Constraint>, ()>)
    ensures r.Ok? ==> Lists(c, rows, FirstSeen(rows), r.value)
    ensures r.Err? ==> exists name | name in FirstSeen(rows) ::
                         RowsOf(rows, name) != [] && ConstraintFor(c, rows, name).Err?
  {
    hide FirstSeen;
    hide RowsOf;
    hide Gather;
    hide Materialize;
    var ordered := Accumulate(rows);
    ghost var names := FirstSeen(rows);
    var constraints: seq<Constraint> := [];
    var i := 0;
    while i < |ordered|
      invariant 0 <= i <= |ordered| && |ordered| == |names|
      invariant Lists(c, rows, names[..i], constraints)
    {
      var constraint := Materialize(c, ordered[i]);
      assert names[..i + 1][..i] == names[..i];
      assert ConstraintFor(c, rows, names[i]) == constraint;
      if constraint.Err? {
        assert names[i] in names;
        return Err(());
      }
      if constraint.value.Some? {
        assert (constraints + [constraint.value.value])[..|constraints|] == constraints;
        constraints := constraints + [constraint.value.value];
      }
      i := i + 1;
    }
    assert names[..i] == names;
    return Ok(constraints);
  }

  /** No name is listed twice. */
  lemma {:induction false} ListedOnce(c: Catalog, rows: seq<Row>, names: seq<Bytes>, constraints: seq<Constraint>)
    requires Lists(c, rows, names, constraints)
    requires forall i, j | 0 <= i < j < |names| :: names[i] != names[j]
    ensures forall k | 0 <= k < |constraints| :: constraints[k].name in names
    ensures forall i, j | 0 <= i < j < |constraints| :: constraints[i].name != constraints[j].name
    decreases |names|
  {
    hide ConstraintFor;
    hide RowsOf;
    if names != [] {
      var init, last := names[..|names| - 1], names[|names| - 1];
      assert names == init + [last];
      var r := ConstraintFor(c, rows, last);
      var before := if r.value.None? then constraints else constraints[..|constraints| - 1];
      ListedOnce(c, rows, init, before);
      if r.value.Some? {
        NamedAfterRows(c, rows, last);
        assert constraints == before + [r.value.value];
        assert last !in init;
      }
    }
  }

  lemma NamedAfterRows(c: Catalog, rows: seq<Row>, name: Bytes)
    requires RowsOf(rows, name) != []
    ensures var r := ConstraintFor(c, rows, name);
      r.Ok? && r.value.Some? ==>
        && r.value.value.name == name
        && (r.value.value.kind != Check ==>
              r.value.value.columns == ColumnNames(SortColumns(ColumnsIn(RowsOf(rows, name)))))
  {
    hide Materialize;
    hide SortColumns;
    hide Absorb;
    var own := RowsOf(rows, name);
    GatheredColumns(own);
    MaterializedAs(c, Gather(own));
  }

  lemma MaterializedAs(c: Catalog, a: Accumulator)
    ensures var r := Materialize(c, a);
      r.Ok? && r.value.Some? ==>
        && r.value.value.name == a.name && r.value.value.validated == a.enforced
        && (r.value.value.kind != Check ==> r.value.value.columns == ColumnNames(SortColumns(a.columns)))
  {
    hide SortColumns;
    hide Retains;
    hide KindOf;
  }

  // ---- What a constraint says ----

  datatype Field = ReferencedSchema | ReferencedTable | MatchOption | UpdateRule | DeleteRule | CheckClause

  function Get(row: Row, field: Field): Option<Bytes> {
    match field
    case ReferencedSchema => row.referencedSchema
    case ReferencedTable => row.referencedTable
    case MatchOption => row.matchOption
    case UpdateRule => row.updateRule
    case DeleteRule => row.deleteRule
    case CheckClause => row.checkClause
  }

  /** The value of the last row that has one. */
  ghost predicate IsLast(rows: seq<Row>, field: Field, v: Option<Bytes>) {
    if v.None? then forall i | 0 <= i < |rows| :: Get(rows[i], field).None?
    else exists i ::
           0 <= i < |rows| && Get(rows[i], field) == v && forall j | i < j < |rows| :: Get(rows[j], field).None?
  }

  /** The same, where no value reads as an empty text. */
  ghost predicate IsLastText(rows: seq<Row>, field: Field, text: Bytes) {
    IsLast(rows, field, Some(text)) || (text == [] && IsLast(rows, field, None))
  }

  lemma LastNext(rows: seq<Row>, row: Row, field: Field, v: Option<Bytes>)
    requires IsLast(rows, field, v)
    ensures IsLast(rows + [row], field, Later(Get(row, field), v))
  {
    hide Get;
    var more := rows + [row];
    assert more[|rows|] == row && forall i | 0 <= i < |rows| :: more[i] == rows[i];
    if Get(row, field).None? && v.Some? {
      var i :| 0 <= i < |rows| && Get(rows[i], field) == v && forall j | i < j < |rows| :: Get(rows[j], field).None?;
      assert Get(more[i], field) == v;
    }
  }

  lemma LastTextNext(rows: seq<Row>, row: Row, field: Field, text: Bytes)
    requires IsLastText(rows, field, text)
    ensures IsLastText(rows + [row], field, LaterText(Get(row, field), text))
  {
    hide Get;
    hide IsLast;
    var v := if IsLast(rows, field, Some(text)) then Some(text) else None;
    LastNext(rows, row, field, v);
  }

  /** Of each field the constraint has the value of the last of its rows that has one. */
  lemma {:induction false} GatheredFields(rows: seq<Row>)
    requires rows != []
    ensures IsLast(rows, ReferencedSchema, Gather(rows).referencedSchema)
    ensures IsLast(rows, ReferencedTable, Gather(rows).referencedTable)
    ensures IsLast(rows, CheckClause, Gather(rows).checkClause)
    ensures IsLastText(rows, MatchOption, Gather(rows).matchOption)
    ensures IsLastText(rows, UpdateRule, Gather(rows).updateRule)
    ensures IsLastText(rows, DeleteRule, Gather(rows).deleteRule)
    decreases |rows|
  {
    hide IsLast;
    hide IsLastText;
    var init, row := rows[..|rows| - 1], rows[|rows| - 1];
    assert rows == init + [row];
    var a := if init == [] then NewAccumulator(row) else Gather(init);
    if init == [] {
      NothingLast();
    } else {
      GatheredFields(init);
    }
    LastNext(init, row, ReferencedSchema, a.referencedSchema);
    LastNext(init, row, ReferencedTable, a.referencedTable);
    LastNext(init, row, CheckClause, a.checkClause);
    LastTextNext(init, row, MatchOption, a.matchOption);
    LastTextNext(init, row, UpdateRule, a.updateRule);
    LastTextNext(init, row, DeleteRule, a.deleteRule);
  }

  lemma NothingLast()
    ensures forall field :: IsLast([], field, None) && IsLastText([], field, [])
  {
  }

  /** One of its columns is on the page. */
  ghost predicate OnPage(c: Catalog, own: seq<Row>) {
    exists column :: column in ColumnsIn(own) && column.name in c.retained
  }

  /** The names that a foreign key uses are recognised. */
  ghost predicate Recognised(c: Catalog, own: seq<Row>) {
    && (exists text :: IsLastText(own, MatchOption, text) && c.matchOf(text).Some?)
    && (exists text :: IsLastText(own, UpdateRule, text) && c.actionOf(text).Some?)
    && (exists text :: IsLastText(own, DeleteRule, text) && c.actionOf(text).Some?)
  }

  /** The constraint that rows of one name describe. */
  ghost predicate Describes(c: Catalog, own: seq<Row>, k: Constraint)
    requires own != []
  {
    var type_ := own[0].constraintType;
    && k.name == own[0].name && k.validated == own[|own| - 1].enforced
    && (match k.kind
        case PrimaryKey => type_ == Ascii("PRIMARY KEY")
        case Unique => type_ == Ascii("UNIQUE")
        case ForeignKey => type_ == Ascii("FOREIGN KEY")
        case Check => type_ == Ascii("CHECK"))
    && k.columns == (if k.kind == Check then [] else ColumnNames(SortColumns(ColumnsIn(own))))
    && (if k.kind == Check then IsLast(own, CheckClause, k.checkExpression) else k.checkExpression.None?)
    && (if k.kind == ForeignKey then
          && (exists text :: IsLastText(own, MatchOption, text) && c.matchOf(text) == Some(k.matchType))
          && (exists text :: IsLastText(own, UpdateRule, text) && c.actionOf(text) == Some(k.updateAction))
          && (exists text :: IsLastText(own, DeleteRule, text) && c.actionOf(text) == Some(k.deleteAction))
          && (k.referenced.None? ==>
                !IsLast(own, ReferencedSchema, Some(c.database)) || IsLast(own, ReferencedTable, None))
          && (k.referenced.Some? ==>
                && k.referenced.value.schema == c.database
                && IsLast(own, ReferencedSchema, Some(c.database))
                && IsLast(own, ReferencedTable, Some(k.referenced.value.table))
                && k.referenced.value.columns == ColumnNames(SortColumns(ReferencedColumnsIn(own))))
        else k.matchType == [] && k.updateAction == [] && k.deleteAction == [] && k.referenced.None?)
  }

  lemma LastIsOne(rows: seq<Row>, field: Field, u: Option<Bytes>, v: Option<Bytes>)
    requires IsLast(rows, field, u) && IsLast(rows, field, v)
    ensures u == v
  {
    hide Get;
    if u.Some? && v.Some? {
      var i :| 0 <= i < |rows| && Get(rows[i], field) == u && forall j | i < j < |rows| :: Get(rows[j], field).None?;
      var k :| 0 <= k < |rows| && Get(rows[k], field) == v && forall j | k < j < |rows| :: Get(rows[j], field).None?;
      assert i == k;
    }
  }

  lemma LastTextIsOne(rows: seq<Row>, field: Field, s: Bytes, t: Bytes)
    requires IsLastText(rows, field, s) && IsLastText(rows, field, t)
    ensures s == t
  {
    hide IsLast;
    var u := if IsLast(rows, field, Some(s)) then Some(s) else None;
    var v := if IsLast(rows, field, Some(t)) then Some(t) else None;
    LastIsOne(rows, field, u, v);
  }

  lemma RetainsIs(c: Catalog, columns: seq<OrderedColumn>)
    ensures Retains(c.retained, ColumnNames(SortColumns(columns)))
            <==> exists column :: column in columns && column.name in c.retained
  {
    hide SortColumns;
    var sorted := SortColumns(columns);
    forall x ensures x in sorted <==> x in columns {
      SortedMembers(columns, x);
    }
    if Retains(c.retained, ColumnNames(sorted)) {
      var i :| 0 <= i < |sorted| && ColumnNames(sorted)[i] in c.retained;
      assert sorted[i] in columns;
    }
    if column :| column in columns && column.name in c.retained {
      assert column in sorted;
      var i :| 0 <= i < |sorted| && sorted[i] == column;
      assert ColumnNames(sorted)[i] in c.retained;
    }
  }

  lemma SortedMembers(s: seq<OrderedColumn>, x: OrderedColumn)
    ensures x in SortColumns(s) <==> x in s
  {
    hide SortColumns;
    SortColumnsStable(s, x.ordinal);
    InTies(s, x);
    InTies(SortColumns(s), x);
  }

  lemma {:induction false} InTies(s: seq<OrderedColumn>, x: OrderedColumn)
    ensures x in s <==> x in Ties(s, x.ordinal)
    decreases |s|
  {
    if s != [] {
      InTies(s[..|s| - 1], x);
      assert s == s[..|s| - 1] + [s[|s| - 1]];
    }
  }

  /** With the texts of its fields known. */
  lemma TextsAre(own: seq<Row>, a: Accumulator)
    requires own != [] && a == Gather(own)
    ensures forall text :: IsLastText(own, MatchOption, text) <==> text == a.matchOption
    ensures forall text :: IsLastText(own, UpdateRule, text) <==> text == a.updateRule
    ensures forall text :: IsLastText(own, DeleteRule, text) <==> text == a.deleteRule
    ensures forall v :: IsLast(own, ReferencedSchema, v) <==> v == a.referencedSchema
    ensures forall v :: IsLast(own, ReferencedTable, v) <==> v == a.referencedTable
    ensures forall v :: IsLast(own, CheckClause, v) <==> v == a.checkClause
  {
    hide Gather;
    hide IsLast;
    hide IsLastText;
    GatheredFields(own);
    forall text
      ensures IsLastText(own, MatchOption, text) <==> text == a.matchOption
      ensures IsLastText(own, UpdateRule, text) <==> text == a.updateRule
      ensures IsLastText(own, DeleteRule, text) <==> text == a.deleteRule
    {
      if IsLastText(own, MatchOption, text) { LastTextIsOne(own, MatchOption, text, a.matchOption); }
      if IsLastText(own, UpdateRule, text) { LastTextIsOne(own, UpdateRule, text, a.updateRule); }
      if IsLastText(own, DeleteRule, text) { LastTextIsOne(own, DeleteRule, text, a.deleteRule); }
    }
    forall v
      ensures IsLast(own, ReferencedSchema, v) <==> v == a.referencedSchema
      ensures IsLast(own, ReferencedTable, v) <==> v == a.referencedTable
      ensures IsLast(own, CheckClause, v) <==> v == a.checkClause
    {
      if IsLast(own, ReferencedSchema, v) { LastIsOne(own, ReferencedSchema, v, a.referencedSchema); }
      if IsLast(own, ReferencedTable, v) { LastIsOne(own, ReferencedTable, v, a.referencedTable); }
      if IsLast(own, CheckClause, v) { LastIsOne(own, CheckClause, v, a.checkClause); }
    }
  }

  /** Whether a constraint of these rows is listed, left out or refused. */
  lemma ConstraintIsListed(c: Catalog, own: seq<Row>)
    requires own != []
    ensures var r := Materialize(c, Gather(own));
      var known := own[0].constraintType in [Ascii("PRIMARY KEY"), Ascii("UNIQUE"), Ascii("FOREIGN KEY"), CHECK];
      var kept := own[0].constraintType == CHECK || OnPage(c, own);
      && (r.Err? <==> !known || (kept && own[0].constraintType == Ascii("FOREIGN KEY") && !Recognised(c, own)))
      && (r == Ok(None) <==> known && !kept)
  {
    hide Gather;
    hide SortColumns;
    hide Retains;
    hide IsLastText;
    hide Ascii;
    hide ColumnsIn;
    var a := Gather(own);
    GatheredColumns(own);
    TextsAre(own, a);
    RetainsIs(c, a.columns);
    TypesDiffer();
  }

  /**
   The constraint of a name says what its rows say. It fails exactly on an unknown type, or on a foreign key of the
   page with a name that is not recognised, and it is left out exactly when none of its columns is on the page.
   */
  lemma ConstraintDescribes(c: Catalog, rows: seq<Row>, name: Bytes)
    requires RowsOf(rows, name) != []
    ensures var own, r := RowsOf(rows, name), ConstraintFor(c, rows, name);
      var known := own[0].constraintType in [Ascii("PRIMARY KEY"), Ascii("UNIQUE"), Ascii("FOREIGN KEY"), CHECK];
      var kept := own[0].constraintType == CHECK || OnPage(c, own);
      && (r.Err? <==> !known || (kept && own[0].constraintType == Ascii("FOREIGN KEY") && !Recognised(c, own)))
      && (r == Ok(None) <==> known && !kept)
      && (r.Ok? && r.value.Some? ==> Describes(c, own, r.value.value))
  {
    hide Gather;
    hide Materialize;
    hide Describes;
    hide Recognised;
    hide OnPage;
    hide Ascii;
    var own := RowsOf(rows, name);
    ConstraintIsListed(c, own);
    if Materialize(c, Gather(own)).Ok? && Materialize(c, Gather(own)).value.Some? {
      ListedDescribes(c, own);
    }
  }

  lemma ListedDescribes(c: Catalog, own: seq<Row>)
    requires own != []
    ensures var r := Materialize(c, Gather(own));
      r.Ok? && r.value.Some? ==> Describes(c, own, r.value.value)
  {
    hide Gather;
    hide SortColumns;
    hide Retains;
    hide IsLast;
    hide IsLastText;
    hide Ascii;
    hide ColumnsIn;
    hide ReferencedColumnsIn;
    GatheredColumns(own);
    TextsAre(own, Gather(own));
    TypesDiffer();
  }

  lemma TypesDiffer()
    ensures CHECK == Ascii("CHECK") && Ascii("PRIMARY KEY") != CHECK && Ascii("UNIQUE") != CHECK
    ensures Ascii("FOREIGN KEY") != CHECK && Ascii("FOREIGN KEY") != Ascii("PRIMARY KEY")
    ensures Ascii("FOREIGN KEY") != Ascii("UNIQUE")
  {
    assert Ascii("PRIMARY KEY")[0] == 80 && Ascii("UNIQUE")[0] == 85 && Ascii("FOREIGN KEY")[0] == 70 && CHECK[0] == 67;
  }
}
