/** A query result, its full JSON encoding, and the incremental byte budget that stands in for it. */
module QueryResult {
  import opened Common
  import opened Text
  import opened Json

  /** Go's int. */
  newtype int64 = x: int | -0x8000_0000_0000_0000 <= x < 0x8000_0000_0000_0000

  const MAX_INT := 0x7FFF_FFFF_FFFF_FFFF

  type Cell = Option<Bytes>

  type Row = seq<Cell>

  datatype Column = Column(name: Bytes, databaseType: Bytes)

  datatype Output = Output(
    kind: Bytes,
    sourceID: Bytes,
    columns: seq<Column>,
    rows: seq<Row>,
    rowCount: nat,
    truncated: bool)

  // ---- The encoding ----

  function EncodeCell(c: Cell): Bytes {
    if c.Some? then Quote(c.value) else Ascii("null")
  }

  function JoinCells(row: Row): Bytes {
    if row == [] then []
    else JoinCells(row[..|row| - 1]) + (if |row| > 1 then Ascii(",") else []) + EncodeCell(row[|row| - 1])
  }

  function EncodeRow(row: Row): Bytes {
    Ascii("[") + JoinCells(row) + Ascii("]")
  }

  function JoinRows(rows: seq<Row>): Bytes {
    if rows == [] then []
    else JoinRows(rows[..|rows| - 1]) + (if |rows| > 1 then Ascii(",") else []) + EncodeRow(rows[|rows| - 1])
  }

  function EncodeRows(rows: seq<Row>): Bytes {
    Ascii("[") + JoinRows(rows) + Ascii("]")
  }

  function JoinColumns(columns: seq<Column>): Bytes {
    if columns == [] then []
    else
      var last := columns[|columns| - 1];
      JoinColumns(columns[..|columns| - 1]) + (if |columns| > 1 then Ascii(",") else [])
        + Ascii("{\"name\":") + Quote(last.name) + Ascii(",\"database_type\":") + Quote(last.databaseType) + Ascii("}")
  }

  function EncodeColumns(columns: seq<Column>): Bytes {
    Ascii("[") + JoinColumns(columns) + Ascii("]")
  }

  function EncodeBool(b: bool): Bytes {
    if b then Ascii("true") else Ascii("false")
  }

  /** json.Marshal of a RelationalQueryResult. */
  function Encode(o: Output): Bytes {
    Ascii("{\"kind\":") + Quote(o.kind) + Ascii(",\"source_id\":") + Quote(o.sourceID)
      + Ascii(",\"columns\":") + EncodeColumns(o.columns) + Ascii(",\"rows\":") + EncodeRows(o.rows)
      + Ascii(",\"row_count\":") + Decimal(o.rowCount) + Ascii(",\"truncated\":") + EncodeBool(o.truncated) + Ascii("}")
  }

  /** The output as it would be returned with exactly these rows, none left over. */
  function With(o: Output, rows: seq<Row>): Output {
    o.(rows := rows, rowCount := |rows|, truncated := false)
  }

  /** The parts of the encoding that do not depend on the rows. */
  function FixedSize(o: Output): nat {
    |"{\"kind\":"| + |Quote(o.kind)| + |",\"source_id\":"| + |Quote(o.sourceID)| + |",\"columns\":"|
      + |EncodeColumns(o.columns)| + |",\"rows\":"| + |",\"row_count\":"| + |",\"truncated\":"| + |"}"|
  }

  lemma EncodeSize(o: Output)
    ensures |Encode(o)| == FixedSize(o) + |EncodeRows(o.rows)| + |Decimal(o.rowCount)| + if o.truncated then 4 else 5
  {
  }

  lemma JoinCellsSnoc(row: Row, c: Cell)
    ensures JoinCells(row + [c]) == JoinCells(row) + (if row != [] then Ascii(",") else []) + EncodeCell(c)
  {
    assert (row + [c])[..|row|] == row;
  }

  lemma JoinRowsSnoc(rows: seq<Row>, row: Row)
    ensures JoinRows(rows + [row]) == JoinRows(rows) + (if rows != [] then Ascii(",") else []) + EncodeRow(row)
  {
    assert (rows + [row])[..|rows|] == rows;
  }

  lemma {:induction false} CellsGrow(row: Row, k: nat)
    requires k <= |row|
    ensures |JoinCells(row[..k])| <= |JoinCells(row)|
    decreases |row|
  {
    if k < |row| {
      CellsGrow(row[..|row| - 1], k);
      assert row[..|row| - 1][..k] == row[..k];
    } else {
      assert row[..k] == row;
    }
  }

  lemma {:induction false} RowsGrow(rows: seq<Row>, k: nat)
    requires k <= |rows|
    ensures |JoinRows(rows[..k])| <= |JoinRows(rows)|
    ensures 2 * |rows| <= |JoinRows(rows)|
    decreases |rows|
  {
    if rows != [] {
      RowsGrow(rows[..|rows| - 1], if k < |rows| then k else 0);
    }
    if k < |rows| {
      assert rows[..|rows| - 1][..k] == rows[..k];
    } else {
      assert rows[..k] == rows;
    }
  }

  /** The encoding of the result with these rows, none left over, fits the limit. */
  ghost predicate Fitting(o: Output, rows: seq<Row>, limit: int64) {
    |Encode(With(o, rows))| <= limit as int
  }

  /** Results with fewer rows have encodings no longer: if some prefix does not fit, the whole does not. */
  lemma OutputGrows(o: Output, rows: seq<Row>, k: nat)
    requires k <= |rows|
    ensures |Encode(With(o, rows[..k]))| <= |Encode(With(o, rows))|
  {
    EncodeSize(With(o, rows[..k]));
    EncodeSize(With(o, rows));
    RowsGrow(rows, k);
    DecimalGrows(k, |rows|);
  }

  /** What a row adds to the encoding of a result that has none left over. */
  lemma NextRowSize(o: Output, rows: seq<Row>, row: Row)
    ensures |Encode(With(o, rows + [row]))| ==
            FixedSize(o) + |EncodeRows(rows)| + (if rows != [] then 1 else 0) + |EncodeRow(row)|
              + |Decimal(|rows| + 1)| + 5
  {
    hide FixedSize;
    hide Decimal;
    hide JoinRows;
    hide EncodeRow;
    EncodeSize(With(o, rows + [row]));
    SameFixedSize(o, rows + [row]);
    JoinRowsSnoc(rows, row);
  }

  lemma SameFixedSize(o: Output, rows: seq<Row>)
    ensures FixedSize(With(o, rows)) == FixedSize(o)
  {
  }

  // ---- The budget ----

  function Sum(parts: seq<int64>): int {
    if parts == [] then 0 else Sum(parts[..|parts| - 1]) + parts[|parts| - 1] as int
  }

  lemma {:induction false} SumPrefix(parts: seq<int64>, k: nat)
    requires k <= |parts| && forall i | 0 <= i < |parts| :: parts[i] >= 0
    ensures 0 <= Sum(parts[..k]) <= Sum(parts)
    decreases |parts|
  {
    if parts != [] {
      SumPrefix(parts[..|parts| - 1], if k < |parts| then k else 0);
    }
    if k < |parts| {
      assert parts[..|parts| - 1][..k] == parts[..k];
    } else {
      assert parts[..k] == parts;
    }
  }

  lemma SumOfSix(a: int64, b: int64, c: int64, d: int64, e: int64, f: int64)
    ensures Sum([a, b, c, d, e, f]) == a as int + b as int + c as int + d as int + e as int + f as int
  {
    assert [a, b][..1] == [a] && Sum([a]) == a as int;
    assert [a, b, c][..2] == [a, b] && Sum([a, b]) == a as int + b as int;
    assert [a, b, c, d][..3] == [a, b, c] && Sum([a, b, c]) == a as int + b as int + c as int;
    assert [a, b, c, d, e][..4] == [a, b, c, d] && Sum([a, b, c, d]) == a as int + b as int + c as int + d as int;
    assert [a, b, c, d, e, f][..5] == [a, b, c, d, e];
    assert Sum([a, b, c, d, e]) == a as int + b as int + c as int + d as int + e as int;
  }

  class Budget {
    var limit: int64
    var fixedSize: int64
    var rowsSize: int64
    var retainedRows: int64

    /** The counters are those of the encoding of `o` with these rows, and that encoding fits. */
    ghost predicate Accounts(o: Output, rows: seq<Row>)
      reads this
    {
      && fixedSize as int == FixedSize(o)
      && rowsSize as int == |EncodeRows(rows)|
      && retainedRows as int == |rows|
      && Fitting(o, rows, limit)
    }

    /** Precomputes the fixed part; the sizes of three slices that live in memory together add up to an int. */
    constructor (o: Output, limit: int64)
      requires FixedSize(o) <= MAX_INT
      ensures this.limit == limit && fixedSize as int == FixedSize(o)
      ensures rowsSize as int == |EncodeRows([])| && retainedRows == 0
    {
      this.limit := limit;
      fixedSize := FixedSize(o) as int64;
      rowsSize := 2;
      retainedRows := 0;
    }

    /** Subtracts part by part, so that nothing is added up that could overflow. */
    method Fits(parts: seq<int64>) returns (ok: bool)
      requires parts != []
      ensures ok <==> (forall i | 0 <= i < |parts| :: parts[i] >= 0) && Sum(parts) <= limit as int
    {
      var remaining := limit;
      var i := 0;
      while i < |parts|
        invariant 0 <= i <= |parts|
        invariant forall k | 0 <= k < i :: parts[k] >= 0
        invariant remaining as int == limit as int - Sum(parts[..i])
        invariant i > 0 ==> remaining >= 0
      {
        assert parts[..i + 1][..i] == parts[..i];
        if parts[i] < 0 {
          return false;
        }
        if parts[i] > remaining {
          if forall k | 0 <= k < |parts| :: parts[k] >= 0 { SumPrefix(parts, i + 1); }
          return false;
        }
        remaining := remaining - parts[i];
        i := i + 1;
      }
      assert parts[..i] == parts;
      return true;
    }

    /** Would the result with one more row of this size, none left over, still fit? */
    method FitsAdditionalRow(rowSize: int64, ghost o: Output, ghost rows: seq<Row>, ghost row: Row) returns (ok: bool)
      requires Accounts(o, rows) && rowSize as int == |EncodeRow(row)|
      ensures ok <==> Fitting(o, rows + [row], limit)
    {
      hide FixedSize;
      hide JoinRows;
      hide EncodeRow;
      hide Decimal;
      hide Sum;
      AccountsFit(o, rows);
      NextRowSize(o, rows, row);
      var separator: int64 := 0;
      if retainedRows > 0 {
        separator := 1;
      }
      var nextCount := retainedRows + 1;
      DecimalSmall(nextCount as nat);
      var digits := |Decimal(nextCount as nat)| as int64;
      SumOfSix(fixedSize, rowsSize, separator, rowSize, digits, 5);
      ok := Fits([fixedSize, rowsSize, separator, rowSize, digits, 5]);
    }

    lemma AccountsFit(o: Output, rows: seq<Row>)
      requires Accounts(o, rows)
      ensures 0 <= fixedSize as int && 0 <= rowsSize as int && 0 <= retainedRows as int
      ensures 2 * (retainedRows as int) + 2 <= rowsSize as int
    {
      RowsGrow(rows, 0);
    }

    method RetainRow(rowSize: int64, ghost o: Output, ghost rows: seq<Row>, ghost row: Row)
      requires Accounts(o, rows) && rowSize as int == |EncodeRow(row)|
      requires Fitting(o, rows + [row], limit)
      modifies this
      ensures Accounts(o, rows + [row])
      ensures limit == old(limit)
    {
      RowsGrow(rows, 0);
      EncodeSize(With(o, rows));
      EncodeSize(With(o, rows + [row]));
      JoinRowsSnoc(rows, row);
      if retainedRows > 0 {
        rowsSize := rowsSize + 1;
      }
      rowsSize := rowsSize + rowSize;
      retainedRows := retainedRows + 1;
    }
  }
}
