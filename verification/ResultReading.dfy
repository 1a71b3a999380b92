/** The encoding of a query result is the JSON text of its fields, and a reader gets them back. */
module ResultReading {
  import opened Common
  import opened Text
  import opened Json
  import opened JsonValue
  import opened QueryResult

  // ---- The fields ----

  function CellValue(c: Cell): Value {
    if c.Some? then String(c.value) else Null
  }

  function RowValue(row: Row): Value {
    List(seq(|row|, i requires 0 <= i < |row| => CellValue(row[i])))
  }

  function ColumnValue(column: Column): Value {
    Object([Field("name", String(column.name)), Field("database_type", String(column.databaseType))])
  }

  function RowValues(rows: seq<Row>): seq<Value> {
    seq(|rows|, i requires 0 <= i < |rows| => RowValue(rows[i]))
  }

  function ColumnValues(columns: seq<Column>): seq<Value> {
    seq(|columns|, i requires 0 <= i < |columns| => ColumnValue(columns[i]))
  }

  function OutputValue(o: Output): Value {
    Object([
      Field("kind", String(o.kind)),
      Field("source_id", String(o.sourceID)),
      Field("columns", List(ColumnValues(o.columns))),
      Field("rows", List(RowValues(o.rows))),
      Field("row_count", Number(o.rowCount)),
      Field("truncated", Bool(o.truncated))])
  }

  // ---- The encoding ----

  lemma {:induction false} CellsAre(row: Row)
    ensures RenderItems(RowValue(row).items) == JoinCells(row)
  {
    hide Escape;
    if row != [] {
      var init, last := row[..|row| - 1], row[|row| - 1];
      CellsAre(init);
      RenderItemsSnoc(RowValue(init).items, CellValue(last));
      assert RowValue(row).items == RowValue(init).items + [CellValue(last)];
      assert Render(CellValue(last)) == EncodeCell(last);
      assert Ascii(",") == [COMMA];
    }
  }

  lemma {:induction false} RowsAre(rows: seq<Row>)
    ensures RenderItems(RowValues(rows)) == JoinRows(rows)
  {
    hide JoinCells;
    hide RowValue;
    if rows != [] {
      var init, last := rows[..|rows| - 1], rows[|rows| - 1];
      RowsAre(init);
      RenderItemsSnoc(RowValues(init), RowValue(last));
      assert RowValues(rows) == RowValues(init) + [RowValue(last)];
      RowIs(last);
      assert Ascii(",") == [COMMA];
    }
  }

  lemma RowIs(row: Row)
    ensures Render(RowValue(row)) == EncodeRow(row)
  {
    hide JoinCells;
    CellsAre(row);
    assert Ascii("[") == [OPEN_LIST] && Ascii("]") == [CLOSE_LIST];
  }

  lemma {:induction false} ColumnsAre(columns: seq<Column>)
    ensures RenderItems(ColumnValues(columns)) == JoinColumns(columns)
  {
    hide ColumnValue;
    hide Quote;
    if columns != [] {
      var init, last := columns[..|columns| - 1], columns[|columns| - 1];
      ColumnsAre(init);
      RenderItemsSnoc(ColumnValues(init), ColumnValue(last));
      assert ColumnValues(columns) == ColumnValues(init) + [ColumnValue(last)];
      ColumnIs(last);
      Punctuation();
      hide Ascii;
      hide Render;
      Fivefold(JoinColumns(init) + if |columns| > 1 then Ascii(",") else [], Ascii("{\"name\":"), Quote(last.name),
               Ascii(",\"database_type\":"), Quote(last.databaseType), Ascii("}"));
    }
  }

  lemma Fivefold(head: Bytes, a: Bytes, b: Bytes, c: Bytes, d: Bytes, e: Bytes)
    ensures head + a + b + c + d + e == head + (a + b + c + d + e)
  {
  }

  lemma ColumnIs(column: Column)
    ensures Render(ColumnValue(column)) == Ascii("{\"name\":") + Quote(column.name) + Ascii(",\"database_type\":")
                                           + Quote(column.databaseType) + Ascii("}")
  {
    hide Ascii;
    hide RenderMembers;
    hide Quote;
    Punctuation();
    Keys();
    FirstMember("name", String(column.name));
    var t := Ascii("{\"name\":") + Render(String(column.name));
    NextMember(t, [Field("name", String(column.name))], "database_type", String(column.databaseType));
    assert ColumnValue(column).members
           == [Field("name", String(column.name))] + [Field("database_type", String(column.databaseType))];
  }

  lemma Keys()
    ensures "{" + "\"" + "name" + "\":" == "{\"name\":" && IsKey("name")
    ensures "," + "\"" + "database_type" + "\":" == ",\"database_type\":" && IsKey("database_type")
    ensures "{" + "\"" + "kind" + "\":" == "{\"kind\":" && IsKey("kind")
    ensures "," + "\"" + "source_id" + "\":" == ",\"source_id\":" && IsKey("source_id")
    ensures "," + "\"" + "columns" + "\":" == ",\"columns\":" && IsKey("columns")
    ensures "," + "\"" + "rows" + "\":" == ",\"rows\":" && IsKey("rows")
    ensures "," + "\"" + "row_count" + "\":" == ",\"row_count\":" && IsKey("row_count")
    ensures "," + "\"" + "truncated" + "\":" == ",\"truncated\":" && IsKey("truncated")
  {
  }

  /** The bytes that are counted are the JSON text of the result. */
  lemma EncodingIsJson(o: Output)
    ensures Encode(o) == Render(OutputValue(o))
  {
    hide Ascii;
    hide Quote;
    hide RenderMembers;
    hide ColumnValues;
    hide RowValues;
    hide EncodeColumns;
    hide EncodeRows;
    hide Decimal;
    ListsAre(o);
    Punctuation();
    Keys();
    var kind, sourceID := Field("kind", String(o.kind)), Field("source_id", String(o.sourceID));
    var columns, rows := Field("columns", List(ColumnValues(o.columns))), Field("rows", List(RowValues(o.rows)));
    var rowCount, truncated := Field("row_count", Number(o.rowCount)), Field("truncated", Bool(o.truncated));
    FirstMember("kind", kind.value);
    var t := Ascii("{\"kind\":") + Render(kind.value);
    var m := [kind];
    NextMember(t, m, "source_id", sourceID.value);
    t, m := t + Ascii(",\"source_id\":") + Render(sourceID.value), m + [sourceID];
    NextMember(t, m, "columns", columns.value);
    t, m := t + Ascii(",\"columns\":") + Render(columns.value), m + [columns];
    NextMember(t, m, "rows", rows.value);
    t, m := t + Ascii(",\"rows\":") + Render(rows.value), m + [rows];
    NextMember(t, m, "row_count", rowCount.value);
    t, m := t + Ascii(",\"row_count\":") + Render(rowCount.value), m + [rowCount];
    NextMember(t, m, "truncated", truncated.value);
    t, m := t + Ascii(",\"truncated\":") + Render(truncated.value), m + [truncated];
    assert m == OutputValue(o).members;
    assert Encode(o) == t + Ascii("}");
  }

  lemma ListsAre(o: Output)
    ensures Render(List(ColumnValues(o.columns))) == EncodeColumns(o.columns)
    ensures Render(List(RowValues(o.rows))) == EncodeRows(o.rows)
    ensures Render(Bool(o.truncated)) == EncodeBool(o.truncated) && Render(Number(o.rowCount)) == Decimal(o.rowCount)
    ensures Render(String(o.kind)) == Quote(o.kind) && Render(String(o.sourceID)) == Quote(o.sourceID)
  {
    hide JoinRows;
    hide JoinColumns;
    hide RenderItems;
    hide ColumnValues;
    hide RowValues;
    ColumnsAre(o.columns);
    RowsAre(o.rows);
    Punctuation();
  }

  // ---- Reading ----

  /** The result as it is read back: the bytes of its texts that are no UTF-8 were replaced. */
  function AsRead(o: Output): Output {
    Output(Sanitised(o.kind), Sanitised(o.sourceID),
           seq(|o.columns|, i requires 0 <= i < |o.columns| =>
             Column(Sanitised(o.columns[i].name), Sanitised(o.columns[i].databaseType))),
           seq(|o.rows|, i requires 0 <= i < |o.rows| => RowAsRead(o.rows[i])), o.rowCount, o.truncated)
  }

  function RowAsRead(row: Row): Row {
    seq(|row|, i requires 0 <= i < |row| => if row[i].Some? then Some(Sanitised(row[i].value)) else None)
  }

  lemma RowClean(row: Row)
    ensures Clean(RowValue(row)) == RowValue(RowAsRead(row))
  {
    CleanEach(RowValue(row).items, RowValue(RowAsRead(row)).items);
  }

  lemma ColumnClean(column: Column)
    ensures Clean(ColumnValue(column)) == ColumnValue(Column(Sanitised(column.name), Sanitised(column.databaseType)))
  {
    hide Ascii;
    hide Sanitised;
    KeyIsPlain("name");
    KeyIsPlain("database_type");
    var cleaned := Column(Sanitised(column.name), Sanitised(column.databaseType));
    MembersClean(ColumnValue(column).members, ColumnValue(cleaned).members);
  }

  lemma ListsClean(o: Output)
    ensures CleanItems(RowValues(o.rows)) == RowValues(AsRead(o).rows)
    ensures CleanItems(ColumnValues(o.columns)) == ColumnValues(AsRead(o).columns)
  {
    hide Clean;
    hide RowValue;
    hide ColumnValue;
    hide RowAsRead;
    forall i | 0 <= i < |o.rows| ensures Clean(RowValue(o.rows[i])) == RowValue(RowAsRead(o.rows[i])) {
      RowClean(o.rows[i]);
    }
    CleanEach(RowValues(o.rows), RowValues(AsRead(o).rows));
    forall i | 0 <= i < |o.columns|
      ensures Clean(ColumnValue(o.columns[i])) == ColumnValue(AsRead(o).columns[i])
    {
      ColumnClean(o.columns[i]);
    }
    CleanEach(ColumnValues(o.columns), ColumnValues(AsRead(o).columns));
  }

  lemma KeysAreText()
    ensures Sanitised(Ascii("kind")) == Ascii("kind") && Sanitised(Ascii("source_id")) == Ascii("source_id")
    ensures Sanitised(Ascii("columns")) == Ascii("columns") && Sanitised(Ascii("rows")) == Ascii("rows")
    ensures Sanitised(Ascii("row_count")) == Ascii("row_count") && Sanitised(Ascii("truncated")) == Ascii("truncated")
  {
    hide Ascii;
    hide Sanitised;
    hide IsKey;
    Keys();
    KeyIsPlain("kind");
    KeyIsPlain("source_id");
    KeyIsPlain("columns");
    KeyIsPlain("rows");
    KeyIsPlain("row_count");
    KeyIsPlain("truncated");
  }

  lemma OutputClean(o: Output)
    ensures Clean(OutputValue(o)) == OutputValue(AsRead(o))
  {
    hide Ascii;
    hide Sanitised;
    hide RowValues;
    hide ColumnValues;
    hide CleanItems;
    hide CleanMembers;
    ListsClean(o);
    KeysAreText();
    MembersClean(OutputValue(o).members, OutputValue(AsRead(o)).members);
  }

  /** A client that reads the encoding gets the fields of the result, with their names and values. */
  lemma ResultIsRead(o: Output, rest: Bytes)
    ensures Parse(Encode(o) + rest) == Some((OutputValue(AsRead(o)), rest))
  {
    hide *;
    EncodingIsJson(o);
    OutputClean(o);
    ObjectIsNoNumber(o);
    ParseRender(OutputValue(o), rest);
  }

  lemma ObjectIsNoNumber(o: Output)
    ensures !OutputValue(o).Number?
  {
  }
}
