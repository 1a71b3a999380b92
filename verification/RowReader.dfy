/** The row readers of the three adapters: exact byte accounting, and early rejections that lose nothing. */
module RowReader {
  import opened Common
  import opened Text
  import opened Json
  import opened QueryResult

  datatype ReadError = ResultTooLarge | Internal

  // ---- What a reader promises ----

  /** The rows a reader keeps: all of them, or the first `rowLimit` when truncation is on. */
  function Kept<T>(stream: seq<T>, truncate: bool, rowLimit: int64): seq<T>
    requires truncate ==> rowLimit > 0
  {
    if truncate && |stream| > rowLimit as int then stream[..rowLimit as int] else stream
  }

  /** The output a reader returns for the rows it keeps. */
  function Delivered(o: Output, kept: seq<Row>, available: nat): Output {
    o.(rows := kept, rowCount := |kept|, truncated := available > |kept|)
  }

  /** All rows or, with truncation, the first of them: counted, and marked exactly when one was left. */
  ghost predicate IsDelivered(out: Output, o: Output, available: nat, truncate: bool, rowLimit: int64) {
    && out == o.(rows := out.rows, rowCount := |out.rows|, truncated := |out.rows| < available)
    && |out.rows| == if truncate && rowLimit as int < available then rowLimit as int else available
  }

  /** What is returned never encodes to more than what was accounted for. */
  lemma DeliveredFits(o: Output, kept: seq<Row>, available: nat, limit: int64)
    requires Fitting(o, kept, limit)
    ensures |Encode(Delivered(o, kept, available))| <= limit as int
    ensures available == |kept| ==> Delivered(o, kept, available) == With(o, kept)
  {
    EncodeSize(With(o, kept));
    EncodeSize(Delivered(o, kept, available));
  }

  /** json.Marshal produces slices, whose lengths are ints. */
  ghost predicate Marshalable(row: Row) {
    forall i | 0 <= i < |row| :: |EncodeCell(row[i])| <= MAX_INT
  }

  lemma CellsPrefixFit(row: Row, i: nat, used: int, limit: int)
    requires i < |row|
    requires used == 1 + |JoinCells(row[..i])| + 1 <= limit
    requires used + (if i > 0 then 1 else 0) + |EncodeCell(row[i])| > limit
    ensures |EncodeRow(row)| > limit
  {
    hide JoinCells;
    hide EncodeCell;
    var next := row[..i] + [row[i]];
    assert next == row[..i + 1];
    JoinCellsSnoc(row[..i], row[i]);
    CellsGrow(row, i + 1);
    assert |JoinCells(next)| <= |JoinCells(row)|;
  }

  lemma EmptyCells()
    ensures JoinCells([]) == []
  {
  }

  /** encodedRowSize, and with `guarded` encodedRawRowSize: the size of the row's encoding, when it fits. */
  method EncodedRowSize(row: Row, limit: int64, guarded: bool) returns (size: int64, fits: bool)
    requires Marshalable(row)
    ensures fits <==> |EncodeRow(row)| <= limit as int
    ensures fits ==> size as int == |EncodeRow(row)|
  {
    hide Escape;
    hide JoinCells;
    assert JoinCells(row[..0]) == [] by { assert row[..0] == []; EmptyCells(); }
    var remaining := limit;
    if 2 > remaining {
      return 0, false;
    }
    remaining := remaining - 2;
    var i := 0;
    while i < |row|
      invariant 0 <= i <= |row|
      invariant 0 <= remaining <= limit
      invariant (limit - remaining) as int == 2 + |JoinCells(row[..i])|
    {
      JoinCellsSnoc(row[..i], row[i]);
      assert row[..i + 1] == row[..i] + [row[i]];
      if i > 0 {
        if 1 > remaining {
          CellsPrefixFit(row, i, (limit - remaining) as int, limit as int);
          return 0, false;
        }
        remaining := remaining - 1;
      }
      if row[i].None? {
        if 4 > remaining {
          CellsPrefixFit(row, i, (limit - remaining) as int - (if i > 0 then 1 else 0), limit as int);
          return 0, false;
        }
        remaining := remaining - 4;
      } else {
        EscapeAtLeast(row[i].value);
        if guarded && (remaining < 2 || |row[i].value| > (remaining - 2) as int) {
          CellsPrefixFit(row, i, (limit - remaining) as int - (if i > 0 then 1 else 0), limit as int);
          return 0, false;
        }
        assert |EncodeCell(row[i])| <= MAX_INT;
        var encoded := |Quote(row[i].value)| as int64;
        if encoded > remaining {
          CellsPrefixFit(row, i, (limit - remaining) as int - (if i > 0 then 1 else 0), limit as int);
          return 0, false;
        }
        remaining := remaining - encoded;
      }
      i := i + 1;
    }
    assert row[..i] == row;
    return limit - remaining, true;
  }

  /** newQueryResultBudget: the budget of an empty result, if that already fits. */
  method NewBudget(o: Output, limit: int64) returns (budget: Budget, ok: bool)
    requires FixedSize(o) <= MAX_INT
    ensures fresh(budget) && budget.limit == limit
    ensures ok <==> Fitting(o, [], limit)
    ensures ok ==> budget.Accounts(o, [])
  {
    budget := new Budget(o, limit);
    EncodeSize(With(o, []));
    SumOfFour(budget.fixedSize, budget.rowsSize, 1, 5);
    ok := budget.Fits([budget.fixedSize, budget.rowsSize, 1, 5]);
  }

  lemma SumOfFour(a: int64, b: int64, c: int64, d: int64)
    ensures Sum([a, b, c, d]) == a as int + b as int + c as int + d as int
  {
    assert [a, b][..1] == [a] && Sum([a]) == a as int;
    assert [a, b, c][..2] == [a, b] && Sum([a, b]) == a as int + b as int;
    assert [a, b, c, d][..3] == [a, b, c] && Sum([a, b, c]) == a as int + b as int + c as int;
  }

  lemma PrefixTooLarge(o: Output, kept: seq<Row>, k: nat, limit: int64)
    requires k <= |kept| && !Fitting(o, kept[..k], limit)
    ensures !Fitting(o, kept, limit)
  {
    OutputGrows(o, kept, k);
  }

  lemma OversizedRow(o: Output, rows: seq<Row>, row: Row, limit: int64)
    requires |EncodeRow(row)| > limit as int
    ensures !Fitting(o, rows + [row], limit)
  {
    EncodeSize(With(o, rows + [row]));
    JoinRowsSnoc(rows, row);
  }

  /** The last two checks on a row; a row that passes is counted in. */
  method Retain(budget: Budget, rowSize: int64, rowFits: bool, ghost o: Output, ghost rows: seq<Row>, ghost row: Row)
    returns (retained: bool)
    requires budget.Accounts(o, rows)
    requires rowFits <==> |EncodeRow(row)| <= budget.limit as int
    requires rowFits ==> rowSize as int == |EncodeRow(row)|
    modifies budget
    ensures retained <==> Fitting(o, rows + [row], budget.limit)
    ensures retained ==> budget.Accounts(o, rows + [row])
    ensures budget.limit == old(budget.limit)
  {
    if !rowFits {
      OversizedRow(o, rows, row, budget.limit);
      return false;
    }
    retained := budget.FitsAdditionalRow(rowSize, o, rows, row);
    if retained {
      budget.RetainRow(rowSize, o, rows, row);
    }
  }

  // ---- PostgreSQL: rows of raw text values ----

  ghost predicate Arity(o: Output, rows: seq<Row>) {
    forall i | 0 <= i < |rows| :: |rows[i]| == |o.columns|
  }

  /**
   readRows of the PostgreSQL adapter. It succeeds exactly when every kept row has one value per column
   and the encoding of the kept rows fits; then it delivers exactly those rows.
   */
  method ReadRawRows(o: Output, stream: seq<Row>, limit: int64, truncate: bool, rowLimit: int64)
    returns (r: Result<Output, ReadError>)
    requires FixedSize(o) <= MAX_INT && (truncate ==> rowLimit > 0)
    requires forall i | 0 <= i < |stream| :: Marshalable(stream[i])
    ensures var kept := Kept(stream, truncate, rowLimit);
      && (r.Ok? <==> Arity(o, kept) && Fitting(o, kept, limit))
      && (r.Ok? ==> r.value == Delivered(o, kept, |stream|))
      && (r.Ok? ==> IsDelivered(r.value, o, |stream|, truncate, rowLimit))
      && (r.Ok? ==> r.value.rows <= stream)
      && (r == Err(ResultTooLarge) ==> !Fitting(o, kept, limit))
      && (r == Err(Internal) ==> !Arity(o, kept))
  {
    hide Fitting;
    hide FixedSize;
    hide EncodeRows;
    hide EncodeRow;
    ghost var kept := Kept(stream, truncate, rowLimit);
    var budget, ok := NewBudget(o, limit);
    if !ok {
      PrefixTooLarge(o, kept, 0, limit);
      return Err(ResultTooLarge);
    }
    var rows := [];
    var truncated := false;
    var i := 0;
    while i < |stream|
      invariant 0 <= i <= |kept|
      invariant rows == kept[..i] && Arity(o, rows)
      invariant fresh(budget) && budget.Accounts(o, rows) && budget.limit == limit
      invariant !truncated
    {
      if truncate && |rows| == rowLimit as int {
        truncated := true;
        break;
      }
      var row := stream[i];
      assert kept[i] == row;
      if |row| != |o.columns| {
        return Err(Internal);
      }
      var rowSize, rowFits := EncodedRowSize(row, limit, true);
      var retained := Retain(budget, rowSize, rowFits, o, rows, row);
      assert kept[..i + 1] == rows + [row];
      if !retained {
        PrefixTooLarge(o, kept, i + 1, limit);
        return Err(ResultTooLarge);
      }
      rows := rows + [row];
      i := i + 1;
    }
    assert rows == kept;
    return Ok(o.(rows := rows, rowCount := |rows|, truncated := truncated));
  }

  // ---- SQLite and MySQL: rows of typed values ----

  /**
   A driver value. Numbers other than integers, booleans and times arrive as the text the runtime's
   formatters give them; `Text` is a SQLite text or a non-binary MySQL value, `Blob` a binary one.
   */
  datatype Value = Null | Integer(n: int) | Formatted(text: Bytes) | Text(raw: Bytes) | Blob(raw: Bytes) | Unknown

  function UpperHex(d: nat): byte
    requires d < 16
  {
    if d < 10 then 48 + d else 55 + d
  }

  function HexPairs(raw: Bytes): (h: Bytes)
    ensures |h| == 2 * |raw|
  {
    if raw == [] then []
    else
      var last := raw[|raw| - 1];
      HexPairs(raw[..|raw| - 1]) + [UpperHex(last / 16), UpperHex(last % 16)]
  }

  /** X'...', the literal of a binary value. */
  function BlobText(raw: Bytes): (t: Bytes)
    ensures |t| == 3 + 2 * |raw|
  {
    Ascii("X'") + HexPairs(raw) + Ascii("'")
  }

  lemma HexPairsSnoc(raw: Bytes, i: nat)
    requires i <= |raw|
    ensures HexPairs([]) == []
    ensures i < |raw| ==> HexPairs(raw[..i + 1]) == HexPairs(raw[..i]) + [UpperHex(raw[i] / 16), UpperHex(raw[i] % 16)]
  {
    if i < |raw| {
      assert raw[..i + 1][..i] == raw[..i];
    }
  }

  lemma HexPairsAt(raw: Bytes, i: nat)
    requires i < |raw|
    ensures HexPairs(raw)[2 * i] == UpperHex(raw[i] / 16) && HexPairs(raw)[2 * i + 1] == UpperHex(raw[i] % 16)
    decreases |raw|
  {
    if i < |raw| - 1 {
      HexPairsAt(raw[..|raw| - 1], i);
    }
  }

  /** A literal determines its value. */
  lemma BlobTextInjective(a: Bytes, b: Bytes)
    requires BlobText(a) == BlobText(b)
    ensures a == b
  {
    assert HexPairs(a) == BlobText(a)[2..|BlobText(a)| - 1] == BlobText(b)[2..|BlobText(b)| - 1] == HexPairs(b);
    forall i | 0 <= i < |a| ensures a[i] == b[i] {
      HexPairsAt(a, i);
      HexPairsAt(b, i);
      assert a[i] == a[i] / 16 * 16 + a[i] % 16 && b[i] == b[i] / 16 * 16 + b[i] % 16;
    }
  }

  /** blobLiteral and mysqlBinaryLiteral: the literal, filled into a buffer of its exact length. */
  method BlobLiteral(raw: Bytes) returns (text: Bytes)
    ensures text == BlobText(raw)
  {
    hide UpperHex;
    hide HexPairs;
    HexPairsSnoc(raw, 0);
    var encoded := new byte[3 + 2 * |raw|];
    encoded[0] := 88;
    encoded[1] := 39;
    var i := 0;
    while i < |raw|
      invariant 0 <= i <= |raw|
      invariant encoded[..2 + 2 * i] == Ascii("X'") + HexPairs(raw[..i])
    {
      encoded[2 + 2 * i] := UpperHex(raw[i] / 16);
      encoded[3 + 2 * i] := UpperHex(raw[i] % 16);
      HexPairsSnoc(raw, i);
      assert encoded[..2 + 2 * (i + 1)] == encoded[..2 + 2 * i] + [encoded[2 + 2 * i], encoded[3 + 2 * i]];
      i := i + 1;
    }
    encoded[encoded.Length - 1] := 39;
    assert raw[..i] == raw;
    assert encoded[..] == encoded[..2 + 2 * i] + [encoded[2 + 2 * i]];
    return encoded[..];
  }

  function CellOf(v: Value): Cell {
    match v
    case Integer(n) => Some(FormatInt(n))
    case Formatted(text) => Some(text)
    case Text(raw) => Some(raw)
    case Blob(raw) => Some(BlobText(raw))
    case _ => None
  }

  /** The value of an upper-case hexadecimal digit. */
  function UpperHexValue(b: byte): Option<nat> {
    if 48 <= b <= 57 then Some(b - 48) else if 65 <= b <= 70 then Some(b - 55) else None
  }

  /** The bytes that pairs of such digits write. */
  function ReadHexPairs(h: Bytes): Option<Bytes> {
    if h == [] then Some([])
    else if |h| == 1 then None
    else
      match (ReadHexPairs(h[..|h| - 2]), UpperHexValue(h[|h| - 2]), UpperHexValue(h[|h| - 1]))
      case (Some(front), Some(high), Some(low)) =>
        if 16 * high + low < 256 then Some(front + [16 * high + low]) else None
      case _ => None
  }

  /** The bytes of a literal X'...'. */
  function ReadBlob(t: Bytes): Option<Bytes> {
    if |t| >= 3 && t[0] == 88 && t[1] == 39 && t[|t| - 1] == 39 then ReadHexPairs(t[2..|t| - 1]) else None
  }

  lemma HexDigitIsRead(d: nat)
    requires d < 16
    ensures UpperHexValue(UpperHex(d)) == Some(d)
  {
  }

  lemma {:induction false} HexPairsAreRead(raw: Bytes)
    ensures ReadHexPairs(HexPairs(raw)) == Some(raw)
    decreases |raw|
  {
    hide UpperHex;
    hide UpperHexValue;
    if raw != [] {
      var front, last := raw[..|raw| - 1], raw[|raw| - 1];
      HexPairsAreRead(front);
      HexDigitIsRead(last / 16);
      HexDigitIsRead(last % 16);
      assert HexPairs(raw)[..|HexPairs(raw)| - 2] == HexPairs(front);
      assert raw == front + [last];
    }
  }

  /** The literal of any bytes is read as them. */
  lemma BlobIsRead(raw: Bytes)
    ensures ReadBlob(BlobText(raw)) == Some(raw)
  {
    hide HexPairs;
    hide ReadHexPairs;
    HexPairsAreRead(raw);
    var t := BlobText(raw);
    assert t[2..|t| - 1] == HexPairs(raw);
  }

  /** The cell says what the value is: nothing for NULL, and otherwise a text that can be read as the value. */
  predicate Says(cell: Cell, v: Value) {
    match v
    case Null => cell.None?
    case Integer(n) => cell.Some? && IntValue(cell.value) == Some(n)
    case Formatted(text) => cell == Some(text)
    case Text(raw) => cell == Some(raw)
    case Blob(raw) => cell.Some? && ReadBlob(cell.value) == Some(raw)
    case Unknown => false
  }

  /** The rows say what the first rows of the stream hold, value by value. */
  ghost predicate Transcribe(rows: seq<Row>, stream: seq<seq<Value>>) {
    && |rows| <= |stream|
    && forall i | 0 <= i < |rows| ::
         |rows[i]| == |stream[i]| && forall j | 0 <= j < |rows[i]| :: Says(rows[i][j], stream[i][j])
  }

  lemma CellSays(v: Value)
    requires !v.Unknown?
    ensures Says(CellOf(v), v)
  {
    hide ReadBlob;
    hide BlobText;
    match v
    case Integer(n) => FormatIntIsRead(n, FormatInt(n));
    case Blob(raw) => BlobIsRead(raw);
    case _ =>
  }

  lemma RowsTranscribe(kept: seq<seq<Value>>, stream: seq<seq<Value>>)
    requires kept <= stream && AllSupported(kept)
    ensures Transcribe(RowsOf(kept), stream)
  {
    hide Says;
    hide CellOf;
    forall i, j | 0 <= i < |kept| && 0 <= j < |kept[i]| ensures Says(RowsOf(kept)[i][j], stream[i][j]) {
      assert Supported(kept[i]);
      CellSays(kept[i][j]);
    }
  }

  function RowOf(values: seq<Value>): (row: Row)
    ensures |row| == |values|
    ensures forall i | 0 <= i < |values| :: row[i] == CellOf(values[i])
  {
    seq(|values|, i requires 0 <= i < |values| => CellOf(values[i]))
  }

  function RowsOf(rows: seq<seq<Value>>): (texts: seq<Row>)
    ensures |texts| == |rows|
    ensures forall i | 0 <= i < |rows| :: texts[i] == RowOf(rows[i])
  {
    seq(|rows|, i requires 0 <= i < |rows| => RowOf(rows[i]))
  }

  ghost predicate Supported(values: seq<Value>) {
    forall i | 0 <= i < |values| :: !values[i].Unknown?
  }

  ghost predicate AllSupported(rows: seq<seq<Value>>) {
    forall i | 0 <= i < |rows| :: Supported(rows[i])
  }

  /** The guards reject a value only when its encoding alone exceeds the limit. */
  lemma GuardsLoseNothing(v: Value, limit: int64)
    requires v.Text? ==> |v.raw| > limit as int
    requires v.Blob? ==> limit < 3 || |v.raw| > ((limit - 3) / 2) as int
    requires v.Text? || v.Blob?
    ensures |EncodeCell(CellOf(v))| > limit as int
  {
    EscapeAtLeast(CellOf(v).value);
  }

  lemma CellWithinRow(row: Row, i: nat)
    requires i < |row|
    ensures |EncodeCell(row[i])| < |EncodeRow(row)|
  {
    assert row[..i + 1] == row[..i] + [row[i]];
    JoinCellsSnoc(row[..i], row[i]);
    CellsGrow(row, i + 1);
  }

  /** cellValue and the MySQL conversion, for one row: guarded, then rendered. */
  method ReadRow(values: seq<Value>, limit: int64) returns (r: Result<Row, ReadError>)
    ensures r.Ok? ==> Supported(values) && r.value == RowOf(values) && Transcribe([r.value], [values])
    ensures r == Err(Internal) ==> !Supported(values)
    ensures r == Err(ResultTooLarge) ==> |EncodeRow(RowOf(values))| > limit as int
  {
    var row: Row := [];
    var i := 0;
    while i < |values|
      invariant 0 <= i <= |values|
      invariant row == RowOf(values)[..i]
      invariant Supported(values[..i])
      decreases |values| - i
    {
      var v := values[i];
      if (v.Text? && |v.raw| > limit as int) || (v.Blob? && (limit < 3 || |v.raw| > ((limit - 3) / 2) as int)) {
        GuardsLoseNothing(v, limit);
        CellWithinRow(RowOf(values), i);
        return Err(ResultTooLarge);
      }
      var cell: Cell := None;
      match v {
        case Null =>
        case Integer(n) => cell := Some(FormatInt(n));
        case Formatted(text) => cell := Some(text);
        case Text(raw) => cell := Some(raw);
        case Blob(raw) =>
          var text := BlobLiteral(raw);
          cell := Some(text);
        case Unknown => return Err(Internal);
      }
      row := row + [cell];
      i := i + 1;
    }
    assert values[..i] == values;
    RowsTranscribe([values], [values]);
    return Ok(row);
  }

  /**
   readRows of the SQLite adapter and the row loop of the MySQL one. They succeed exactly when every
   kept value has a known type and the encoding of the kept rows fits; then they deliver exactly those.
   */
  method ReadTypedRows(o: Output, stream: seq<seq<Value>>, limit: int64, truncate: bool, rowLimit: int64)
    returns (r: Result<Output, ReadError>)
    requires FixedSize(o) <= MAX_INT && (truncate ==> rowLimit > 0)
    requires forall i | 0 <= i < |stream| :: Marshalable(RowOf(stream[i]))
    ensures var kept := Kept(stream, truncate, rowLimit);
      && (r.Ok? <==> AllSupported(kept) && Fitting(o, RowsOf(kept), limit))
      && (r.Ok? ==> r.value == Delivered(o, RowsOf(kept), |stream|))
      && (r.Ok? ==> IsDelivered(r.value, o, |stream|, truncate, rowLimit))
      && (r.Ok? ==> Transcribe(r.value.rows, stream))
      && (r == Err(ResultTooLarge) ==> !Fitting(o, RowsOf(kept), limit))
      && (r == Err(Internal) ==> !AllSupported(kept))
  {
    hide Fitting;
    hide FixedSize;
    hide EncodeRows;
    hide EncodeRow;
    hide BlobText;
    hide RowOf;
    hide Marshalable;
    hide Supported;
    ghost var kept := Kept(stream, truncate, rowLimit);
    ghost var texts := RowsOf(kept);
    var budget, ok := NewBudget(o, limit);
    if !ok {
      PrefixTooLarge(o, texts, 0, limit);
      return Err(ResultTooLarge);
    }
    var rows := [];
    var truncated := false;
    var i := 0;
    while i < |stream|
      invariant 0 <= i <= |kept|
      invariant rows == texts[..i] && AllSupported(kept[..i])
      invariant fresh(budget) && budget.Accounts(o, rows) && budget.limit == limit
      invariant !truncated
      decreases |stream| - i
    {
      if truncate && |rows| == rowLimit as int {
        truncated := true;
        break;
      }
      assert kept[i] == stream[i] && texts[i] == RowOf(stream[i]);
      assert texts[..i + 1] == rows + [texts[i]];
      var read := ReadRow(stream[i], limit);
      if read.Err? {
        if read.error.ResultTooLarge? {
          OversizedRow(o, rows, texts[i], limit);
          PrefixTooLarge(o, texts, i + 1, limit);
        }
        return Err(read.error);
      }
      var rowSize, rowFits := EncodedRowSize(read.value, limit, false);
      var retained := Retain(budget, rowSize, rowFits, o, rows, read.value);
      if !retained {
        PrefixTooLarge(o, texts, i + 1, limit);
        return Err(ResultTooLarge);
      }
      rows := rows + [read.value];
      i := i + 1;
    }
    assert kept[..i] == kept && rows == texts;
    RowsTranscribe(kept, stream);
    return Ok(o.(rows := rows, rowCount := |rows|, truncated := truncated));
  }
}
