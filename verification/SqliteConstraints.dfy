/** The SQLite adapter's foreign keys: consecutive rows of one id become one constraint. */
module SqliteConstraints {
  import opened Common
  import opened Text

  datatype Row = Row(
    id: int,
    position: int,
    table: Bytes,
    localColumn: Bytes,
    parentColumn: Option<Bytes>,
    onUpdate: Bytes,
    onDelete: Bytes,
    matching: Bytes)

  datatype ForeignKey = ForeignKey(
    columns: seq<Bytes>,
    table: Bytes,
    referencedColumns: seq<Bytes>,
    matchType: Bytes,
    updateAction: Bytes,
    deleteAction: Bytes)

  /** foreignKeyMatch and foreignKeyAction. */
  datatype Names = Names(matchOf: Bytes -> Option<Bytes>, actionOf: Bytes -> Option<Bytes>)

  // ---- What the loop is for ----

  /** Maximal runs of rows of one id. */
  function Runs(rows: seq<Row>): (runs: seq<seq<Row>>)
    ensures runs == [] <==> rows == []
    ensures forall i | 0 <= i < |runs| :: runs[i] != []
    ensures rows != [] ==> runs[|runs| - 1][0].id == rows[|rows| - 1].id
    ensures rows != [] ==> var run := runs[|runs| - 1]; run[|run| - 1] == rows[|rows| - 1]
    decreases |rows|
  {
    if rows == [] then []
    else
      var before, row := Runs(rows[..|rows| - 1]), rows[|rows| - 1];
      if before != [] && before[|before| - 1][0].id == row.id then
        before[..|before| - 1] + [before[|before| - 1] + [row]]
      else before + [[row]]
  }

  function Joined(runs: seq<seq<Row>>): seq<Row> {
    if runs == [] then [] else Joined(runs[..|runs| - 1]) + runs[|runs| - 1]
  }

  predicate SameId(run: seq<Row>) {
    forall i | 0 <= i < |run| :: run[i].id == run[0].id
  }

  /** The runs are the rows, cut where the id changes. */
  lemma {:induction false} RunsAreCuts(rows: seq<Row>)
    ensures Joined(Runs(rows)) == rows
    ensures forall i | 0 <= i < |Runs(rows)| :: SameId(Runs(rows)[i])
    ensures forall i, j | 0 <= i && j == i + 1 < |Runs(rows)| :: Runs(rows)[i][0].id != Runs(rows)[j][0].id
    decreases |rows|
  {
    hide Runs;
    hide SameId;
    hide Joined;
    if rows == [] {
      EmptyRuns();
    } else {
      var init, row := rows[..|rows| - 1], rows[|rows| - 1];
      assert rows == init + [row];
      RunsAreCuts(init);
      NextRun(init, row);
      CutsContinue(Runs(init), row, init);
    }
  }

  lemma CutsContinue(runs: seq<seq<Row>>, row: Row, rows: seq<Row>)
    requires Joined(runs) == rows && forall i | 0 <= i < |runs| :: runs[i] != [] && SameId(runs[i])
    ensures Joined(runs + [[row]]) == rows + [row]
    ensures runs != [] ==> Joined(runs[..|runs| - 1] + [runs[|runs| - 1] + [row]]) == rows + [row]
    ensures SameId([row])
    ensures runs != [] && runs[|runs| - 1][0].id == row.id ==> SameId(runs[|runs| - 1] + [row])
  {
    assert (runs + [[row]])[..|runs|] == runs;
    if runs != [] {
      var init, last := runs[..|runs| - 1], runs[|runs| - 1];
      assert (init + [last + [row]])[..|init|] == init;
      assert SameId(last);
    }
  }

  ghost predicate OrderedById(rows: seq<Row>) {
    forall i, j | 0 <= i < j < |rows| :: rows[i].id <= rows[j].id
  }

  /** In rows ordered by id there is one run for each id. */
  lemma {:induction false} OneRunPerId(rows: seq<Row>)
    requires OrderedById(rows)
    ensures forall i, j | 0 <= i < j < |Runs(rows)| :: Runs(rows)[i][0].id < Runs(rows)[j][0].id
    decreases |rows|
  {
    if |rows| > 1 {
      var init, row := rows[..|rows| - 1], rows[|rows| - 1];
      assert init[|init| - 1].id <= row.id;
      OneRunPerId(init);
    }
  }

  function LocalColumns(rows: seq<Row>): seq<Bytes> {
    if rows == [] then [] else LocalColumns(rows[..|rows| - 1]) + [rows[|rows| - 1].localColumn]
  }

  function ParentColumns(rows: seq<Row>): seq<Bytes> {
    if rows == [] then []
    else
      var last := rows[|rows| - 1].parentColumn;
      ParentColumns(rows[..|rows| - 1]) + if last.Some? then [last.value] else []
  }

  predicate ValidRow(row: Row, table: Bytes) {
    && row.id >= 0 && row.position >= 0 && row.localColumn != [] && table != []
    && row.parentColumn != Some([])
  }

  predicate Named(names: Names, row: Row) {
    names.matchOf(row.matching).Some? && names.actionOf(row.onUpdate).Some? && names.actionOf(row.onDelete).Some?
  }

  /** Rows that make a constraint: valid, in the order of their positions, the first with recognised names. */
  ghost predicate ValidRun(names: Names, run: seq<Row>)
    requires run != []
  {
    && (forall i | 0 <= i < |run| :: ValidRow(run[i], run[0].table))
    && (forall i, j | 0 <= i < j < |run| :: run[i].position < run[j].position)
    && Named(names, run[0])
  }

  function KeyOf(names: Names, run: seq<Row>): ForeignKey
    requires run != [] && Named(names, run[0])
  {
    ForeignKey(LocalColumns(run), run[0].table, ParentColumns(run), names.matchOf(run[0].matching).value,
               names.actionOf(run[0].onUpdate).value, names.actionOf(run[0].onDelete).value)
  }

  ghost predicate AllValid(names: Names, runs: seq<seq<Row>>) {
    forall i | 0 <= i < |runs| :: runs[i] != [] && ValidRun(names, runs[i])
  }

  /** One constraint for each run. */
  ghost predicate KeysOf(names: Names, runs: seq<seq<Row>>, keys: seq<ForeignKey>) {
    && |keys| == |runs|
    && AllValid(names, runs)
    && forall i | 0 <= i < |runs| :: keys[i] == KeyOf(names, runs[i])
  }

  // ---- The loop ----

  /** The loop's state after these rows: finished constraints, and the one in progress. */
  ghost predicate Progress(names: Names, rows: seq<Row>, keys: seq<ForeignKey>, current: Option<ForeignKey>,
                           currentID: int, previous: int)
  {
    var runs := Runs(rows);
    if current.None? then rows == [] && keys == []
    else
      && rows != []
      && KeysOf(names, runs, keys + [current.value])
      && currentID == rows[|rows| - 1].id && previous == rows[|rows| - 1].position
  }

  method ListForeignKeys(names: Names, rows: seq<Row>) returns (r: Result<seq<ForeignKey>, ()>)
    ensures r.Ok? <==> AllValid(names, Runs(rows))
    ensures r.Ok? ==> KeysOf(names, Runs(rows), r.value)
  {
    hide Runs;
    hide KeyOf;
    hide KeysOf;
    hide AllValid;
    hide Progress;
    var keys: seq<ForeignKey> := [];
    var current: Option<ForeignKey> := None;
    var currentID, previous := 0, 0;
    var i := 0;
    NoProgress(names);
    assert rows[..0] == [];
    while i < |rows|
      invariant 0 <= i <= |rows|
      invariant Progress(names, rows[..i], keys, current, currentID, previous)
    {
      var row := rows[i];
      assert rows[..i + 1] == rows[..i] + [row];
      NextRow(names, rows[..i], row, keys, current, currentID, previous);
      ghost var begins, continued := current.None? || row.id != currentID, current;
      ghost var parents := if row.parentColumn.Some? then [row.parentColumn.value] else [];
      Later(names, rows, i + 1);
      if row.id < 0 || row.position < 0 {
        return Err(());
      }
      if current.None? || row.id != currentID {
        if current.Some? {
          keys := keys + [current.value];
        }
        currentID, previous := row.id, -1;
        current := Some(ForeignKey([], row.table, [], [], [], []));
      }
      if row.position <= previous {
        return Err(());
      }
      previous := row.position;
      if row.localColumn == [] || current.value.table == [] {
        return Err(());
      }
      current := Some(current.value.(columns := current.value.columns + [row.localColumn]));
      if row.parentColumn.Some? {
        if row.parentColumn.value == [] {
          return Err(());
        }
        var referenced := current.value.referencedColumns + [row.parentColumn.value];
        current := Some(current.value.(referencedColumns := referenced));
      }
      if |current.value.columns| == 1 {
        var matchType := names.matchOf(row.matching);
        var update := names.actionOf(row.onUpdate);
        var delete := names.actionOf(row.onDelete);
        if matchType.None? || update.None? || delete.None? {
          return Err(());
        }
        current := Some(current.value.(matchType := matchType.value,
                                       updateAction := update.value,
                                       deleteAction := delete.value));
      }
      assert begins ==> current.value.columns == [row.localColumn] && current.value.referencedColumns == parents;
      assert !begins ==> current.value.referencedColumns == continued.value.referencedColumns + parents;
      i := i + 1;
    }
    assert rows[..i] == rows;
    Finished(names, rows, keys, current, currentID, previous);
    if current.Some? {
      keys := keys + [current.value];
    }
    return Ok(keys);
  }

  lemma NoProgress(names: Names)
    ensures Progress(names, [], [], None, 0, 0)
  {
  }

  lemma Finished(names: Names, rows: seq<Row>, keys: seq<ForeignKey>, current: Option<ForeignKey>,
                 currentID: int, previous: int)
    requires Progress(names, rows, keys, current, currentID, previous)
    ensures KeysOf(names, Runs(rows), if current.Some? then keys + [current.value] else keys)
    ensures AllValid(names, Runs(rows))
  {
  }

  /** What a row does to a valid state: it begins a constraint or continues the current one, or it is refused. */
  lemma NextRow(names: Names, rows: seq<Row>, row: Row, keys: seq<ForeignKey>, current: Option<ForeignKey>,
                currentID: int, previous: int)
    requires Progress(names, rows, keys, current, currentID, previous)
    ensures var begins := current.None? || row.id != currentID;
      var parents := if row.parentColumn.Some? then [row.parentColumn.value] else [];
      && (begins ==>
            if ValidRow(row, row.table) && Named(names, row) then
              Progress(names, rows + [row], if current.Some? then keys + [current.value] else keys,
                       Some(ForeignKey([row.localColumn], row.table, parents, names.matchOf(row.matching).value,
                                       names.actionOf(row.onUpdate).value, names.actionOf(row.onDelete).value)),
                       row.id, row.position)
            else !AllValid(names, Runs(rows + [row])))
      && (!begins ==>
            && |current.value.columns| > 0
            && if ValidRow(row, current.value.table) && row.position > previous then
                 Progress(names, rows + [row], keys,
                          Some(current.value.(columns := current.value.columns + [row.localColumn],
                                              referencedColumns := current.value.referencedColumns + parents)),
                          row.id, row.position)
               else !AllValid(names, Runs(rows + [row])))
  {
    hide Runs;
    hide KeyOf;
    hide ValidRun;
    hide LocalColumns;
    hide ParentColumns;
    var runs := Runs(rows);
    NextRun(rows, row);
    if current.None? {
      RunOfOne(names, row);
      EmptyRuns();
      if ValidRow(row, row.table) && Named(names, row) {
        KeysSnoc(names, [], [], [row]);
      } else {
        assert Runs(rows + [row])[0] == [row];
      }
    } else if row.id != currentID {
      RunOfOne(names, row);
      if ValidRow(row, row.table) && Named(names, row) {
        KeysSnoc(names, runs, keys + [current.value], [row]);
      } else {
        assert Runs(rows + [row])[|runs|] == [row];
      }
    } else {
      var before, run := runs[..|runs| - 1], runs[|runs| - 1];
      assert ValidRun(names, run);
      RunContinues(names, run, row);
      assert current.value == KeyOf(names, run);
      if ValidRow(row, run[0].table) && row.position > previous {
        assert KeysOf(names, before, keys);
        KeysSnoc(names, before, keys, run + [row]);
      } else {
        assert Runs(rows + [row])[|before|] == run + [row];
      }
    }
  }

  lemma EmptyRuns()
    ensures Runs([]) == [] && Joined([]) == []
  {
  }

  lemma NextRun(rows: seq<Row>, row: Row)
    ensures var runs := Runs(rows);
      Runs(rows + [row]) ==
        if runs != [] && runs[|runs| - 1][0].id == row.id then runs[..|runs| - 1] + [runs[|runs| - 1] + [row]]
        else runs + [[row]]
  {
    assert (rows + [row])[..|rows|] == rows;
  }

  lemma KeysSnoc(names: Names, runs: seq<seq<Row>>, keys: seq<ForeignKey>, run: seq<Row>)
    requires KeysOf(names, runs, keys) && run != [] && ValidRun(names, run)
    ensures KeysOf(names, runs + [run], keys + [KeyOf(names, run)])
  {
    hide KeyOf;
  }

  lemma RunOfOne(names: Names, row: Row)
    ensures ValidRun(names, [row]) <==> ValidRow(row, row.table) && Named(names, row)
    ensures LocalColumns([row]) == [row.localColumn]
    ensures ParentColumns([row]) == if row.parentColumn.Some? then [row.parentColumn.value] else []
    ensures Named(names, row) ==>
              KeyOf(names, [row]) ==
                ForeignKey([row.localColumn], row.table, ParentColumns([row]), names.matchOf(row.matching).value,
                           names.actionOf(row.onUpdate).value, names.actionOf(row.onDelete).value)
  {
    hide Named;
    var run := [row];
    assert run[..0] == [] && LocalColumns([]) == [] && ParentColumns([]) == [];
    assert run[0] == row;
  }

  lemma RunContinues(names: Names, run: seq<Row>, row: Row)
    requires run != [] && ValidRun(names, run)
    ensures ValidRun(names, run + [row]) <==>
            ValidRow(row, run[0].table) && row.position > run[|run| - 1].position
    ensures (run + [row])[0] == run[0] && Named(names, run[0]) && KeyOf(names, run).table == run[0].table
    ensures var key := KeyOf(names, run);
      && key.columns != []
      && KeyOf(names, run + [row]) == key.(
           columns := key.columns + [row.localColumn],
           referencedColumns := key.referencedColumns + if row.parentColumn.Some? then [row.parentColumn.value] else [])
  {
    hide Named;
    hide ValidRow;
    var more := run + [row];
    assert more[..|run|] == run;
    assert more[|run|] == row && more[|run| - 1] == run[|run| - 1];
    if ValidRow(row, run[0].table) && row.position > run[|run| - 1].position {
      forall i, j | 0 <= i < j < |more| ensures more[i].position < more[j].position {
        if j == |run| && i < |run| - 1 { assert run[i].position < run[|run| - 1].position; }
      }
    }
  }

  /** A prefix that is refused is enough. */
  lemma {:induction false} Later(names: Names, rows: seq<Row>, n: nat)
    requires n <= |rows|
    ensures !AllValid(names, Runs(rows[..n])) ==> !AllValid(names, Runs(rows))
    decreases |rows|
  {
    hide Runs;
    hide ValidRun;
    if n == |rows| {
      assert rows[..n] == rows;
    } else {
      var init, row := rows[..|rows| - 1], rows[|rows| - 1];
      assert rows == init + [row] && init[..n] == rows[..n];
      Later(names, init, n);
      NextRun(init, row);
      if AllValid(names, Runs(rows)) {
        ValidBefore(names, init, row);
      }
    }
  }

  lemma ValidBefore(names: Names, rows: seq<Row>, row: Row)
    requires AllValid(names, Runs(rows + [row]))
    ensures AllValid(names, Runs(rows))
  {
    hide Runs;
    hide ValidRun;
    var runs, more := Runs(rows), Runs(rows + [row]);
    NextRun(rows, row);
    forall i | 0 <= i < |runs| ensures ValidRun(names, runs[i]) {
      if more[i] != runs[i] {
        assert more[i] == runs[i] + [row];
        ShorterRun(names, runs[i], row);
      }
    }
  }

  lemma ShorterRun(names: Names, run: seq<Row>, row: Row)
    requires run != [] && ValidRun(names, run + [row])
    ensures ValidRun(names, run)
  {
    hide Named;
    hide ValidRow;
    var more := run + [row];
    assert forall i | 0 <= i < |run| :: run[i] == more[i];
  }

  // ---- Nothing lost ----

  function AllColumns(keys: seq<ForeignKey>): seq<Bytes> {
    if keys == [] then [] else AllColumns(keys[..|keys| - 1]) + keys[|keys| - 1].columns
  }

  lemma {:induction false} LocalColumnsJoin(a: seq<Row>, b: seq<Row>)
    ensures LocalColumns(a + b) == LocalColumns(a) + LocalColumns(b)
    decreases |b|
  {
    if b == [] {
      assert a + b == a;
    } else {
      assert (a + b)[..|a + b| - 1] == a + b[..|b| - 1];
      LocalColumnsJoin(a, b[..|b| - 1]);
    }
  }

  lemma {:induction false} KeysKeepColumns(names: Names, runs: seq<seq<Row>>, keys: seq<ForeignKey>)
    requires KeysOf(names, runs, keys)
    ensures AllColumns(keys) == LocalColumns(Joined(runs))
    decreases |runs|
  {
    hide ValidRun;
    if runs != [] {
      var last := |runs| - 1;
      KeysKeepColumns(names, runs[..last], keys[..last]);
      LocalColumnsJoin(Joined(runs[..last]), runs[last]);
      KeyColumns(names, runs[last]);
    }
  }

  lemma KeyColumns(names: Names, run: seq<Row>)
    requires run != [] && ValidRun(names, run)
    ensures Named(names, run[0]) && KeyOf(names, run).columns == LocalColumns(run)
  {
  }

  /** The constraints' columns, one after the other, are the rows' columns. */
  lemma NoColumnLost(names: Names, rows: seq<Row>, keys: seq<ForeignKey>)
    requires KeysOf(names, Runs(rows), keys)
    ensures AllColumns(keys) == LocalColumns(rows)
  {
    hide Runs;
    RunsAreCuts(rows);
    KeysKeepColumns(names, Runs(rows), keys);
  }
}
