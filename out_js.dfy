/** The exporter r.out.js: it reads a direction raster and a speed raster cell
    by cell, renders each cell as a vector `[dx,dy,m]`, transposes the grid of
    vectors into column-major order and emits the text `columns = [...]`.

    Grids are sequences of rows. The floating-point work on a cell (cos and sin
    of the direction in radians, times the speed, and Python's `str()` of the
    results) is not modelled: a `Formatter` stands for it. */
module OutJs {
  import opened Results
  import opened Text

  /** The decimal texts of one cell's vector: `dx` and `dy` from the direction
      and speed cells, `m` from the speed cell alone. */
  datatype Formatter<-D, -S> = Formatter(dx: (D, S) -> string, dy: (D, S) -> string, m: S -> string)

  /** The IndexError the script stops with, and where it is raised. */
  datatype Failure =
    | SpeedRowMissing(row: nat)             // `speed[i]`: the speed grid has no row i
    | SpeedCellMissing(row: nat, col: nat)  // `speed_row[j]`: speed row i has no cell j
    | NoRows                                // `rows[0]`: the direction grid has no rows
    | ShortRow(row: nat, col: nat)          // `row[i]` in the transpose: that row has no cell i

  /** The vector text of one cell: `'[' + ','.join([str(dx), str(dy), str(m)]) + ']'`. */
  function CellText<D, S>(f: Formatter<D, S>, d: D, s: S): string
  {
    "[" + Join(",", [f.dx(d, s), f.dy(d, s), f.m(s)]) + "]"
  }

  lemma CellTextParts<D, S>(f: Formatter<D, S>, d: D, s: S)
    ensures CellText(f, d, s) == "[" + f.dx(d, s) + "," + f.dy(d, s) + "," + f.m(s) + "]"
  {
    var parts := [f.dx(d, s), f.dy(d, s), f.m(s)];
    assert parts[1..][1..] == [f.m(s)];
    assert Join(",", parts[1..]) == f.dy(d, s) + "," + f.m(s);
  }

  // ---------------------------------------------------------------------------
  // Reading the grids into rows of vector texts

  /** The error that direction row `i` raises, if any: first `speed[i]`, then
      `speed_row[j]` for the first `j` past the end of that speed row. */
  function RowFault<D, S>(direction: seq<seq<D>>, speed: seq<seq<S>>, i: nat): Option<Failure>
    requires i < |direction|
  {
    if i >= |speed| then Some(SpeedRowMissing(i))
    else if |speed[i]| < |direction[i]| then Some(SpeedCellMissing(i, |speed[i]|))
    else None
  }

  /** The speed grid has a cell at every position of the direction grid. */
  ghost predicate SpeedCovers<D, S>(direction: seq<seq<D>>, speed: seq<seq<S>>)
  {
    forall i :: 0 <= i < |direction| ==> RowFault(direction, speed, i) == None
  }

  /** The vector texts of one direction row, read against its speed row. */
  function RowVectors<D, S>(f: Formatter<D, S>, dirRow: seq<D>, speedRow: seq<S>): seq<string>
    requires |dirRow| <= |speedRow|
  {
    seq(|dirRow|, j requires 0 <= j < |dirRow| => CellText(f, dirRow[j], speedRow[j]))
  }

  /** What the row loop has produced after the first `n` direction rows. */
  function RowsUpTo<D, S>(f: Formatter<D, S>, direction: seq<seq<D>>, speed: seq<seq<S>>, n: nat)
    : Result<seq<seq<string>>, Failure>
    requires n <= |direction|
  {
    if n == 0 then Ok([])
    else
      match RowsUpTo(f, direction, speed, n - 1)
      case Err(e) => Err(e)
      case Ok(rows) =>
        match RowFault(direction, speed, n - 1)
        case Some(e) => Err(e)
        case None => Ok(rows + [RowVectors(f, direction[n - 1], speed[n - 1])])
  }

  /** The list `rows` of the script, or the error that stops it. */
  function Rows<D, S>(f: Formatter<D, S>, direction: seq<seq<D>>, speed: seq<seq<S>>)
    : Result<seq<seq<string>>, Failure>
  {
    RowsUpTo(f, direction, speed, |direction|)
  }

  /** Once the row loop has stopped with an error, later rows change nothing. */
  lemma {:induction false} RowsErrorPersists<D, S>(
    f: Formatter<D, S>, direction: seq<seq<D>>, speed: seq<seq<S>>, n: nat, m: nat)
    requires n <= m <= |direction|
    requires RowsUpTo(f, direction, speed, n).Err?
    ensures RowsUpTo(f, direction, speed, m) == RowsUpTo(f, direction, speed, n)
    decreases m
  {
    if m > n {
      RowsErrorPersists(f, direction, speed, n, m - 1);
    }
  }

  /** The row loop over the first `n` rows succeeds exactly when none of them
      faults; it then holds one vector list per row, one vector per cell, in
      order; otherwise it stops with the fault of the first faulty row. */
  lemma {:induction false} RowsUpToMeaning<D, S>(
    f: Formatter<D, S>, direction: seq<seq<D>>, speed: seq<seq<S>>, n: nat)
    requires n <= |direction|
    ensures RowsUpTo(f, direction, speed, n).Ok? <==>
      forall i :: 0 <= i < n ==> RowFault(direction, speed, i) == None
    ensures RowsUpTo(f, direction, speed, n).Ok? ==>
      var rows := RowsUpTo(f, direction, speed, n).value;
      |rows| == n &&
      forall i :: 0 <= i < n ==>
        i < |speed| && |direction[i]| <= |speed[i]| &&
        rows[i] == RowVectors(f, direction[i], speed[i])
    ensures RowsUpTo(f, direction, speed, n).Err? ==>
      exists i :: 0 <= i < n &&
                  RowFault(direction, speed, i) == Some(RowsUpTo(f, direction, speed, n).error) &&
                  forall i' :: 0 <= i' < i ==> RowFault(direction, speed, i') == None
    decreases n
  {
    if n > 0 {
      RowsUpToMeaning(f, direction, speed, n - 1);
      var prev := RowsUpTo(f, direction, speed, n - 1);
      if prev.Ok? && RowFault(direction, speed, n - 1).Some? {
        assert RowFault(direction, speed, n - 1) == Some(RowsUpTo(f, direction, speed, n).error);
      }
    }
  }

  /** The rows are built exactly when the speed grid covers the direction grid. */
  lemma RowsSucceed<D, S>(f: Formatter<D, S>, direction: seq<seq<D>>, speed: seq<seq<S>>)
    ensures Rows(f, direction, speed).Ok? <==> SpeedCovers(direction, speed)
  {
    RowsUpToMeaning(f, direction, speed, |direction|);
  }

  /** `rows` has one entry per direction row and `rows[i]` one vector per cell
      of direction row `i`; its `j`-th vector is built from `direction[i][j]`
      and the speed cell at the same position. */
  lemma RowsContent<D, S>(f: Formatter<D, S>, direction: seq<seq<D>>, speed: seq<seq<S>>)
    requires Rows(f, direction, speed).Ok?
    ensures var rows := Rows(f, direction, speed).value;
      |rows| == |direction| &&
      forall i :: 0 <= i < |direction| ==>
        |rows[i]| == |direction[i]| &&
        forall j :: 0 <= j < |direction[i]| ==>
          j < |speed[i]| && rows[i][j] == CellText(f, direction[i][j], speed[i][j])
  {
    RowsUpToMeaning(f, direction, speed, |direction|);
  }

  /** A failing read stops at the first direction row whose speed row is
      missing or too short; every earlier row was read completely. */
  lemma RowsFirstFault<D, S>(f: Formatter<D, S>, direction: seq<seq<D>>, speed: seq<seq<S>>)
    requires Rows(f, direction, speed).Err?
    ensures exists i :: 0 <= i < |direction| &&
                        RowFault(direction, speed, i) == Some(Rows(f, direction, speed).error) &&
                        forall i' :: 0 <= i' < i ==> RowFault(direction, speed, i') == None
  {
    RowsUpToMeaning(f, direction, speed, |direction|);
  }

  /** Speed rows and cells outside the direction grid's extent are never read:
      replacing them, or adding more, does not change the rows. */
  lemma SpeedBeyondExtentUnread<D, S>(
    f: Formatter<D, S>, direction: seq<seq<D>>, speed: seq<seq<S>>, speed': seq<seq<S>>)
    requires |direction| <= |speed| && |direction| <= |speed'|
    requires forall i :: 0 <= i < |direction| ==>
      |direction[i]| <= |speed[i]| && |direction[i]| <= |speed'[i]| &&
      forall j :: 0 <= j < |direction[i]| ==> speed'[i][j] == speed[i][j]
    ensures Rows(f, direction, speed').Ok?
    ensures Rows(f, direction, speed') == Rows(f, direction, speed)
  {
    RowsUpToMeaning(f, direction, speed, |direction|);
    RowsUpToMeaning(f, direction, speed', |direction|);
    assert forall i :: 0 <= i < |direction| ==> RowFault(direction, speed, i) == None;
    assert forall i :: 0 <= i < |direction| ==> RowFault(direction, speed', i) == None;
    var rows, rows' := Rows(f, direction, speed).value, Rows(f, direction, speed').value;
    forall i | 0 <= i < |direction|
      ensures rows'[i] == rows[i]
    {
      assert RowVectors(f, direction[i], speed'[i]) == RowVectors(f, direction[i], speed[i]);
    }
    assert rows' == rows;
  }

  /** The script's first pair of loops: for each direction row `i`, fetch
      `speed[i]`; for each cell `j`, fetch `speed_row[j]` and append the
      vector text; append the row's list to `rows`. */
  method BuildRows<D, S>(f: Formatter<D, S>, direction: seq<seq<D>>, speed: seq<seq<S>>)
    returns (res: Result<seq<seq<string>>, Failure>)
    ensures res == Rows(f, direction, speed)
  {
    var rows: seq<seq<string>> := [];
    var i := 0;
    while i < |direction|
      invariant i <= |direction|
      invariant RowsUpTo(f, direction, speed, i) == Ok(rows)
    {
      if i >= |speed| {
        RowsErrorPersists(f, direction, speed, i + 1, |direction|);
        return Err(SpeedRowMissing(i));
      }
      var speedRow := speed[i];
      var vectors: seq<string> := [];
      var j := 0;
      while j < |direction[i]|
        invariant j <= |direction[i]| && j <= |speedRow|
        invariant |vectors| == j
        invariant forall k :: 0 <= k < j ==> vectors[k] == CellText(f, direction[i][k], speedRow[k])
      {
        if j >= |speedRow| {
          RowsErrorPersists(f, direction, speed, i + 1, |direction|);
          return Err(SpeedCellMissing(i, j));
        }
        vectors := vectors + [CellText(f, direction[i][j], speedRow[j])];
        j := j + 1;
      }
      assert vectors == RowVectors(f, direction[i], speed[i]);
      rows := rows + [vectors];
      i := i + 1;
    }
    return Ok(rows);
  }

  // ---------------------------------------------------------------------------
  // Transposing into columns

  /** The first of the shortest rows. */
  function ShortestRow<T>(rows: seq<seq<T>>): (k: nat)
    requires rows != []
    ensures k < |rows|
    ensures forall k' :: 0 <= k' < |rows| ==> |rows[k]| <= |rows[k']|
    ensures forall k' :: 0 <= k' < k ==> |rows[k']| > |rows[k]|
  {
    if |rows| == 1 then 0
    else
      var k := 1 + ShortestRow(rows[1..]);
      if |rows[0]| <= |rows[k]| then 0 else k
  }

  /** The transpose with `ncols = len(rows[0])` columns: column `i` holds cell
      `i` of every row, in row order. `rows[0]` fails on no rows; a row with
      fewer than `ncols` cells fails, at the first position the loops reach
      (the smallest missing column, and the first row lacking it). */
  function Transpose<T>(rows: seq<seq<T>>): Result<seq<seq<T>>, Failure>
  {
    if rows == [] then Err(NoRows)
    else
      var ncols := |rows[0]|;
      var s := ShortestRow(rows);
      if |rows[s]| < ncols then Err(ShortRow(s, |rows[s]|))
      else Ok(seq(ncols, i requires 0 <= i < ncols =>
                seq(|rows|, k requires 0 <= k < |rows| => rows[k][i])))
  }

  /** The transpose fails exactly when there are no rows or some row is shorter
      than the first. */
  lemma TransposeFails<T>(rows: seq<seq<T>>)
    ensures Transpose(rows).Err? <==>
      rows == [] || exists k :: 0 <= k < |rows| && |rows[k]| < |rows[0]|
  {
    if rows != [] && exists k :: 0 <= k < |rows| && |rows[k]| < |rows[0]| {
      var k :| 0 <= k < |rows| && |rows[k]| < |rows[0]|;
      assert |rows[ShortestRow(rows)]| <= |rows[k]|;
    }
  }

  /** `columns` has `ncols` entries, each holding `len(rows)` cells, and entry
      `k` of column `i` is `rows[k][i]`; cells past `ncols` are dropped. */
  lemma TransposeEntries<T>(rows: seq<seq<T>>)
    requires Transpose(rows).Ok?
    ensures var columns := Transpose(rows).value;
      rows != [] && |columns| == |rows[0]| &&
      forall i :: 0 <= i < |columns| ==>
        |columns[i]| == |rows| &&
        forall k :: 0 <= k < |rows| ==> i < |rows[k]| && columns[i][k] == rows[k][i]
  {
  }

  /** On a rectangular grid with at least one column the transpose is undone
      by transposing again. */
  lemma TransposeTwice<T>(rows: seq<seq<T>>)
    requires rows != [] && |rows[0]| > 0
    requires forall k :: 0 <= k < |rows| ==> |rows[k]| == |rows[0]|
    ensures Transpose(rows).Ok?
    ensures Transpose(Transpose(rows).value) == Ok(rows)
  {
    TransposeFails(rows);
    var columns := Transpose(rows).value;
    TransposeFails(columns);
    var back := Transpose(columns).value;
    forall k | 0 <= k < |rows|
      ensures back[k] == rows[k]
    {
      forall i | 0 <= i < |rows[0]|
        ensures back[k][i] == rows[k][i]
      {
        assert back[k][i] == columns[i][k];
      }
    }
    assert back == rows;
  }

  /** A column as the script appends it: `'[' + ','.join(column) + ']\n'`. */
  function ColumnText(column: seq<string>): string
  {
    "[" + Join(",", column) + "]\n"
  }

  /** The list `columns` of the script: the rendered columns of the transpose. */
  function ColumnTexts(rows: seq<seq<string>>): Result<seq<string>, Failure>
  {
    match Transpose(rows)
    case Err(e) => Err(e)
    case Ok(columns) => Ok(seq(|columns|, i requires 0 <= i < |columns| => ColumnText(columns[i])))
  }

  /** The script's second pair of loops: for each `i` below `ncols`, collect
      `row[i]` of every row into `column` and append the rendered column. */
  method RenderColumns(rows: seq<seq<string>>) returns (res: Result<seq<string>, Failure>)
    ensures res == ColumnTexts(rows)
  {
    if |rows| == 0 {
      return Err(NoRows);
    }
    var ncols := |rows[0]|;
    var columns: seq<string> := [];
    var i := 0;
    while i < ncols
      invariant i <= ncols
      invariant forall k :: 0 <= k < |rows| ==> i <= |rows[k]|
      invariant |columns| == i
      invariant forall c :: 0 <= c < i ==>
        columns[c] == ColumnText(seq(|rows|, k requires 0 <= k < |rows| => rows[k][c]))
    {
      var column: seq<string> := [];
      var k := 0;
      while k < |rows|
        invariant k <= |rows|
        invariant forall k' :: 0 <= k' < k ==> i < |rows[k']|
        invariant |column| == k
        invariant forall k' :: 0 <= k' < k ==> column[k'] == rows[k'][i]
      {
        if |rows[k]| <= i {
          assert ShortestRow(rows) == k;
          return Err(ShortRow(k, i));
        }
        column := column + [rows[k][i]];
        k := k + 1;
      }
      assert column == seq(|rows|, k requires 0 <= k < |rows| => rows[k][i]);
      columns := columns + [ColumnText(column)];
      i := i + 1;
    }
    assert |rows[ShortestRow(rows)]| >= ncols;
    ghost var transposed := Transpose(rows).value;
    forall c | 0 <= c < ncols
      ensures columns[c] == ColumnText(transposed[c])
    {
      assert transposed[c] == seq(|rows|, k requires 0 <= k < |rows| => rows[k][c]);
    }
    assert |transposed| == ncols;
    assert columns == seq(|transposed|, c requires 0 <= c < |transposed| => ColumnText(transposed[c]));
    return Ok(columns);
  }

  // ---------------------------------------------------------------------------
  // The emitted text

  /** The printed line: `'columns = ' + '[' + ','.join(columns) + ']'`. */
  function Document(columns: seq<string>): string
  {
    "columns = [" + Join(",", columns) + "]"
  }

  /** The script's output, or the error it stops with. */
  function ExportText<D, S>(f: Formatter<D, S>, direction: seq<seq<D>>, speed: seq<seq<S>>)
    : Result<string, Failure>
  {
    match Rows(f, direction, speed)
    case Err(e) => Err(e)
    case Ok(rows) =>
      match ColumnTexts(rows)
      case Err(e) => Err(e)
      case Ok(columns) => Ok(Document(columns))
  }

  /** The whole script from the two grids to the printed text. */
  method Export<D, S>(f: Formatter<D, S>, direction: seq<seq<D>>, speed: seq<seq<S>>)
    returns (res: Result<string, Failure>)
    ensures res == ExportText(f, direction, speed)
  {
    var rows := BuildRows(f, direction, speed);
    if rows.Err? {
      return Err(rows.error);
    }
    var columns := RenderColumns(rows.value);
    if columns.Err? {
      return Err(columns.error);
    }
    return Ok(Document(columns.value));
  }

  /** The grids the script exports without error: at least one direction row,
      no row shorter than the first, and a speed cell under every direction cell. */
  ghost predicate Exportable<D, S>(direction: seq<seq<D>>, speed: seq<seq<S>>)
  {
    direction != [] &&
    (forall k :: 0 <= k < |direction| ==> |direction[0]| <= |direction[k]|) &&
    SpeedCovers(direction, speed)
  }

  /** Column `i` of the output, stated directly on the grids: the vectors of
      cell `i` of every row, in row order. */
  function GridColumn<D, S>(f: Formatter<D, S>, direction: seq<seq<D>>, speed: seq<seq<S>>, i: nat)
    : seq<string>
    requires Exportable(direction, speed) && i < |direction[0]|
  {
    seq(|direction|, k requires 0 <= k < |direction| =>
      assert RowFault(direction, speed, k) == None;
      CellText(f, direction[k][i], speed[k][i]))
  }

  /** The columns of the output, stated directly on the grids. */
  function GridColumns<D, S>(f: Formatter<D, S>, direction: seq<seq<D>>, speed: seq<seq<S>>)
    : seq<seq<string>>
    requires Exportable(direction, speed)
  {
    seq(|direction[0]|, i requires 0 <= i < |direction[0]| => GridColumn(f, direction, speed, i))
  }

  /** The export succeeds exactly on exportable grids, and then prints the
      columns of the grid, each column listing cell `i` of every row. */
  lemma ExportMeaning<D, S>(f: Formatter<D, S>, direction: seq<seq<D>>, speed: seq<seq<S>>)
    ensures ExportText(f, direction, speed).Ok? <==> Exportable(direction, speed)
    ensures Exportable(direction, speed) ==>
      var columns := GridColumns(f, direction, speed);
      ExportText(f, direction, speed) ==
        Ok(Document(seq(|columns|, i requires 0 <= i < |columns| => ColumnText(columns[i]))))
  {
    RowsSucceed(f, direction, speed);
    if Rows(f, direction, speed).Ok? {
      RowsContent(f, direction, speed);
      var rows := Rows(f, direction, speed).value;
      TransposeFails(rows);
      if Exportable(direction, speed) {
        var columns := GridColumns(f, direction, speed);
        var transposed := Transpose(rows).value;
        forall i | 0 <= i < |columns|
          ensures transposed[i] == columns[i]
        {
        }
        assert transposed == columns;
      }
    }
  }
}
