/**
 * validateGrid: reports every filled cell whose digit is repeated in its
 * row, its column or its 3x3 box, each cell once, in the order the scans
 * first meet it.
 */
module Validator {
  import opened Grid

  /** A reported cell, as the {row, col} objects of the result. */
  datatype CellRef = CellRef(row: int, col: int)

  predicate InRange(x: CellRef) {
    0 <= x.row < 9 && 0 <= x.col < 9
  }

  /** The digit in cell x (0 outside the board). */
  function Val(g: seq<int>, x: CellRef): int {
    if |g| == 81 && InRange(x) then g[At(x.row, x.col)] else 0
  }

  /**
   * The specification: x holds a digit and some other cell sharing a row,
   * a column or a box with it holds the same digit.
   */
  ghost predicate Conflict(g: seq<int>, x: CellRef)
    requires |g| == 81
  {
    InRange(x) && g[At(x.row, x.col)] != 0 &&
    exists j :: 0 <= j < 81 && j != At(x.row, x.col) && Peers(At(x.row, x.col), j) && g[j] == g[At(x.row, x.col)]
  }

  /** No cell occurs twice: the result comes out of a set. */
  predicate NoRepeats(cells: seq<CellRef>) {
    forall a, b :: 0 <= a < b < |cells| ==> cells[a] != cells[b]
  }

  // ---------------------------------------------------------------------------
  // The three kinds of repetition, one per unit kind.

  ghost predicate RowDup(g: seq<int>, x: CellRef) {
    InRange(x) && Val(g, x) != 0 &&
    exists c :: 0 <= c < 9 && c != x.col && Val(g, CellRef(x.row, c)) == Val(g, x)
  }

  ghost predicate ColDup(g: seq<int>, x: CellRef) {
    InRange(x) && Val(g, x) != 0 &&
    exists r :: 0 <= r < 9 && r != x.row && Val(g, CellRef(r, x.col)) == Val(g, x)
  }

  /** The other cell sits `a` rows and `b` columns into the box of x. */
  function BoxMate(x: CellRef, a: int, b: int): CellRef {
    CellRef(BandStart(x.row) + a, BandStart(x.col) + b)
  }

  ghost predicate BoxDup(g: seq<int>, x: CellRef) {
    InRange(x) && Val(g, x) != 0 &&
    exists a, b :: 0 <= a < 3 && 0 <= b < 3 && BoxMate(x, a, b) != x && Val(g, BoxMate(x, a, b)) == Val(g, x)
  }

  /** A conflict is a repetition within the cell's row, its column or its box. */
  lemma ConflictIsUnitDup(g: seq<int>, x: CellRef)
    requires |g| == 81
    ensures Conflict(g, x) <==> RowDup(g, x) || ColDup(g, x) || BoxDup(g, x)
  {
    if InRange(x) && Val(g, x) != 0 {
      var i := At(x.row, x.col);
      AtCoords(x.row, x.col);
      SameThird(x.row, x.row);
      SameThird(x.col, x.col);
      if Conflict(g, x) {
        var j :| 0 <= j < 81 && j != i && Peers(i, j) && g[j] == g[i];
        Coords(j);
        var y := CellRef(RowOf(j), ColOf(j));
        assert Val(g, y) == g[j];
        if RowOf(j) == x.row {
          assert Val(g, CellRef(x.row, y.col)) == Val(g, x);
        } else if ColOf(j) == x.col {
          assert Val(g, CellRef(y.row, x.col)) == Val(g, x);
        } else {
          SameThird(x.row, y.row);
          SameThird(x.col, y.col);
          assert y == BoxMate(x, y.row - BandStart(x.row), y.col - BandStart(x.col));
        }
      }
      if RowDup(g, x) {
        var c :| 0 <= c < 9 && c != x.col && Val(g, CellRef(x.row, c)) == Val(g, x);
        AtCoords(x.row, c);
        assert Peers(i, At(x.row, c));
      } else if ColDup(g, x) {
        var r :| 0 <= r < 9 && r != x.row && Val(g, CellRef(r, x.col)) == Val(g, x);
        AtCoords(r, x.col);
        assert Peers(i, At(r, x.col));
      } else if BoxDup(g, x) {
        var a, b :| 0 <= a < 3 && 0 <= b < 3 && BoxMate(x, a, b) != x && Val(g, BoxMate(x, a, b)) == Val(g, x);
        var y := BoxMate(x, a, b);
        AtCoords(y.row, y.col);
        SameThird(x.row, y.row);
        SameThird(x.col, y.col);
        assert SameBox(i, At(y.row, y.col));
      }
    }
  }

  // ---------------------------------------------------------------------------
  // One unit scanned cell by cell with a map from digit to where it was seen.

  /**
   * Cell k of unit u repeats, within the first n cells of u, a digit held
   * by another of them.
   */
  ghost predicate DupAt(g: seq<int>, u: seq<CellRef>, k: int, n: int)
    requires 0 <= k < n <= |u|
  {
    Val(g, u[k]) != 0 && exists k' :: 0 <= k' < n && k' != k && Val(g, u[k']) == Val(g, u[k])
  }

  /** The cells among the first n of unit u that repeat a digit among those n. */
  ghost function DupSet(g: seq<int>, u: seq<CellRef>, n: int): set<CellRef>
    requires 0 <= n <= |u|
  {
    set k | 0 <= k < n && DupAt(g, u, k, n) :: u[k]
  }

  /**
   * The scan's map after the first n cells of u: its keys are exactly the
   * nonzero digits met so far, each mapped to a position that holds it.
   */
  ghost predicate Seen(g: seq<int>, u: seq<CellRef>, m: map<int, int>, n: int)
    requires 0 <= n <= |u|
  {
    (forall k :: 0 <= k < n && Val(g, u[k]) != 0 ==> Val(g, u[k]) in m) &&
    (forall v :: v in m ==> 0 <= m[v] < n && v != 0 && Val(g, u[m[v]]) == v)
  }

  /**
   * Scanning cell n of u: a blank or a first occurrence adds no repetition;
   * a digit already in the map makes this cell and the recorded one
   * repetitions, and every other new repetition was already reported.
   */
  lemma DupStep(g: seq<int>, u: seq<CellRef>, n: int, m: map<int, int>)
    requires 0 <= n < |u| && Seen(g, u, m, n)
    ensures Val(g, u[n]) == 0 ==> Seen(g, u, m, n + 1)
    ensures Val(g, u[n]) != 0 ==> Seen(g, u, m[Val(g, u[n]) := n], n + 1)
    ensures Val(g, u[n]) !in m ==> DupSet(g, u, n + 1) == DupSet(g, u, n)
    ensures Val(g, u[n]) in m ==> DupSet(g, u, n + 1) == DupSet(g, u, n) + {u[n], u[m[Val(g, u[n])]]}
  {
    var v := Val(g, u[n]);
    forall k | 0 <= k < n && DupAt(g, u, k, n) ensures DupAt(g, u, k, n + 1) {
      var k' :| 0 <= k' < n && k' != k && Val(g, u[k']) == Val(g, u[k]);
    }
    if v in m {
      var p := m[v];
      assert DupAt(g, u, n, n + 1);
      assert DupAt(g, u, p, n + 1);
      forall k | 0 <= k < n + 1 && DupAt(g, u, k, n + 1) ensures u[k] in DupSet(g, u, n) + {u[n], u[p]} {
        if k < n && k != p {
          var k' :| 0 <= k' < n + 1 && k' != k && Val(g, u[k']) == Val(g, u[k]);
          assert DupAt(g, u, k, n);
        }
      }
    } else {
      forall k | 0 <= k < n + 1 && DupAt(g, u, k, n + 1) ensures DupAt(g, u, k, n) && k < n {
        var k' :| 0 <= k' < n + 1 && k' != k && Val(g, u[k']) == Val(g, u[k]);
      }
    }
  }

  // ---------------------------------------------------------------------------
  // The invalidCells set, kept in insertion order.

  /** addInvalid: put a cell into the reported set; a cell already there keeps its place. */
  function AddInvalid(cells: seq<CellRef>, x: CellRef): (r: seq<CellRef>)
    ensures forall y :: y in r <==> y in cells || y == x
    ensures NoRepeats(cells) ==> NoRepeats(r)
    ensures |cells| <= |r| <= |cells| + 1 && r[..|cells|] == cells
  {
    if x in cells then cells else cells + [x]
  }

  // ---------------------------------------------------------------------------
  // The units, in the order validateGrid reads their cells.

  function RowUnit(i: int): seq<CellRef> { seq(9, c => CellRef(i, c)) }

  function ColUnit(i: int): seq<CellRef> { seq(9, r => CellRef(r, i)) }

  /** The box whose top-left cell is (boxRow, boxCol), row by row. */
  function BoxUnit(boxRow: int, boxCol: int): seq<CellRef> {
    seq(9, k => CellRef(boxRow + k / 3, boxCol + k % 3))
  }

  lemma BoxPosition(boxRow: int, boxCol: int, i: int, j: int)
    requires 0 <= i < 3 && 0 <= j < 3
    ensures 0 <= 3 * i + j < 9 && BoxUnit(boxRow, boxCol)[3 * i + j] == CellRef(boxRow + i, boxCol + j)
  {
  }

  /** Position k of a box is row k / 3 and column k % 3 of it. */
  lemma SplitPosition(k: int) returns (a: int, b: int)
    requires 0 <= k < 9
    ensures 0 <= a < 3 && 0 <= b < 3 && k == 3 * a + b
  {
    a, b := k / 3, k % 3;
  }

  lemma BandOf(start: int, a: int)
    requires start % 3 == 0 && 0 <= a < 3
    ensures BandStart(start + a) == start
  {
  }

  /** The repetitions found in row i are the cells of row i that repeat a digit of their row. */
  lemma RowUnitDups(g: seq<int>, i: int)
    requires |g| == 81 && 0 <= i < 9
    ensures forall x :: x in DupSet(g, RowUnit(i), 9) <==> x.row == i && RowDup(g, x)
  {
    var u := RowUnit(i);
    forall x ensures x in DupSet(g, u, 9) <==> x.row == i && RowDup(g, x) {
      if x.row == i && RowDup(g, x) {
        var c :| 0 <= c < 9 && c != x.col && Val(g, CellRef(x.row, c)) == Val(g, x);
        assert u[c] == CellRef(x.row, c) && u[x.col] == x;
        assert DupAt(g, u, x.col, 9);
      }
      if x in DupSet(g, u, 9) {
        var k :| 0 <= k < 9 && DupAt(g, u, k, 9) && u[k] == x;
        var k' :| 0 <= k' < 9 && k' != k && Val(g, u[k']) == Val(g, u[k]);
        assert u[k'] == CellRef(x.row, k');
      }
    }
  }

  /** The repetitions found in column i are the cells of column i that repeat a digit of their column. */
  lemma ColUnitDups(g: seq<int>, i: int)
    requires |g| == 81 && 0 <= i < 9
    ensures forall x :: x in DupSet(g, ColUnit(i), 9) <==> x.col == i && ColDup(g, x)
  {
    var u := ColUnit(i);
    forall x ensures x in DupSet(g, u, 9) <==> x.col == i && ColDup(g, x) {
      if x.col == i && ColDup(g, x) {
        var r :| 0 <= r < 9 && r != x.row && Val(g, CellRef(r, x.col)) == Val(g, x);
        assert u[r] == CellRef(r, x.col) && u[x.row] == x;
        assert DupAt(g, u, x.row, 9);
      }
      if x in DupSet(g, u, 9) {
        var k :| 0 <= k < 9 && DupAt(g, u, k, 9) && u[k] == x;
        var k' :| 0 <= k' < 9 && k' != k && Val(g, u[k']) == Val(g, u[k]);
        assert u[k'] == CellRef(k', x.col);
      }
    }
  }

  /** The repetitions found in a box are the cells of that box that repeat a digit of their box. */
  lemma BoxUnitDups(g: seq<int>, boxRow: int, boxCol: int)
    requires |g| == 81 && 0 <= boxRow < 9 && 0 <= boxCol < 9 && boxRow % 3 == 0 && boxCol % 3 == 0
    ensures forall x :: x in DupSet(g, BoxUnit(boxRow, boxCol), 9) <==>
      InRange(x) && BandStart(x.row) == boxRow && BandStart(x.col) == boxCol && BoxDup(g, x)
  {
    forall x ensures x in DupSet(g, BoxUnit(boxRow, boxCol), 9) <==>
      InRange(x) && BandStart(x.row) == boxRow && BandStart(x.col) == boxCol && BoxDup(g, x)
    {
      if InRange(x) && BandStart(x.row) == boxRow && BandStart(x.col) == boxCol && BoxDup(g, x) {
        BoxDupIsFound(g, boxRow, boxCol, x);
      }
      if x in DupSet(g, BoxUnit(boxRow, boxCol), 9) {
        FoundIsBoxDup(g, boxRow, boxCol, x);
      }
    }
  }

  lemma BoxDupIsFound(g: seq<int>, boxRow: int, boxCol: int, x: CellRef)
    requires |g| == 81 && InRange(x) && BandStart(x.row) == boxRow && BandStart(x.col) == boxCol && BoxDup(g, x)
    ensures x in DupSet(g, BoxUnit(boxRow, boxCol), 9)
  {
    var u := BoxUnit(boxRow, boxCol);
    var a, b :| 0 <= a < 3 && 0 <= b < 3 && BoxMate(x, a, b) != x && Val(g, BoxMate(x, a, b)) == Val(g, x);
    var i, j := x.row - boxRow, x.col - boxCol;
    BoxPosition(boxRow, boxCol, a, b);
    BoxPosition(boxRow, boxCol, i, j);
    assert DupAt(g, u, 3 * i + j, 9);
  }

  lemma FoundIsBoxDup(g: seq<int>, boxRow: int, boxCol: int, x: CellRef)
    requires |g| == 81 && 0 <= boxRow < 9 && 0 <= boxCol < 9 && boxRow % 3 == 0 && boxCol % 3 == 0
    requires x in DupSet(g, BoxUnit(boxRow, boxCol), 9)
    ensures InRange(x) && BandStart(x.row) == boxRow && BandStart(x.col) == boxCol && BoxDup(g, x)
  {
    var u := BoxUnit(boxRow, boxCol);
    var k :| 0 <= k < 9 && DupAt(g, u, k, 9) && u[k] == x;
    var k' :| 0 <= k' < 9 && k' != k && Val(g, u[k']) == Val(g, u[k]);
    var i, j := SplitPosition(k);
    var a, b := SplitPosition(k');
    BoxPosition(boxRow, boxCol, i, j);
    BoxPosition(boxRow, boxCol, a, b);
    BoxPair(g, boxRow, boxCol, i, j, a, b);
  }

  /** Two distinct cells of one box holding the same nonzero digit: the first is a box repetition. */
  lemma BoxPair(g: seq<int>, boxRow: int, boxCol: int, i: int, j: int, a: int, b: int)
    requires |g| == 81 && 0 <= boxRow < 9 && 0 <= boxCol < 9 && boxRow % 3 == 0 && boxCol % 3 == 0
    requires 0 <= i < 3 && 0 <= j < 3 && 0 <= a < 3 && 0 <= b < 3 && (i, j) != (a, b)
    requires Val(g, CellRef(boxRow + i, boxCol + j)) != 0
    requires Val(g, CellRef(boxRow + a, boxCol + b)) == Val(g, CellRef(boxRow + i, boxCol + j))
    ensures var x := CellRef(boxRow + i, boxCol + j);
      InRange(x) && BandStart(x.row) == boxRow && BandStart(x.col) == boxCol && BoxDup(g, x)
  {
    var x := CellRef(boxRow + i, boxCol + j);
    BandOf(boxRow, i);
    BandOf(boxCol, j);
    assert CellRef(boxRow + a, boxCol + b) == BoxMate(x, a, b);
  }

  // ---------------------------------------------------------------------------
  // validateGrid

  /**
   * Iteration i of the first loop: row i and column i are read side by side,
   * each with its own map from digit to the position where it was last seen.
   */
  method ScanRowAndColumn(grid: array<int>, i: int, invalid: seq<CellRef>) returns (cells: seq<CellRef>)
    requires grid.Length == 81 && 0 <= i < 9 && NoRepeats(invalid)
    ensures NoRepeats(cells)
    ensures forall x :: x in cells <==>
      x in invalid || x in DupSet(grid[..], RowUnit(i), 9) || x in DupSet(grid[..], ColUnit(i), 9)
  {
    var rowMap: map<int, int> := map[];
    var colMap: map<int, int> := map[];
    cells := invalid;
    for j := 0 to 9
      invariant Seen(grid[..], RowUnit(i), rowMap, j) && Seen(grid[..], ColUnit(i), colMap, j)
      invariant NoRepeats(cells)
      invariant Reported(grid[..], invalid, RowUnit(i), j, ColUnit(i), j, cells)
    {
      rowMap, cells := CheckCell(grid, RowUnit(i), j, rowMap, cells, invalid, ColUnit(i), j);
      ReportedSwap(grid[..], invalid, RowUnit(i), j + 1, ColUnit(i), j, cells);
      colMap, cells := CheckCell(grid, ColUnit(i), j, colMap, cells, invalid, RowUnit(i), j + 1);
      ReportedSwap(grid[..], invalid, ColUnit(i), j + 1, RowUnit(i), j + 1, cells);
    }
  }

  /**
   * One cell of a row or column check: a nonzero digit already in the map
   * reports this cell and the cell at the recorded position, and the map
   * then records this position for the digit.
   */
  method CheckCell(grid: array<int>, u: seq<CellRef>, n: int, m: map<int, int>, cells: seq<CellRef>,
                   ghost invalid: seq<CellRef>, ghost u': seq<CellRef>, ghost n': int)
    returns (m': map<int, int>, cells': seq<CellRef>)
    requires grid.Length == 81 && 0 <= n < |u| && InRange(u[n]) && 0 <= n' <= |u'|
    requires Seen(grid[..], u, m, n) && NoRepeats(cells)
    requires Reported(grid[..], invalid, u', n', u, n, cells)
    ensures Seen(grid[..], u, m', n + 1) && NoRepeats(cells')
    ensures Reported(grid[..], invalid, u', n', u, n + 1, cells')
  {
    var value := grid[At(u[n].row, u[n].col)];
    assert value == Val(grid[..], u[n]);
    ReportedSwap(grid[..], invalid, u', n', u, n, cells);
    m', cells' := m, cells;
    if value != 0 {
      if value in m {
        cells' := AddInvalid(cells', u[n]);
        cells' := AddInvalid(cells', u[m[value]]);
      }
      m' := m[value := n];
    }
    ReportStep(grid[..], invalid, u, n, m, u', n', cells, cells');
    ReportedSwap(grid[..], invalid, u, n + 1, u', n', cells');
  }

  /**
   * The scan's result so far: the cells reported on entry plus the
   * repetitions within the first n cells of unit u and the first n' of u'.
   */
  ghost predicate Reported(g: seq<int>, invalid: seq<CellRef>, u: seq<CellRef>, n: int, u': seq<CellRef>, n': int, cells: seq<CellRef>)
    requires 0 <= n <= |u| && 0 <= n' <= |u'|
  {
    forall x :: x in cells <==> x in invalid || x in DupSet(g, u, n) || x in DupSet(g, u', n')
  }

  lemma ReportedSwap(g: seq<int>, invalid: seq<CellRef>, u: seq<CellRef>, n: int, u': seq<CellRef>, n': int, cells: seq<CellRef>)
    requires 0 <= n <= |u| && 0 <= n' <= |u'| && Reported(g, invalid, u, n, u', n', cells)
    ensures Reported(g, invalid, u', n', u, n, cells)
  {
  }

  /**
   * One cell of a unit: when its digit is already in the map, the cell and
   * the recorded one are added to the report; otherwise nothing is.
   */
  lemma ReportStep(g: seq<int>, invalid: seq<CellRef>, u: seq<CellRef>, n: int, m: map<int, int>,
                   u': seq<CellRef>, n': int, before: seq<CellRef>, after: seq<CellRef>)
    requires 0 <= n < |u| && 0 <= n' <= |u'| && Seen(g, u, m, n)
    requires Reported(g, invalid, u, n, u', n', before)
    requires Val(g, u[n]) in m ==> forall y :: y in after <==> y in before || y == u[n] || y == u[m[Val(g, u[n])]]
    requires Val(g, u[n]) !in m ==> after == before
    ensures Reported(g, invalid, u, n + 1, u', n', after)
    ensures Seen(g, u, if Val(g, u[n]) == 0 then m else m[Val(g, u[n]) := n], n + 1)
  {
    DupStep(g, u, n, m);
  }

  /** boxMap holds, for each digit, the coordinates of the position `pos` records. */
  ghost predicate Tracks(boxMap: map<int, (int, int)>, pos: map<int, int>, u: seq<CellRef>) {
    boxMap.Keys == pos.Keys &&
    forall v :: v in pos ==> 0 <= pos[v] < |u| && boxMap[v] == (u[pos[v]].row, u[pos[v]].col)
  }

  lemma TracksStep(boxMap: map<int, (int, int)>, pos: map<int, int>, u: seq<CellRef>, v: int, k: int)
    requires Tracks(boxMap, pos, u) && 0 <= k < |u|
    ensures Tracks(boxMap[v := (u[k].row, u[k].col)], pos[v := k], u)
  {
  }

  /**
   * One box of the second loop, read row by row; the map records the
   * coordinates where each digit was last seen.
   */
  method ScanBox(grid: array<int>, boxRow: int, boxCol: int, invalid: seq<CellRef>) returns (cells: seq<CellRef>)
    requires grid.Length == 81 && 0 <= boxRow <= 6 && 0 <= boxCol <= 6 && NoRepeats(invalid)
    ensures NoRepeats(cells)
    ensures forall x :: x in cells <==> x in invalid || x in DupSet(grid[..], BoxUnit(boxRow, boxCol), 9)
  {
    var boxMap: map<int, (int, int)> := map[];
    ghost var pos: map<int, int> := map[];
    ghost var g, u := grid[..], BoxUnit(boxRow, boxCol);
    cells := invalid;
    for i := 0 to 3
      invariant BoxScan(g, u, 3 * i, boxMap, pos, invalid, cells)
    {
      for j := 0 to 3
        invariant BoxScan(g, u, 3 * i + j, boxMap, pos, invalid, cells)
      {
        boxMap, pos, cells := CheckBoxCell(grid, boxRow, boxCol, i, j, boxMap, pos, cells, invalid);
      }
    }
    ReportedSwap(g, invalid, [], 0, u, 9, cells);
  }

  /** The state of a box check after its first n cells. */
  ghost predicate BoxScan(g: seq<int>, u: seq<CellRef>, n: int, boxMap: map<int, (int, int)>, pos: map<int, int>,
                          invalid: seq<CellRef>, cells: seq<CellRef>)
  {
    0 <= n <= |u| && Seen(g, u, pos, n) && Tracks(boxMap, pos, u) && NoRepeats(cells) && Reported(g, invalid, [], 0, u, n, cells)
  }

  /**
   * Cell (boxRow + i, boxCol + j) of the box check: a nonzero digit already
   * in the map reports this cell and the recorded coordinates, and the map
   * then records this cell's coordinates for the digit.
   */
  method CheckBoxCell(grid: array<int>, boxRow: int, boxCol: int, i: int, j: int,
                      boxMap: map<int, (int, int)>, ghost pos: map<int, int>, cells: seq<CellRef>, ghost invalid: seq<CellRef>)
    returns (boxMap': map<int, (int, int)>, ghost pos': map<int, int>, cells': seq<CellRef>)
    requires grid.Length == 81 && 0 <= boxRow <= 6 && 0 <= boxCol <= 6 && 0 <= i < 3 && 0 <= j < 3
    requires BoxScan(grid[..], BoxUnit(boxRow, boxCol), 3 * i + j, boxMap, pos, invalid, cells)
    ensures BoxScan(grid[..], BoxUnit(boxRow, boxCol), 3 * i + j + 1, boxMap', pos', invalid, cells')
  {
    ghost var g := grid[..];
    ghost var u := BoxUnit(boxRow, boxCol);
    var r := boxRow + i;
    var c := boxCol + j;
    var cellValue := grid[At(r, c)];
    BoxPosition(boxRow, boxCol, i, j);
    ghost var k := 3 * i + j;
    assert u[k] == CellRef(r, c) && cellValue == Val(g, u[k]);
    ReportedSwap(g, invalid, [], 0, u, k, cells);
    boxMap', pos', cells' := boxMap, pos, cells;
    if cellValue != 0 {
      if cellValue in boxMap {
        var prev := boxMap[cellValue];
        assert CellRef(prev.0, prev.1) == u[pos[cellValue]];
        cells' := AddInvalid(cells', CellRef(r, c));
        cells' := AddInvalid(cells', CellRef(prev.0, prev.1));
      }
      TracksStep(boxMap, pos, u, cellValue, k);
      boxMap' := boxMap[cellValue := (r, c)];
      pos' := pos[cellValue := k];
    }
    ReportStep(g, invalid, u, k, pos, [], 0, cells, cells');
    ReportedSwap(g, invalid, u, k + 1, [], 0, cells');
  }

  /** Section 1 of validateGrid: rows and columns, read side by side. */
  method CheckRowsAndColumns(grid: array<int>) returns (invalid: seq<CellRef>)
    requires grid.Length == 81
    ensures NoRepeats(invalid)
    ensures forall x :: x in invalid <==> RowDup(grid[..], x) || ColDup(grid[..], x)
  {
    invalid := [];
    for i := 0 to 9
      invariant NoRepeats(invalid)
      invariant forall x :: x in invalid <==> (x.row < i && RowDup(grid[..], x)) || (x.col < i && ColDup(grid[..], x))
    {
      invalid := ScanRowAndColumn(grid, i, invalid);
      RowUnitDups(grid[..], i);
      ColUnitDups(grid[..], i);
    }
  }

  /** Section 2 of validateGrid: the nine boxes, band by band. */
  method CheckBoxes(grid: array<int>, invalid: seq<CellRef>) returns (cells: seq<CellRef>)
    requires grid.Length == 81 && NoRepeats(invalid)
    ensures NoRepeats(cells)
    ensures forall x :: x in cells <==> x in invalid || BoxDup(grid[..], x)
  {
    cells := invalid;
    var boxRow := 0;
    while boxRow < 9
      invariant 0 <= boxRow <= 9 && boxRow % 3 == 0
      invariant NoRepeats(cells)
      invariant forall x :: x in cells <==> x in invalid || (BoxBefore(x, boxRow, 0) && BoxDup(grid[..], x))
    {
      var boxCol := 0;
      while boxCol < 9
        invariant 0 <= boxCol <= 9 && boxCol % 3 == 0
        invariant NoRepeats(cells)
        invariant forall x :: x in cells <==> x in invalid || (BoxBefore(x, boxRow, boxCol) && BoxDup(grid[..], x))
      {
        cells := ScanBox(grid, boxRow, boxCol, cells);
        BoxUnitDups(grid[..], boxRow, boxCol);
        BoxOrderStep(boxRow, boxCol);
        boxCol := boxCol + 3;
      }
      BoxOrderRow(boxRow);
      boxRow := boxRow + 3;
    }
  }

  /**
   * validateGrid(grid): the cells reported are exactly the filled cells
   * whose digit occurs again in their row, column or box, each reported
   * once. The grid is only read.
   */
  method ValidateGrid(grid: array<int>) returns (cells: seq<CellRef>)
    requires grid.Length == 81
    ensures NoRepeats(cells)
    ensures forall x :: x in cells <==> Conflict(grid[..], x)
  {
    var invalid := CheckRowsAndColumns(grid);
    cells := CheckBoxes(grid, invalid);
    forall x ensures x in cells <==> Conflict(grid[..], x) {
      ConflictIsUnitDup(grid[..], x);
    }
  }

  /** The box of x comes before box (boxRow, boxCol) in the scan order of the second loop. */
  ghost predicate BoxBefore(x: CellRef, boxRow: int, boxCol: int) {
    InRange(x) && (BandStart(x.row) < boxRow || (BandStart(x.row) == boxRow && BandStart(x.col) < boxCol))
  }

  lemma BoxOrderStep(boxRow: int, boxCol: int)
    requires boxCol % 3 == 0
    ensures forall x :: BoxBefore(x, boxRow, boxCol + 3) <==>
      BoxBefore(x, boxRow, boxCol) || (InRange(x) && BandStart(x.row) == boxRow && BandStart(x.col) == boxCol)
  {
  }

  lemma BoxOrderRow(boxRow: int)
    requires boxRow % 3 == 0
    ensures forall x :: BoxBefore(x, boxRow, 9) <==> BoxBefore(x, boxRow + 3, 0)
  {
  }
}
