/**
 * The 9x9 Sudoku grid and its placement rules.
 *
 * A grid is stored row-major as 81 integers: cell (row, col) lives at index
 * 9 * row + col, and 0 means "blank". Rows, columns and the nine
 * non-overlapping 3x3 boxes are the units; two cells that share a unit are
 * peers, so every cell is its own peer, as in the placement rule's scans.
 */
module Grid {

  /** Index of cell (r, c) in the row-major layout. */
  function At(r: int, c: int): int { 9 * r + c }

  function RowOf(i: int): int { i / 9 }

  function ColOf(i: int): int { i % 9 }

  predicate SameBox(i: int, j: int) {
    RowOf(i) / 3 == RowOf(j) / 3 && ColOf(i) / 3 == ColOf(j) / 3
  }

  /** i and j lie in a common row, column or box (a cell is its own peer here). */
  predicate Peers(i: int, j: int) {
    RowOf(i) == RowOf(j) || ColOf(i) == ColOf(j) || SameBox(i, j)
  }

  lemma AtCoords(r: int, c: int)
    requires 0 <= r < 9 && 0 <= c < 9
    ensures 0 <= At(r, c) < 81 && RowOf(At(r, c)) == r && ColOf(At(r, c)) == c
  {
  }

  lemma Coords(i: int)
    requires 0 <= i < 81
    ensures 0 <= RowOf(i) < 9 && 0 <= ColOf(i) < 9 && At(RowOf(i), ColOf(i)) == i
  {
  }

  /** `num` occurs in no cell that shares a row, column or box with cell i (i included). */
  ghost predicate Allowed(g: seq<int>, i: int, num: int)
    requires |g| == 81
  {
    forall j :: 0 <= j < 81 && Peers(i, j) ==> g[j] != num
  }

  ghost predicate NoZeros(g: seq<int>) {
    forall i :: 0 <= i < |g| ==> g[i] != 0
  }

  /** Number of blank cells. */
  function ZeroCount(g: seq<int>): nat {
    if g == [] then 0 else (if g[0] == 0 then 1 else 0) + ZeroCount(g[1..])
  }

  /**
   * s is what backtracking search can produce from g: it keeps every nonzero
   * cell of g, writes a digit 1..9 into every blank, and no digit it wrote
   * clashes with a peer. Clashes between two givens of g are not excluded.
   */
  ghost predicate SoundCompletion(g: seq<int>, s: seq<int>) {
    |g| == 81 && |s| == 81 &&
    (forall i :: 0 <= i < 81 && g[i] != 0 ==> s[i] == g[i]) &&
    (forall i :: 0 <= i < 81 && g[i] == 0 ==> 1 <= s[i] <= 9) &&
    (forall i, j {:trigger Peers(i, j), s[i], s[j]} ::
       0 <= i < 81 && 0 <= j < 81 && i != j && Peers(i, j) && (g[i] == 0 || g[j] == 0) ==> s[i] != s[j])
  }

  /** A solved grid: every cell holds 1..9 and no two peers hold the same digit. */
  ghost predicate Solved(s: seq<int>) {
    |s| == 81 &&
    (forall i :: 0 <= i < 81 ==> 1 <= s[i] <= 9) &&
    (forall i, j {:trigger Peers(i, j), s[i], s[j]} ::
       0 <= i < 81 && 0 <= j < 81 && i != j && Peers(i, j) ==> s[i] != s[j])
  }

  /** s is the one and only sound completion of p. */
  ghost predicate UniqueCompletion(p: seq<int>, s: seq<int>) {
    SoundCompletion(p, s) && forall t :: SoundCompletion(p, t) ==> t == s
  }

  // ---------------------------------------------------------------------------
  // createEmptyGrid

  function EmptyGrid(): (g: seq<int>)
    ensures |g| == 81 && ZeroCount(g) == 81
  {
    var g := seq(81, _ => 0);
    AllBlank(g);
    g
  }

  lemma {:induction false} AllBlank(g: seq<int>)
    requires forall i :: 0 <= i < |g| ==> g[i] == 0
    ensures ZeroCount(g) == |g|
  {
    if g != [] {
      AllBlank(g[1..]);
    }
  }

  /** Builds a fresh board of 81 blank cells. */
  method CreateEmptyGrid() returns (grid: array<int>)
    ensures fresh(grid) && grid[..] == EmptyGrid()
  {
    grid := new int[81](_ => 0);
  }

  /** A completion of the empty grid is exactly a solved grid. */
  lemma SolvedIsCompletionOfEmpty(s: seq<int>)
    ensures SoundCompletion(EmptyGrid(), s) <==> Solved(s)
  {
  }

  // ---------------------------------------------------------------------------
  // isValid: three read-only scans with early exit.

  function RowFree(g: seq<int>, row: int, num: int, x: int): (ok: bool)
    requires |g| == 81 && 0 <= row < 9 && 0 <= x <= 9
    ensures ok <==> forall y :: x <= y < 9 ==> g[At(row, y)] != num
    decreases 9 - x
  {
    if x == 9 then true
    else if g[At(row, x)] == num then false
    else RowFree(g, row, num, x + 1)
  }

  function ColFree(g: seq<int>, col: int, num: int, x: int): (ok: bool)
    requires |g| == 81 && 0 <= col < 9 && 0 <= x <= 9
    ensures ok <==> forall y :: x <= y < 9 ==> g[At(y, col)] != num
    decreases 9 - x
  {
    if x == 9 then true
    else if g[At(x, col)] == num then false
    else ColFree(g, col, num, x + 1)
  }

  /** Cell (a, b) of the box whose top-left cell is (startRow, startCol). */
  function BoxAt(startRow: int, startCol: int, a: int, b: int): int { At(startRow + a, startCol + b) }

  /** First row (column) of the band of three rows (columns) holding x. */
  function BandStart(x: int): int { x - x % 3 }

  /** For 0 <= r, r' < 9: r' lies in the same band of three as r. */
  lemma SameThird(r: int, r': int)
    requires 0 <= r < 9 && 0 <= r' < 9
    ensures 0 <= BandStart(r) <= 6
    ensures r / 3 == r' / 3 <==> BandStart(r) <= r' < BandStart(r) + 3
  {
  }

  function BoxRowFree(g: seq<int>, startRow: int, startCol: int, num: int, i: int, j: int): (ok: bool)
    requires |g| == 81 && 0 <= startRow <= 6 && 0 <= startCol <= 6 && 0 <= i < 3 && 0 <= j <= 3
    ensures ok <==> forall b :: j <= b < 3 ==> g[BoxAt(startRow, startCol, i, b)] != num
    decreases 3 - j
  {
    if j == 3 then true
    else if g[BoxAt(startRow, startCol, i, j)] == num then false
    else BoxRowFree(g, startRow, startCol, num, i, j + 1)
  }

  function BoxFree(g: seq<int>, startRow: int, startCol: int, num: int, i: int): (ok: bool)
    requires |g| == 81 && 0 <= startRow <= 6 && 0 <= startCol <= 6 && 0 <= i <= 3
    ensures ok <==> forall a, b :: i <= a < 3 && 0 <= b < 3 ==> g[BoxAt(startRow, startCol, a, b)] != num
    decreases 3 - i
  {
    if i == 3 then true
    else BoxRowFree(g, startRow, startCol, num, i, 0) && BoxFree(g, startRow, startCol, num, i + 1)
  }

  /**
   * isValid: `num` may be written at (row, col) exactly when no peer of the
   * cell, the cell itself included, already holds it.
   */
  function IsValid(g: seq<int>, row: int, col: int, num: int): (ok: bool)
    requires |g| == 81 && 0 <= row < 9 && 0 <= col < 9
    ensures ok <==> Allowed(g, At(row, col), num)
  {
    IsValidMeansAllowed(g, row, col, num);
    var startRow, startCol := BandStart(row), BandStart(col);
    RowFree(g, row, num, 0) && ColFree(g, col, num, 0) && BoxFree(g, startRow, startCol, num, 0)
  }

  lemma IsValidMeansAllowed(g: seq<int>, row: int, col: int, num: int)
    requires |g| == 81 && 0 <= row < 9 && 0 <= col < 9
    ensures 0 <= BandStart(row) <= 6 && 0 <= BandStart(col) <= 6
    ensures (RowFree(g, row, num, 0) && ColFree(g, col, num, 0) &&
             BoxFree(g, BandStart(row), BandStart(col), num, 0)) <==> Allowed(g, At(row, col), num)
  {
    ScansMeanClear(g, row, col, num);
    ClearMeansAllowed(g, row, col, num);
  }

  /** What the three scans of isValid check, as quantified statements. */
  ghost predicate UnitsClear(g: seq<int>, row: int, col: int, num: int)
    requires |g| == 81 && 0 <= row < 9 && 0 <= col < 9
  {
    (forall y :: 0 <= y < 9 ==> g[At(row, y)] != num) &&
    (forall y :: 0 <= y < 9 ==> g[At(y, col)] != num) &&
    (forall a, b :: 0 <= a < 3 && 0 <= b < 3 ==> 0 <= BoxAt(BandStart(row), BandStart(col), a, b) < 81 &&
                                                 g[BoxAt(BandStart(row), BandStart(col), a, b)] != num)
  }

  lemma ScansMeanClear(g: seq<int>, row: int, col: int, num: int)
    requires |g| == 81 && 0 <= row < 9 && 0 <= col < 9
    ensures 0 <= BandStart(row) <= 6 && 0 <= BandStart(col) <= 6
    ensures (RowFree(g, row, num, 0) && ColFree(g, col, num, 0) &&
             BoxFree(g, BandStart(row), BandStart(col), num, 0)) <==> UnitsClear(g, row, col, num)
  {
    SameThird(row, row);
    SameThird(col, col);
  }

  lemma ClearMeansAllowed(g: seq<int>, row: int, col: int, num: int)
    requires |g| == 81 && 0 <= row < 9 && 0 <= col < 9
    ensures UnitsClear(g, row, col, num) <==> Allowed(g, At(row, col), num)
  {
    if UnitsClear(g, row, col, num) {
      forall j | 0 <= j < 81 && Peers(At(row, col), j) ensures g[j] != num {
        ClearPeer(g, row, col, num, j);
      }
    }
    if Allowed(g, At(row, col), num) {
      AllowedMeansClear(g, row, col, num);
    }
  }

  lemma AllowedMeansClear(g: seq<int>, row: int, col: int, num: int)
    requires |g| == 81 && 0 <= row < 9 && 0 <= col < 9 && Allowed(g, At(row, col), num)
    ensures UnitsClear(g, row, col, num)
  {
    var i := At(row, col);
    var sr, sc := BandStart(row), BandStart(col);
    AtCoords(row, col);
    forall y | 0 <= y < 9 ensures g[At(row, y)] != num && g[At(y, col)] != num {
      AtCoords(row, y);
      assert Peers(i, At(row, y));
      AtCoords(y, col);
      assert Peers(i, At(y, col));
    }
    forall a, b | 0 <= a < 3 && 0 <= b < 3
      ensures 0 <= BoxAt(sr, sc, a, b) < 81 && g[BoxAt(sr, sc, a, b)] != num
    {
      AllowedBoxCell(g, row, col, num, a, b);
    }
  }

  lemma AllowedBoxCell(g: seq<int>, row: int, col: int, num: int, a: int, b: int)
    requires |g| == 81 && 0 <= row < 9 && 0 <= col < 9 && Allowed(g, At(row, col), num)
    requires 0 <= a < 3 && 0 <= b < 3
    ensures 0 <= BoxAt(BandStart(row), BandStart(col), a, b) < 81
    ensures g[BoxAt(BandStart(row), BandStart(col), a, b)] != num
  {
    var sr, sc := BandStart(row), BandStart(col);
    SameThird(row, sr + a);
    SameThird(col, sc + b);
    AtCoords(row, col);
    AtCoords(sr + a, sc + b);
    assert SameBox(At(row, col), BoxAt(sr, sc, a, b));
  }

  lemma ClearPeer(g: seq<int>, row: int, col: int, num: int, j: int)
    requires |g| == 81 && 0 <= row < 9 && 0 <= col < 9 && 0 <= j < 81 && Peers(At(row, col), j)
    requires UnitsClear(g, row, col, num)
    ensures g[j] != num
  {
    AtCoords(row, col);
    Coords(j);
    var r, c := RowOf(j), ColOf(j);
    if r == row {
      assert g[At(row, c)] != num;
    } else if c == col {
      assert g[At(r, col)] != num;
    } else {
      var sr, sc := BandStart(row), BandStart(col);
      SameThird(row, r);
      SameThird(col, c);
      assert j == BoxAt(sr, sc, r - sr, c - sc);
    }
  }

  // ---------------------------------------------------------------------------
  // Facts about blanks, completions and solved grids used by the search code.

  lemma {:induction false} ZeroCountFill(g: seq<int>, i: int, v: int)
    requires 0 <= i < |g| && g[i] == 0 && v != 0
    ensures ZeroCount(g[i := v]) + 1 == ZeroCount(g)
  {
    if i > 0 {
      assert g[i := v][1..] == g[1..][i - 1 := v];
      ZeroCountFill(g[1..], i - 1, v);
    } else {
      assert g[i := v][1..] == g[1..];
    }
  }

  /** Writing a cell and then its old value back restores the grid. */
  lemma UndoWrite(g: seq<int>, z: int, v: int)
    requires 0 <= z < |g|
    ensures g[z := v][z := g[z]] == g
  {
  }

  lemma {:induction false} NoZerosCount(g: seq<int>)
    ensures NoZeros(g) <==> ZeroCount(g) == 0
  {
    if g != [] {
      NoZerosCount(g[1..]);
      if NoZeros(g[1..]) && g[0] != 0 {
        assert NoZeros(g);
      }
    }
  }

  /** A grid without blanks has itself as its only completion. */
  lemma FullGridCompletesOnlyToItself(g: seq<int>, s: seq<int>)
    requires NoZeros(g) && SoundCompletion(g, s)
    ensures s == g
  {
  }

  lemma FullGridCompletesToItself(g: seq<int>)
    requires |g| == 81 && NoZeros(g)
    ensures SoundCompletion(g, g)
  {
  }

  /**
   * Filling a blank with a digit that passes the placement rule: the
   * completions of the new grid are exactly the completions of the old one
   * that hold that digit there.
   */
  lemma PlaceStep(g: seq<int>, z: int, num: int, s: seq<int>)
    requires |g| == 81 && 0 <= z < 81 && g[z] == 0 && 1 <= num <= 9 && Allowed(g, z, num)
    ensures SoundCompletion(g[z := num], s) <==> SoundCompletion(g, s) && s[z] == num
  {
    var h := g[z := num];
    if SoundCompletion(h, s) {
      forall i, j | 0 <= i < 81 && 0 <= j < 81 && i != j && Peers(i, j) && (g[i] == 0 || g[j] == 0)
        ensures s[i] != s[j]
      {
        if h[i] != 0 && h[j] != 0 {
          if i == z {
            assert Peers(z, j) && g[j] != num;
          } else {
            assert Peers(z, i) by { assert Peers(j, i); }
            assert g[i] != num;
          }
        }
      }
    }
  }

  /** A completion writes into a blank a digit that passes the placement rule there. */
  lemma CompletionDigitAllowed(g: seq<int>, z: int, s: seq<int>)
    requires SoundCompletion(g, s) && 0 <= z < 81 && g[z] == 0
    ensures 1 <= s[z] <= 9 && Allowed(g, z, s[z])
  {
    forall j | 0 <= j < 81 && Peers(z, j) ensures g[j] != s[z] {
      if j != z && g[j] != 0 {
        assert s[j] == g[j];
      }
    }
  }

  /** The solution agrees with every nonzero cell of p, so it completes p. */
  lemma SolvedCompletesAgreeing(p: seq<int>, s: seq<int>)
    requires Solved(s) && |p| == 81
    requires forall i :: 0 <= i < 81 ==> p[i] == 0 || p[i] == s[i]
    ensures SoundCompletion(p, s)
  {
  }

  lemma SolvedHasNoZeros(s: seq<int>)
    requires Solved(s)
    ensures NoZeros(s) && ZeroCount(s) == 0
  {
    NoZerosCount(s);
  }

  // ---------------------------------------------------------------------------
  // A solved grid exists: row r is the digit sequence 1..9 rotated by
  // 3 * (r % 3) + r / 3.

  function Shift(r: int): int { 3 * (r % 3) + r / 3 }

  /** x mod 9 for 0 <= x < 18. */
  function Wrap(x: int): int { if x >= 9 then x - 9 else x }

  function WitnessGrid(): (w: seq<int>)
    ensures |w| == 81
  {
    seq(81, i => Wrap(Shift(RowOf(i)) + ColOf(i)) + 1)
  }

  /**
   * With r = 3a + b and c = 3e + f, the witness digit is Wrap(3b + a + 3e + f) + 1;
   * two distinct cells of a common row, column or box get different digits.
   */
  lemma WitnessDigitsDiffer(a1: int, b1: int, e1: int, f1: int, a2: int, b2: int, e2: int, f2: int)
    requires 0 <= a1 < 3 && 0 <= b1 < 3 && 0 <= e1 < 3 && 0 <= f1 < 3
    requires 0 <= a2 < 3 && 0 <= b2 < 3 && 0 <= e2 < 3 && 0 <= f2 < 3
    requires (a1, b1, e1, f1) != (a2, b2, e2, f2)
    requires (a1 == a2 && b1 == b2) || (e1 == e2 && f1 == f2) || (a1 == a2 && e1 == e2)
    ensures Wrap(3 * b1 + a1 + 3 * e1 + f1) != Wrap(3 * b2 + a2 + 3 * e2 + f2)
  {
  }

  /** Cell i in row 3a + b and column 3e + f, and its witness digit. */
  lemma WitnessCell(i: int) returns (a: int, b: int, e: int, f: int)
    requires 0 <= i < 81
    ensures 0 <= a < 3 && 0 <= b < 3 && 0 <= e < 3 && 0 <= f < 3
    ensures i == At(3 * a + b, 3 * e + f)
    ensures RowOf(i) == 3 * a + b && ColOf(i) == 3 * e + f && RowOf(i) / 3 == a && ColOf(i) / 3 == e
    ensures WitnessGrid()[i] == Wrap(3 * b + a + 3 * e + f) + 1
  {
    Coords(i);
    var r, c := RowOf(i), ColOf(i);
    a, b := Thirds(r);
    e, f := Thirds(c);
    assert WitnessGrid()[i] == Wrap(Shift(r) + c) + 1;
  }

  /** r = 3a + b with a = r / 3 and b = r % 3. */
  lemma Thirds(r: int) returns (a: int, b: int)
    requires 0 <= r < 9
    ensures 0 <= a < 3 && 0 <= b < 3 && r == 3 * a + b && r / 3 == a && r % 3 == b
  {
    a, b := r / 3, r % 3;
  }

  lemma WitnessPeersDiffer(i: int, j: int)
    requires 0 <= i < 81 && 0 <= j < 81 && i != j && Peers(i, j)
    ensures WitnessGrid()[i] != WitnessGrid()[j]
  {
    var a1, b1, e1, f1 := WitnessCell(i);
    var a2, b2, e2, f2 := WitnessCell(j);
    WitnessDigitsDiffer(a1, b1, e1, f1, a2, b2, e2, f2);
  }

  lemma WitnessSolved()
    ensures Solved(WitnessGrid())
  {
    var w := WitnessGrid();
    forall i | 0 <= i < 81 ensures 1 <= w[i] <= 9 {
      var a, b, e, f := WitnessCell(i);
    }
    forall i, j | 0 <= i < 81 && 0 <= j < 81 && i != j && Peers(i, j) ensures w[i] != w[j] {
      WitnessPeersDiffer(i, j);
    }
  }

  // ---------------------------------------------------------------------------
  // Units of a solved grid hold each digit 1..9 exactly once.

  /** Distinct values, each drawn from a set with as many elements, cover that set. */
  lemma {:induction false} DistinctFillsSet(xs: seq<int>, t: set<int>)
    requires |xs| == |t|
    requires forall k :: 0 <= k < |xs| ==> xs[k] in t
    requires forall k, l :: 0 <= k < l < |xs| ==> xs[k] != xs[l]
    ensures forall d :: d in t ==> d in xs
  {
    if xs != [] {
      var t' := t - {xs[0]};
      assert |t'| == |t| - 1;
      forall k | 0 <= k < |xs| - 1 ensures xs[1..][k] in t' {
        assert xs[1..][k] == xs[k + 1] != xs[0];
      }
      DistinctFillsSet(xs[1..], t');
      forall d | d in t ensures d in xs {
        if d != xs[0] {
          assert d in xs[1..];
        }
      }
    }
  }

  /** The nine values of a unit cover the digits 1..9. */
  ghost predicate CoversDigits(s: seq<int>, cells: seq<int>)
    requires |s| == 81 && |cells| == 9 && forall k :: 0 <= k < 9 ==> 0 <= cells[k] < 81
  {
    forall d :: 1 <= d <= 9 ==> d in UnitValues(s, cells)
  }

  /** The digits held by the given cells, in order. */
  function UnitValues(s: seq<int>, cells: seq<int>): seq<int>
    requires |s| == 81 && |cells| == 9 && forall k :: 0 <= k < 9 ==> 0 <= cells[k] < 81
  {
    seq(9, k requires 0 <= k < 9 => s[cells[k]])
  }

  /** Nine pairwise-peer cells of a solved grid hold each digit 1..9 once. */
  lemma SolvedUnitIsPermutation(s: seq<int>, cells: seq<int>)
    requires Solved(s) && |cells| == 9
    requires forall k :: 0 <= k < 9 ==> 0 <= cells[k] < 81
    requires forall k, l :: 0 <= k < l < 9 ==> cells[k] != cells[l] && Peers(cells[k], cells[l])
    ensures CoversDigits(s, cells)
  {
    var vals := UnitValues(s, cells);
    var digits := {1, 2, 3, 4, 5, 6, 7, 8, 9};
    UnitValuesDistinct(s, cells);
    assert |digits| == 9;
    DistinctFillsSet(vals, digits);
  }

  lemma UnitValuesDistinct(s: seq<int>, cells: seq<int>)
    requires Solved(s) && |cells| == 9
    requires forall k :: 0 <= k < 9 ==> 0 <= cells[k] < 81
    requires forall k, l :: 0 <= k < l < 9 ==> cells[k] != cells[l] && Peers(cells[k], cells[l])
    ensures forall k :: 0 <= k < 9 ==> UnitValues(s, cells)[k] in {1, 2, 3, 4, 5, 6, 7, 8, 9}
    ensures forall k, l :: 0 <= k < l < 9 ==> UnitValues(s, cells)[k] != UnitValues(s, cells)[l]
  {
    var vals := UnitValues(s, cells);
    forall k | 0 <= k < 9 ensures vals[k] in {1, 2, 3, 4, 5, 6, 7, 8, 9} {
      assert 1 <= s[cells[k]] <= 9;
    }
    forall k, l | 0 <= k < l < 9 ensures vals[k] != vals[l] {
      assert Peers(cells[k], cells[l]);
    }
  }

  function RowCells(r: int): seq<int> { seq(9, c => At(r, c)) }

  function ColCells(c: int): seq<int> { seq(9, r => At(r, c)) }

  function BoxCells(b: int): seq<int> { seq(9, k => At(3 * (b / 3) + k / 3, 3 * (b % 3) + k % 3)) }

  lemma RowIsUnit(u: int)
    requires 0 <= u < 9
    ensures forall k :: 0 <= k < 9 ==> 0 <= RowCells(u)[k] < 81
    ensures forall k, l :: 0 <= k < l < 9 ==> RowCells(u)[k] != RowCells(u)[l] && Peers(RowCells(u)[k], RowCells(u)[l])
  {
    forall k | 0 <= k < 9 ensures 0 <= RowCells(u)[k] < 81 && RowOf(RowCells(u)[k]) == u {
      AtCoords(u, k);
    }
  }

  lemma ColIsUnit(u: int)
    requires 0 <= u < 9
    ensures forall k :: 0 <= k < 9 ==> 0 <= ColCells(u)[k] < 81
    ensures forall k, l :: 0 <= k < l < 9 ==> ColCells(u)[k] != ColCells(u)[l] && Peers(ColCells(u)[k], ColCells(u)[l])
  {
    forall k | 0 <= k < 9 ensures 0 <= ColCells(u)[k] < 81 && ColOf(ColCells(u)[k]) == u {
      AtCoords(k, u);
    }
  }

  lemma DivThree(q: int, a: int)
    requires 0 <= a < 3
    ensures (3 * q + a) / 3 == q
  {
  }

  /** Cell k of box b sits k / 3 rows and k % 3 columns into the box. */
  lemma BoxCellCoords(b: int, k: int)
    requires 0 <= b < 9 && 0 <= k < 9
    ensures 0 <= BoxCells(b)[k] < 81
    ensures RowOf(BoxCells(b)[k]) == 3 * (b / 3) + k / 3 && ColOf(BoxCells(b)[k]) == 3 * (b % 3) + k % 3
    ensures RowOf(BoxCells(b)[k]) / 3 == b / 3 && ColOf(BoxCells(b)[k]) / 3 == b % 3
  {
    var r, c := 3 * (b / 3) + k / 3, 3 * (b % 3) + k % 3;
    assert BoxCells(b)[k] == At(r, c);
    AtCoords(r, c);
    DivThree(b / 3, k / 3);
    DivThree(b % 3, k % 3);
  }

  lemma BoxIsUnit(u: int)
    requires 0 <= u < 9
    ensures forall k :: 0 <= k < 9 ==> 0 <= BoxCells(u)[k] < 81
    ensures forall k, l :: 0 <= k < l < 9 ==> BoxCells(u)[k] != BoxCells(u)[l] && Peers(BoxCells(u)[k], BoxCells(u)[l])
  {
    var cells := BoxCells(u);
    forall k | 0 <= k < 9 ensures 0 <= cells[k] < 81 {
      BoxCellCoords(u, k);
    }
    forall k, l | 0 <= k < l < 9 ensures cells[k] != cells[l] && Peers(cells[k], cells[l]) {
      BoxCellCoords(u, k);
      BoxCellCoords(u, l);
      assert SameBox(cells[k], cells[l]);
      assert k / 3 != l / 3 || k % 3 != l % 3;
    }
  }

  /** Every row, column and box of a solved grid is a permutation of 1..9. */
  lemma SolvedUnitsArePermutations(s: seq<int>, u: int)
    requires Solved(s) && 0 <= u < 9
    ensures CoversDigits(s, RowCells(u)) && CoversDigits(s, ColCells(u)) && CoversDigits(s, BoxCells(u))
  {
    RowIsUnit(u);
    SolvedUnitIsPermutation(s, RowCells(u));
    ColIsUnit(u);
    SolvedUnitIsPermutation(s, ColCells(u));
    BoxIsUnit(u);
    SolvedUnitIsPermutation(s, BoxCells(u));
  }
}
