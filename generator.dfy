/**
 * generateSudoku: fill a grid, then blank cells in a shuffled order while
 * the puzzle keeps exactly one solution; retry with fresh grids a bounded
 * number of times and fall back to the best attempt.
 */
module Generator {
  import opened Grid
  import Shuffle
  import Solver
  import Filler

  /** The bound on fresh grids tried before the best attempt is returned. */
  const MaxAttempts := 30

  datatype Option<T> = None | Some(value: T)

  /** A generated pair: the puzzle handed to the player and the grid it came from. */
  datatype Puzzle = Puzzle(puzzle: seq<int>, solution: seq<int>)

  /** Every puzzle cell is blank or holds the solution's digit. */
  ghost predicate Agrees(p: seq<int>, s: seq<int>) {
    |p| == 81 && |s| == 81 && forall k :: 0 <= k < 81 ==> p[k] == 0 || p[k] == s[k]
  }

  /** The most cells a target of `removals` lets the generator blank. */
  function Target(removals: int): (n: nat)
    ensures removals >= 0 ==> n == removals
    ensures removals <= 0 ==> n == 0
  {
    if removals < 0 then 0 else removals
  }

  /**
   * What every puzzle the generator returns satisfies: its solution is a
   * solved grid, the puzzle only blanks cells of it, the solution is the
   * puzzle's one and only completion, and no more than `removals` cells are blank.
   */
  ghost predicate WellFormed(p: Puzzle, removals: int) {
    Solved(p.solution) && Agrees(p.puzzle, p.solution) &&
    UniqueCompletion(p.puzzle, p.solution) && ZeroCount(p.puzzle) <= Target(removals)
  }

  /**
   * Cell c is blank, or blanking it would leave the puzzle with a completion
   * other than the solution: the removal loop has nothing more to do there.
   */
  ghost predicate Settled(p: seq<int>, s: seq<int>, c: int) {
    0 <= c < |p| && (p[c] == 0 || !UniqueCompletion(p[c := 0], s))
  }

  /** No given of the puzzle can be blanked with the solution staying its only completion. */
  ghost predicate Exhausted(p: Puzzle) {
    forall c :: 0 <= c < 81 ==> Settled(p.puzzle, p.solution, c)
  }

  /**
   * One pass of generateSudoku's attempt loop: a fresh empty grid is filled,
   * copied into solution and puzzle, and the cells are visited in shuffled
   * order until `removals` of them are blank. A blanked cell is kept only
   * when findAllSolutions(puzzle, 2) comes back with exactly one grid;
   * otherwise its digit is put back.
   */
  method Attempt(removals: int) returns (p: Puzzle, removedCount: int)
    ensures WellFormed(p, removals) && ZeroCount(p.puzzle) == removedCount
    ensures removedCount < Target(removals) ==> Exhausted(p)
  {
    var solution := NewSolution();
    var puzzle := new int[81](k requires 0 <= k < 81 => solution[k]);
    assert puzzle[..] == solution;
    var cells := RemovalOrder();
    ghost var order := cells[..];
    SolvedHasNoZeros(solution);
    FullGridCompletesToItself(solution);
    SolutionOnlyCompletesToItself(solution);
    removedCount := 0;
    ghost var visited := 0;
    for t := 0 to 81
      invariant cells[..] == order
      invariant Agrees(puzzle[..], solution)
      invariant UniqueCompletion(puzzle[..], solution)
      invariant ZeroCount(puzzle[..]) == removedCount <= Target(removals)
      invariant visited == t
      invariant forall k :: 0 <= k < t ==> Settled(puzzle[..], solution, order[k])
    {
      if removedCount >= removals {
        break;
      }
      ghost var before := puzzle[..];
      var kept := TryRemoval(puzzle, solution, cells[t]);
      SettledStep(before, puzzle[..], solution, order, t, kept);
      if kept {
        removedCount := removedCount + 1;
      }
      visited := t + 1;
    }
    p := Puzzle(puzzle[..], solution);
    if removedCount < Target(removals) {
      assert visited == 81;
      forall c | 0 <= c < 81 ensures Settled(p.puzzle, p.solution, c) {
        assert c in order;
        var k :| 0 <= k < 81 && order[k] == c;
      }
    }
  }

  /**
   * The start of an attempt: createEmptyGrid() filled by fillGrid, which
   * always succeeds from an empty board, so the copy taken is a solved grid.
   */
  method NewSolution() returns (solution: seq<int>)
    ensures Solved(solution)
  {
    var grid := CreateEmptyGrid();
    var filled := Filler.FillGrid(grid);
    Filler.EmptyGridIsFillable();
    assert filled;
    SolvedIsCompletionOfEmpty(grid[..]);
    solution := grid[..];
  }

  /** The cell indices 0..80 in a shuffled order: the order in which cells are tried. */
  method RemovalOrder() returns (cells: array<int>)
    ensures fresh(cells) && cells.Length == 81
    ensures forall t :: 0 <= t < 81 ==> 0 <= cells[t] < 81
    ensures multiset(cells[..]) == multiset(seq(81, k => k))
    ensures forall c :: 0 <= c < 81 ==> c in cells[..]
  {
    cells := new int[81](k => k);
    ghost var ids := cells[..];
    assert ids == seq(81, k => k);
    cells := Shuffle.Shuffle(cells);
    ShuffledCells(ids, cells[..]);
  }

  /**
   * One visit of the removal loop at cell cellIndex: a blank cell is skipped;
   * otherwise the cell is blanked and the blank kept only when
   * findAllSolutions(puzzle, 2) returns exactly one grid, else its digit is
   * put back. The solution stays the puzzle's only completion either way.
   */
  method TryRemoval(puzzle: array<int>, ghost solution: seq<int>, cellIndex: int) returns (kept: bool)
    requires puzzle.Length == 81 && 0 <= cellIndex < 81
    requires Solved(solution) && Agrees(puzzle[..], solution) && UniqueCompletion(puzzle[..], solution)
    modifies puzzle
    ensures Agrees(puzzle[..], solution) && UniqueCompletion(puzzle[..], solution)
    ensures kept <==> old(puzzle[cellIndex]) != 0 && UniqueCompletion(old(puzzle[..])[cellIndex := 0], solution)
    ensures kept ==> old(puzzle[cellIndex]) != 0 && puzzle[..] == old(puzzle[..])[cellIndex := 0]
    ensures kept ==> ZeroCount(puzzle[..]) == ZeroCount(old(puzzle[..])) + 1
    ensures !kept ==> puzzle[..] == old(puzzle[..])
  {
    var row, col := cellIndex / 9, cellIndex % 9;
    assert At(row, col) == cellIndex;
    if puzzle[At(row, col)] == 0 {
      return false;
    }
    var temp := puzzle[At(row, col)];
    ghost var before := puzzle[..];
    puzzle[At(row, col)] := 0;
    ghost var after := puzzle[..];
    assert after == before[cellIndex := 0];
    var solutions := Solver.FindAllSolutions(puzzle, 2);
    UniqueMeansOneFound(after, solution, solutions);
    if |solutions| != 1 {
      puzzle[At(row, col)] := temp;
      UndoWrite(before, cellIndex, 0);
      assert puzzle[..] == after[cellIndex := temp];
      kept := false;
    } else {
      KeptRemoval(before, solution, cellIndex, solutions);
      UndoWrite(before, cellIndex, 0);
      ZeroCountFill(after, cellIndex, temp);
      kept := true;
    }
  }

  /**
   * One visit of the removal loop keeps every cell visited so far settled:
   * the visited cell by TryRemoval's outcome, the earlier ones because
   * blanking one more cell only adds completions.
   */
  lemma SettledStep(before: seq<int>, after: seq<int>, solution: seq<int>, order: seq<int>, t: int, kept: bool)
    requires Solved(solution) && Agrees(before, solution)
    requires |order| == 81 && 0 <= t < 81 && forall k :: 0 <= k < 81 ==> 0 <= order[k] < 81
    requires forall k :: 0 <= k < t ==> Settled(before, solution, order[k])
    requires kept <==> before[order[t]] != 0 && UniqueCompletion(before[order[t] := 0], solution)
    requires kept ==> after == before[order[t] := 0]
    requires !kept ==> after == before
    ensures forall k :: 0 <= k < t + 1 ==> Settled(after, solution, order[k])
  {
    forall k | 0 <= k < t + 1 ensures Settled(after, solution, order[k]) {
      if kept && k < t {
        BlankKeepsSettled(before, solution, order[t], order[k]);
      }
    }
  }

  /** Blanking cell z keeps an already settled cell c settled. */
  lemma BlankKeepsSettled(before: seq<int>, solution: seq<int>, z: int, c: int)
    requires Solved(solution) && Agrees(before, solution) && 0 <= z < 81
    requires Settled(before, solution, c)
    ensures Settled(before[z := 0], solution, c)
  {
    var after := before[z := 0];
    if after[c] != 0 {
      var t :| SoundCompletion(before[c := 0], t) && t != solution;
      MoreBlanksKeepCompletion(before[c := 0], after[c := 0], solution, t);
    }
  }

  /**
   * A completion of a puzzle drawn from a solved grid is still a completion
   * when more of its cells are blanked.
   */
  lemma MoreBlanksKeepCompletion(g: seq<int>, g': seq<int>, solution: seq<int>, t: seq<int>)
    requires Solved(solution) && Agrees(g, solution) && Agrees(g', solution)
    requires forall i :: 0 <= i < 81 && g'[i] != 0 ==> g[i] == g'[i]
    requires SoundCompletion(g, t)
    ensures SoundCompletion(g', t)
  {
    forall i | 0 <= i < 81 && g'[i] == 0 ensures 1 <= t[i] <= 9 {
      if g[i] != 0 {
        assert t[i] == solution[i];
      }
    }
    forall i, j | 0 <= i < 81 && 0 <= j < 81 && i != j && Peers(i, j) && (g'[i] == 0 || g'[j] == 0)
      ensures t[i] != t[j]
    {
      if g[i] != 0 && g[j] != 0 {
        assert t[i] == solution[i] && t[j] == solution[j];
      }
    }
  }

  /** A shuffled copy of the cell indices 0..80 still lists only cell indices. */
  lemma ShuffledCells(ids: seq<int>, order: seq<int>)
    requires |ids| == 81 && forall k :: 0 <= k < 81 ==> ids[k] == k
    requires multiset(order) == multiset(ids)
    ensures |order| == 81 && forall t :: 0 <= t < 81 ==> 0 <= order[t] < 81
    ensures forall c :: 0 <= c < 81 ==> c in order
  {
    assert |multiset(order)| == |multiset(ids)|;
    forall c | 0 <= c < 81 ensures c in order {
      assert ids[c] == c;
      assert c in multiset(ids);
    }
    forall t | 0 <= t < |order| ensures 0 <= order[t] < 81 {
      assert order[t] in multiset(ids);
    }
  }

  /** A solved grid, with nothing blanked, has itself as its only completion. */
  lemma SolutionOnlyCompletesToItself(s: seq<int>)
    requires Solved(s)
    ensures UniqueCompletion(s, s)
  {
    SolvedHasNoZeros(s);
    forall t | SoundCompletion(s, t) ensures t == s {
      FullGridCompletesOnlyToItself(s, t);
    }
  }

  /**
   * Blanking cell z of a puzzle that agrees with the solution, when the
   * bounded search of the result found exactly one grid among all there are:
   * the solution is the only completion of the blanked puzzle.
   */
  lemma KeptRemoval(before: seq<int>, solution: seq<int>, z: int, solutions: seq<seq<int>>)
    requires Solved(solution) && Agrees(before, solution) && 0 <= z < 81
    requires |solutions| == 1
    requires forall s :: SoundCompletion(before[z := 0], s) ==> s in solutions
    ensures Agrees(before[z := 0], solution) && UniqueCompletion(before[z := 0], solution)
  {
    var after := before[z := 0];
    SolvedCompletesAgreeing(after, solution);
    assert solution in solutions;
    forall t | SoundCompletion(after, t) ensures t == solution {
      assert t in solutions;
    }
  }

  /**
   * When the solution is the blanked puzzle's only completion, the bounded
   * search with limit 2 returns exactly one grid: every grid it returns is
   * that completion and none is returned twice, and with fewer than two
   * results the search has collected every completion, the solution included.
   */
  lemma UniqueMeansOneFound(after: seq<int>, solution: seq<int>, solutions: seq<seq<int>>)
    requires forall s :: s in solutions ==> SoundCompletion(after, s)
    requires |solutions| < 2 ==> forall s :: SoundCompletion(after, s) ==> s in solutions
    requires forall a, b :: 0 <= a < b < |solutions| ==> solutions[a] != solutions[b]
    ensures UniqueCompletion(after, solution) ==> |solutions| == 1
  {
    if UniqueCompletion(after, solution) {
      FirstTwoDiffer(solutions);
      assert |solutions| < 2;
      assert solution in solutions;
    }
  }

  lemma FirstTwoDiffer(solutions: seq<seq<int>>)
    requires forall a, b :: 0 <= a < b < |solutions| ==> solutions[a] != solutions[b]
    ensures |solutions| >= 2 ==>
      solutions[0] in solutions && solutions[1] in solutions && solutions[0] != solutions[1]
  {
  }

  /** A puzzle without blanks that agrees with the solution is the solution. */
  lemma NoBlanksMeansSolution(p: seq<int>, s: seq<int>)
    requires Agrees(p, s) && ZeroCount(p) == 0
    ensures p == s
  {
    NoZerosCount(p);
  }

  /**
   * generateSudoku(removals): up to MaxAttempts attempts. The first attempt
   * that blanks `removals` cells is returned; otherwise the attempt that
   * blanked the most cells (the earliest among equals) is. `tries` records
   * how many cells each attempt blanked, in order.
   */
  method GenerateSudoku(removals: int) returns (result: Option<Puzzle>, ghost tries: seq<int>)
    ensures result.Some? && WellFormed(result.value, removals)
    ensures removals <= 0 ==> result.value.puzzle == result.value.solution
    ensures 1 <= |tries| <= MaxAttempts
    ensures forall k :: 0 <= k < |tries| - 1 ==> tries[k] < removals
    ensures tries[|tries| - 1] >= removals ==> ZeroCount(result.value.puzzle) == Target(removals)
    ensures tries[|tries| - 1] < removals ==>
      |tries| == MaxAttempts && ZeroCount(result.value.puzzle) in tries && Exhausted(result.value) &&
      forall k :: 0 <= k < |tries| ==> tries[k] <= ZeroCount(result.value.puzzle)
  {
    var bestPuzzle: Option<Puzzle> := None;
    var bestRemovedCount := -1;
    var attempts := 0;
    tries := [];
    while attempts < MaxAttempts
      invariant 0 <= attempts <= MaxAttempts && |tries| == attempts
      invariant forall k :: 0 <= k < attempts ==> tries[k] < removals
      invariant attempts == 0 <==> bestPuzzle.None?
      invariant attempts == 0 ==> bestRemovedCount == -1
      invariant bestPuzzle.Some? ==>
        WellFormed(bestPuzzle.value, removals) &&
        ZeroCount(bestPuzzle.value.puzzle) == bestRemovedCount && bestRemovedCount in tries &&
        Exhausted(bestPuzzle.value) &&
        forall k :: 0 <= k < attempts ==> tries[k] <= bestRemovedCount
    {
      var p, removedCount := Attempt(removals);
      tries := tries + [removedCount];
      if removedCount >= removals {
        if removals <= 0 {
          NoBlanksMeansSolution(p.puzzle, p.solution);
        }
        return Some(p), tries;
      }
      if removedCount > bestRemovedCount {
        bestRemovedCount := removedCount;
        bestPuzzle := Some(p);
      }
      attempts := attempts + 1;
    }
    result := bestPuzzle;
  }
}
