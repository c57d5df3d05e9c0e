/**
 * fillGrid: randomized backtracking that completes a grid in place and
 * stops at the first complete assignment.
 */
module Filler {
  import opened Grid
  import Shuffle

  /** The digit list [1, 2, ..., 9] that fillGrid shuffles at every blank. */
  function Digits(): seq<int> { [1, 2, 3, 4, 5, 6, 7, 8, 9] }

  /** A shuffled digit list still holds every digit 1..9, and nothing else. */
  lemma ShuffledDigits(numbers: seq<int>)
    requires multiset(numbers) == multiset(Digits())
    ensures |numbers| == 9
    ensures forall k :: 0 <= k < 9 ==> 1 <= numbers[k] <= 9
    ensures forall d :: 1 <= d <= 9 ==> d in numbers
  {
    assert |multiset(numbers)| == |multiset(Digits())|;
    forall k | 0 <= k < |numbers| ensures 1 <= numbers[k] <= 9 {
      ListedIsDigit(numbers, numbers[k]);
    }
    forall d | 1 <= d <= 9 ensures d in numbers {
      DigitIsListed(numbers, d);
    }
  }

  lemma ListedIsDigit(numbers: seq<int>, d: int)
    requires multiset(numbers) == multiset(Digits()) && d in numbers
    ensures 1 <= d <= 9
  {
    assert d in multiset(Digits());
  }

  lemma DigitIsListed(numbers: seq<int>, d: int)
    requires multiset(numbers) == multiset(Digits()) && 1 <= d <= 9
    ensures d in numbers
  {
    assert Digits()[d - 1] == d;
    assert multiset(Digits())[d] > 0;
  }

  /**
   * fillGrid(grid): finds the first blank in row-major order and hands it to
   * TryNumbers; a grid without blanks is already complete and yields true.
   * False leaves the grid as it was and is returned only when the grid has
   * no completion at all.
   */
  method FillGrid(grid: array<int>) returns (ok: bool)
    requires grid.Length == 81
    modifies grid
    decreases ZeroCount(grid[..]), 1
    ensures ok ==> NoZeros(grid[..]) && SoundCompletion(old(grid[..]), grid[..])
    ensures !ok ==> grid[..] == old(grid[..]) && forall s :: !SoundCompletion(old(grid[..]), s)
  {
    ghost var g0 := grid[..];
    for i := 0 to 81
      invariant grid[..] == g0
      invariant forall k :: 0 <= k < i ==> grid[k] != 0
    {
      var row, col := i / 9, i % 9;
      assert At(row, col) == i;
      if grid[At(row, col)] == 0 {
        ok := TryNumbers(grid, row, col);
        return;
      }
    }
    FullGridCompletesToItself(grid[..]);
    return true;
  }

  /**
   * The body of fillGrid's loop at its first blank (row, col): the digits
   * 1..9 in a shuffled order, each one that passes isValid written and
   * followed by a recursive fillGrid; success ends the search, a failed
   * placement is reset to 0, and running out of digits yields false.
   */
  method TryNumbers(grid: array<int>, row: int, col: int) returns (ok: bool)
    requires grid.Length == 81 && 0 <= row < 9 && 0 <= col < 9 && grid[At(row, col)] == 0
    modifies grid
    decreases ZeroCount(grid[..]), 0
    ensures ok ==> NoZeros(grid[..]) && SoundCompletion(old(grid[..]), grid[..])
    ensures !ok ==> grid[..] == old(grid[..]) && forall s :: !SoundCompletion(old(grid[..]), s)
  {
    ghost var g0 := grid[..];
    var i := At(row, col);
    var numbers := new int[9](k => k + 1);
    assert numbers[..] == Digits();
    numbers := Shuffle.Shuffle(numbers);
    ghost var order := numbers[..];
    ShuffledDigits(order);
    for t := 0 to 9
      invariant grid[..] == g0 && numbers[..] == order
      invariant forall s, k :: SoundCompletion(g0, s) && 0 <= k < t ==> s[i] != order[k]
    {
      var num := numbers[t];
      if IsValid(grid[..], row, col, num) {
        grid[i] := num;
        ghost var placed := grid[..];
        assert placed == g0[i := num];
        ZeroCountFill(g0, i, num);
        ok := FillGrid(grid);
        if ok {
          PlaceStep(g0, i, num, grid[..]);
          return;
        }
        grid[i] := 0;
        UndoWrite(g0, i, num);
        assert grid[..] == placed[i := 0];
        DeadEndDigit(g0, i, num, placed);
      } else {
        RejectedDigit(g0, i, num);
      }
      RuleOut(g0, i, order, t);
    }
    NoDigitLeft(g0, i, order);
    return false;
  }

  /** One more digit of the list is ruled out at blank z. */
  lemma RuleOut(g: seq<int>, z: int, order: seq<int>, t: int)
    requires 0 <= z < 81 && 0 <= t < |order|
    requires forall s, k :: SoundCompletion(g, s) && 0 <= k < t ==> s[z] != order[k]
    requires forall s :: SoundCompletion(g, s) ==> s[z] != order[t]
    ensures forall s, k :: SoundCompletion(g, s) && 0 <= k < t + 1 ==> s[z] != order[k]
  {
  }

  /** A digit that isValid rejects is the digit of no completion at that blank. */
  lemma RejectedDigit(g: seq<int>, z: int, num: int)
    requires |g| == 81 && 0 <= z < 81 && g[z] == 0 && !Allowed(g, z, num)
    ensures forall s :: SoundCompletion(g, s) ==> s[z] != num
  {
    forall s | SoundCompletion(g, s) ensures s[z] != num {
      CompletionDigitAllowed(g, z, s);
    }
  }

  /** A digit whose placement has no completion is the digit of no completion of the grid. */
  lemma DeadEndDigit(g: seq<int>, z: int, num: int, placed: seq<int>)
    requires |g| == 81 && 0 <= z < 81 && g[z] == 0 && 1 <= num <= 9 && Allowed(g, z, num)
    requires placed == g[z := num] && forall s :: !SoundCompletion(placed, s)
    ensures forall s :: SoundCompletion(g, s) ==> s[z] != num
  {
    forall s | SoundCompletion(g, s) ensures s[z] != num {
      PlaceStep(g, z, num, s);
    }
  }

  /** When every digit of the list was ruled out at a blank, the grid has no completion. */
  lemma NoDigitLeft(g: seq<int>, z: int, numbers: seq<int>)
    requires |g| == 81 && 0 <= z < 81 && g[z] == 0 && |numbers| == 9
    requires forall d :: 1 <= d <= 9 ==> d in numbers
    requires forall s, k :: SoundCompletion(g, s) && 0 <= k < 9 ==> s[z] != numbers[k]
    ensures forall s :: !SoundCompletion(g, s)
  {
    RuledOutNotListed(g, z, numbers);
    CompletionDigitListed(g, z, numbers);
  }

  lemma RuledOutNotListed(g: seq<int>, z: int, numbers: seq<int>)
    requires 0 <= z < 81 && |numbers| == 9
    requires forall s, k :: SoundCompletion(g, s) && 0 <= k < 9 ==> s[z] != numbers[k]
    ensures forall s :: SoundCompletion(g, s) ==> s[z] !in numbers
  {
    forall s | SoundCompletion(g, s) ensures s[z] !in numbers {
      assert forall k :: 0 <= k < |numbers| ==> numbers[k] != s[z];
    }
  }

  lemma CompletionDigitListed(g: seq<int>, z: int, numbers: seq<int>)
    requires |g| == 81 && 0 <= z < 81 && g[z] == 0
    requires forall d :: 1 <= d <= 9 ==> d in numbers
    ensures forall s :: SoundCompletion(g, s) ==> s[z] in numbers
  {
    forall s | SoundCompletion(g, s) ensures s[z] in numbers {
      CompletionDigitAllowed(g, z, s);
    }
  }

  /**
   * What fillGrid leaves when started from createEmptyGrid() and returning
   * true: a solved grid whose every row, column and box holds each digit 1..9.
   */
  lemma FilledEmptyGridUnits(s: seq<int>)
    requires SoundCompletion(EmptyGrid(), s)
    ensures Solved(s)
    ensures forall u :: 0 <= u < 9 ==>
      CoversDigits(s, RowCells(u)) && CoversDigits(s, ColCells(u)) && CoversDigits(s, BoxCells(u))
  {
    SolvedIsCompletionOfEmpty(s);
    forall u | 0 <= u < 9
      ensures CoversDigits(s, RowCells(u)) && CoversDigits(s, ColCells(u)) && CoversDigits(s, BoxCells(u))
    {
      SolvedUnitsArePermutations(s, u);
    }
  }

  /** Starting from createEmptyGrid(), fillGrid always succeeds and leaves a solved grid. */
  lemma EmptyGridIsFillable()
    ensures exists s :: SoundCompletion(EmptyGrid(), s)
  {
    WitnessSolved();
    SolvedIsCompletionOfEmpty(WitnessGrid());
  }
}
