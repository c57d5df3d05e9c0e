/**
 * findAllSolutions: bounded depth-first enumeration of the completions of a
 * grid, backtracking in place on a private copy.
 */
module Solver {
  import opened Grid
  import Shuffle

  /** No grid occurs twice in s from position lo on. */
  ghost predicate DistinctFrom(s: seq<seq<int>>, lo: nat) {
    forall a, b :: lo <= a < b < |s| ==> s[a] != s[b]
  }

  /**
   * The inner `find`: looks for the first blank in row-major order, tries
   * the digits 1..9 that pass isValid there, recursing after each placement
   * and clearing the cell afterwards. A grid without blanks is recorded.
   * `found` is the solutions array as it stands on entry; the call returns
   * it with this call's pushes appended. Nothing is pushed once `limit`
   * solutions are held.
   */
  method Find(cur: array<int>, limit: int, found: seq<seq<int>>) returns (out: seq<seq<int>>)
    requires cur.Length == 81
    modifies cur
    decreases ZeroCount(cur[..])
    ensures cur[..] == old(cur[..])
    ensures |found| <= |out| && out[..|found|] == found
    ensures |found| >= limit ==> out == found
    ensures |found| <= limit ==> |out| <= limit
    ensures forall k :: |found| <= k < |out| ==> SoundCompletion(old(cur[..]), out[k])
    ensures |out| < limit ==> forall s :: SoundCompletion(old(cur[..]), s) ==> s in out[|found|..]
    ensures DistinctFrom(out, |found|)
    ensures NoZeros(old(cur[..])) && |found| < limit ==> out == found + [old(cur[..])]
  {
    if |found| >= limit {
      return found;
    }
    ghost var g0 := cur[..];
    var row := 0;
    while row < 9
      invariant 0 <= row <= 9
      invariant cur[..] == g0
      invariant forall k :: 0 <= k < At(row, 0) ==> cur[k] != 0
    {
      var col := 0;
      while col < 9
        invariant 0 <= col <= 9
        invariant cur[..] == g0
        invariant forall k :: 0 <= k < At(row, col) ==> cur[k] != 0
      {
        if cur[At(row, col)] == 0 {
          out := TryDigits(cur, row, col, limit, found);
          return;
        }
        col := col + 1;
      }
      row := row + 1;
    }
    out := found + [cur[..]];
    FullGridCompletesToItself(g0);
    forall s | SoundCompletion(g0, s) ensures s in out[|found|..] {
      FullGridCompletesOnlyToItself(g0, s);
      assert out[|found|..] == [g0];
    }
  }

  /**
   * The digit loop of `find` at blank cell (row, col): place each digit
   * 1..9 that passes isValid, recurse, then clear the cell again.
   */
  method TryDigits(cur: array<int>, row: int, col: int, limit: int, found: seq<seq<int>>)
    returns (out: seq<seq<int>>)
    requires cur.Length == 81 && 0 <= row < 9 && 0 <= col < 9 && cur[At(row, col)] == 0
    requires |found| < limit
    modifies cur
    decreases ZeroCount(cur[..]), 0
    ensures cur[..] == old(cur[..])
    ensures |found| <= |out| <= limit && out[..|found|] == found
    ensures forall k :: |found| <= k < |out| ==> SoundCompletion(old(cur[..]), out[k])
    ensures |out| < limit ==> forall s :: SoundCompletion(old(cur[..]), s) ==> s in out[|found|..]
    ensures DistinctFrom(out, |found|)
  {
    ghost var g0 := cur[..];
    var z := At(row, col);
    AtCoords(row, col);
    out := found;
    var num := 1;
    while num <= 9
      invariant 1 <= num <= 10
      invariant cur[..] == g0
      invariant |found| <= |out| <= limit && out[..|found|] == found
      invariant forall k :: |found| <= k < |out| ==> SoundCompletion(g0, out[k])
      invariant |out| < limit ==> forall s :: SoundCompletion(g0, s) && s[z] < num ==> s in out[|found|..]
      invariant forall k :: |found| <= k < |out| ==> |out[k]| == 81 && out[k][z] < num
      invariant DistinctFrom(out, |found|)
    {
      if IsValid(cur[..], row, col, num) {
        cur[z] := num;
        ghost var placed := cur[..];
        assert placed == g0[z := num];
        ZeroCountFill(g0, z, num);
        var next := Find(cur, limit, out);
        cur[z] := 0;
        UndoWrite(g0, z, num);
        assert cur[..] == placed[z := 0] == g0;
        PlacementKeepsSoundness(g0, z, num, found, out, next);
        if |next| < limit {
          PlacementKeepsCoverage(g0, z, num, found, out, next);
        }
        PlacementKeepsDistinct(g0, z, num, found, out, next);
        PrefixOfPrefix(found, out, next);
        out := next;
      } else {
        RejectedDigitKeepsCoverage(g0, z, num, found, out, limit);
      }
      num := num + 1;
    }
    forall s | SoundCompletion(g0, s) ensures s[z] < 10 {
      CompletionDigitAllowed(g0, z, s);
    }
  }

  lemma PrefixOfPrefix(a: seq<seq<int>>, b: seq<seq<int>>, c: seq<seq<int>>)
    requires |a| <= |b| <= |c| && b[..|a|] == a && c[..|b|] == b
    ensures c[..|a|] == a
  {
    assert c[..|a|] == c[..|b|][..|a|];
  }

  /** A digit that fails the placement rule is held at z by no completion. */
  lemma RejectedDigitKeepsCoverage(g0: seq<int>, z: int, num: int, found: seq<seq<int>>, out: seq<seq<int>>, limit: int)
    requires |g0| == 81 && 0 <= z < 81 && g0[z] == 0 && !Allowed(g0, z, num) && |found| <= |out|
    requires |out| < limit ==> forall s :: SoundCompletion(g0, s) && s[z] < num ==> s in out[|found|..]
    ensures |out| < limit ==> forall s :: SoundCompletion(g0, s) && s[z] < num + 1 ==> s in out[|found|..]
  {
    forall s | SoundCompletion(g0, s) ensures s[z] != num {
      CompletionDigitAllowed(g0, z, s);
    }
  }

  /** The solutions pushed below a placement complete the grid before it. */
  lemma PlacementKeepsSoundness(g0: seq<int>, z: int, num: int, found: seq<seq<int>>, out: seq<seq<int>>, next: seq<seq<int>>)
    requires |g0| == 81 && 0 <= z < 81 && g0[z] == 0 && 1 <= num <= 9 && Allowed(g0, z, num)
    requires |found| <= |out| <= |next| && next[..|out|] == out
    requires forall k :: |found| <= k < |out| ==> SoundCompletion(g0, out[k])
    requires forall k :: |out| <= k < |next| ==> SoundCompletion(g0[z := num], next[k])
    ensures forall k :: |found| <= k < |next| ==> SoundCompletion(g0, next[k])
  {
    forall k | |found| <= k < |next| ensures SoundCompletion(g0, next[k]) {
      if k >= |out| {
        PlaceStep(g0, z, num, next[k]);
      } else {
        assert next[k] == out[k];
      }
    }
  }

  /**
   * The grids pushed below a placement of num at z hold num there, while
   * those pushed before hold a smaller digit, so no grid is pushed twice.
   */
  lemma PlacementKeepsDistinct(g0: seq<int>, z: int, num: int, found: seq<seq<int>>, out: seq<seq<int>>, next: seq<seq<int>>)
    requires |g0| == 81 && 0 <= z < 81 && 1 <= num <= 9
    requires |found| <= |out| <= |next| && next[..|out|] == out
    requires forall k :: |found| <= k < |out| ==> |out[k]| == 81 && out[k][z] < num
    requires DistinctFrom(out, |found|)
    requires forall k :: |out| <= k < |next| ==> SoundCompletion(g0[z := num], next[k])
    requires DistinctFrom(next, |out|)
    ensures forall k :: |found| <= k < |next| ==> |next[k]| == 81 && next[k][z] < num + 1
    ensures DistinctFrom(next, |found|)
  {
    forall k | |found| <= k < |next| ensures |next[k]| == 81 && next[k][z] <= num {
      if k < |out| {
        assert next[k] == out[k];
      } else {
        assert next[k][z] == num;
      }
    }
    forall a, b | |found| <= a < b < |next| ensures next[a] != next[b] {
      if b < |out| {
        assert next[a] == out[a] && next[b] == out[b];
      } else if a < |out| {
        assert next[a][z] == out[a][z] < num == next[b][z];
      }
    }
  }

  /** A repeat-free list holds each element at most once. */
  lemma {:induction false} DistinctCount(s: seq<seq<int>>, x: seq<int>)
    requires DistinctFrom(s, 0)
    ensures multiset(s)[x] <= 1
  {
    if s != [] {
      var m := |s| - 1;
      assert s == s[..m] + [s[m]];
      assert DistinctFrom(s[..m], 0);
      DistinctCount(s[..m], x);
      if s[m] == x {
        assert x !in s[..m];
        assert multiset(s[..m])[x] == 0;
      }
    }
  }

  /** A list with a repeat holds that element at least twice. */
  lemma RepeatCount(s: seq<seq<int>>, a: int, b: int)
    requires 0 <= a < b < |s| && s[a] == s[b]
    ensures multiset(s)[s[a]] >= 2
  {
    assert s == s[..b] + [s[b]] + s[b + 1..];
    assert s[..b][a] == s[a];
    assert multiset(s[..b])[s[a]] >= 1;
  }

  /** A reordering of a repeat-free list is repeat-free. */
  lemma PermutationKeepsDistinct(found: seq<seq<int>>, shuffled: seq<seq<int>>)
    requires multiset(shuffled) == multiset(found) && DistinctFrom(found, 0)
    ensures DistinctFrom(shuffled, 0)
  {
    forall a, b | 0 <= a < b < |shuffled| ensures shuffled[a] != shuffled[b] {
      if shuffled[a] == shuffled[b] {
        RepeatCount(shuffled, a, b);
        DistinctCount(found, shuffled[a]);
        assert false;
      }
    }
  }

  /**
   * If no limit cut the search short, every completion holding a digit up
   * to num at z has been collected.
   */
  lemma PlacementKeepsCoverage(g0: seq<int>, z: int, num: int, found: seq<seq<int>>, out: seq<seq<int>>, next: seq<seq<int>>)
    requires |g0| == 81 && 0 <= z < 81 && g0[z] == 0 && 1 <= num <= 9 && Allowed(g0, z, num)
    requires |found| <= |out| <= |next| && next[..|out|] == out
    requires forall s :: SoundCompletion(g0, s) && s[z] < num ==> s in out[|found|..]
    requires forall s :: SoundCompletion(g0[z := num], s) ==> s in next[|out|..]
    ensures forall s :: SoundCompletion(g0, s) && s[z] < num + 1 ==> s in next[|found|..]
  {
    forall s | SoundCompletion(g0, s) && s[z] < num + 1 ensures s in next[|found|..] {
      if s[z] == num {
        PlaceStep(g0, z, num, s);
        assert s in next[|out|..];
        var k' :| 0 <= k' < |next| - |out| && next[|out|..][k'] == s;
        assert next[|found|..][|out| + k' - |found|] == s;
      } else {
        var k :| |found| <= k < |out| && out[k] == s;
        assert next[k] == s;
        assert next[|found|..][k - |found|] == s;
      }
    }
  }

  /**
   * findAllSolutions(grid, limit): runs `find` on a deep copy of grid (the
   * caller's grid is only read) and returns the collected solutions in a
   * shuffled order. Every returned grid completes `grid`, at most `limit`
   * are returned, and when fewer than `limit` come back they are all the
   * completions there are.
   */
  method FindAllSolutions(grid: array<int>, limit: int := 2000) returns (solutions: seq<seq<int>>)
    requires grid.Length == 81
    ensures |solutions| <= if limit < 0 then 0 else limit
    ensures forall s :: s in solutions ==> SoundCompletion(grid[..], s)
    ensures |solutions| < limit ==> forall s :: SoundCompletion(grid[..], s) ==> s in solutions
    ensures forall a, b :: 0 <= a < b < |solutions| ==> solutions[a] != solutions[b]
    ensures NoZeros(grid[..]) && limit >= 1 ==> solutions == [grid[..]]
  {
    var cur := new int[81](i reads grid requires 0 <= i < 81 => grid[i]);
    assert cur[..] == grid[..];
    var found := Find(cur, limit, []);
    var bag := new seq<int>[|found|](i requires 0 <= i < |found| => found[i]);
    assert bag[..] == found;
    var shuffled := Shuffle.Shuffle(bag);
    solutions := shuffled[..];
    assert multiset(solutions) == multiset(found);
    PermutationKeepsDistinct(found, solutions);
    assert |solutions| == |found| by {
      assert |multiset(solutions)| == |multiset(found)|;
    }
    forall s | s in solutions ensures s in found {
      assert s in multiset(solutions);
    }
    if |solutions| < limit {
      forall s | SoundCompletion(grid[..], s) ensures s in solutions {
        assert s in found[0..];
        assert s in multiset(found);
      }
    }
    if NoZeros(grid[..]) && limit >= 1 {
      assert found == [grid[..]];
      assert multiset(solutions) == multiset{grid[..]};
      assert |solutions| == 1;
      assert solutions[0] in multiset(solutions);
    }
  }
}
