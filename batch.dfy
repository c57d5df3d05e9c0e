/**
 * The batch planner of the generation worker: split the requested number of
 * puzzles across the chosen difficulties, generate them difficulty by
 * difficulty, and report progress with a remaining-time estimate after each
 * puzzle, followed by one result record holding every puzzle.
 */
module Batch {
  import Generator

  /** JavaScript's `%`: the remainder takes the sign of the dividend. */
  function JsRem(a: int, b: int): (r: int)
    requires b > 0
    ensures a >= 0 ==> 0 <= r < b
    ensures a < 0 ==> -b < r <= 0
  {
    if a >= 0 then a % b else -((-a) % b)
  }

  /** JavaScript's quotient truncated toward zero, the partner of JsRem. */
  function JsQuot(a: int, b: int): int
    requires b > 0
  {
    if a >= 0 then a / b else -((-a) / b)
  }

  /** The dividend is recovered from the truncated quotient and the remainder. */
  lemma JsDivision(a: int, b: int)
    requires b > 0
    ensures a == b * JsQuot(a, b) + JsRem(a, b)
  {
    if a < 0 {
      assert -a == b * ((-a) / b) + (-a) % b;
    }
  }

  /** What numberToTime prints, as the pair of numbers it prints. */
  datatype TimeLabel = TimeLabel(minutes: int, seconds: int)

  /**
   * numberToTime(t): whole minutes of t milliseconds (rounded down), and the
   * whole seconds (rounded down) of the JavaScript remainder modulo one minute.
   */
  function NumberToTime(t: int): (time: TimeLabel)
    ensures t >= 0 ==> 0 <= time.minutes && 0 <= time.seconds < 60
    ensures t >= 0 ==> time.minutes * 60000 + time.seconds * 1000 <= t < time.minutes * 60000 + time.seconds * 1000 + 1000
    ensures t < 0 ==> time.minutes < 0 && -60 <= time.seconds <= 0
  {
    TimeLabel(t / 60000, JsRem(t, 60000) / 1000)
  }

  /** For t >= 0 the label is the only (minutes, seconds) pair that brackets t. */
  lemma NumberToTimeUnique(t: int, minutes: int, seconds: int)
    requires t >= 0 && 0 <= seconds < 60
    requires minutes * 60000 + seconds * 1000 <= t < minutes * 60000 + seconds * 1000 + 1000
    ensures NumberToTime(t) == TimeLabel(minutes, seconds)
  {
    var time := NumberToTime(t);
    var x, y := time.minutes * 60 + time.seconds, minutes * 60 + seconds;
    assert time.minutes * 60000 + time.seconds * 1000 == 1000 * x;
    assert minutes * 60000 + seconds * 1000 == 1000 * y;
    assert x == y;
  }

  // ---------------------------------------------------------------------------
  // Splitting the total across the difficulties.

  /**
   * counts: every difficulty gets floor(total / n) puzzles, and the first
   * `total % n` difficulties (JavaScript remainder) get one more.
   */
  function Counts(total: int, n: int): (counts: seq<int>)
    requires n > 0
    ensures |counts| == n
    ensures total >= 0 ==> forall idx :: 0 <= idx < n ==> total / n <= counts[idx] <= total / n + 1
  {
    var share, extra := total / n, JsRem(total, n);
    seq(n, idx => share + (if idx < extra then 1 else 0))
  }

  function Sum(s: seq<int>): int {
    if s == [] then 0 else Sum(s[..|s| - 1]) + s[|s| - 1]
  }

  /** The counts differ from floor(total / n) by one exactly at the first total % n positions. */
  lemma CountsShape(total: int, n: int)
    requires n > 0 && total >= 0
    ensures forall idx :: 0 <= idx < n ==>
      (Counts(total, n)[idx] == total / n + 1 <==> idx < total % n) &&
      (Counts(total, n)[idx] == total / n || Counts(total, n)[idx] == total / n + 1)
  {
  }

  /** The counts add up to the requested total. */
  lemma CountsSum(total: int, n: int)
    requires n > 0 && total >= 0
    ensures Sum(Counts(total, n)) == total
  {
    var counts := Counts(total, n);
    CountsPrefixSum(total, n, n);
    assert counts[..n] == counts;
  }

  lemma {:induction false} CountsPrefixSum(total: int, n: int, k: int)
    requires n > 0 && total >= 0 && 0 <= k <= n
    ensures Sum(Counts(total, n)[..k]) == k * (total / n) + (if k < total % n then k else total % n)
  {
    var counts := Counts(total, n);
    if k > 0 {
      CountsPrefixSum(total, n, k - 1);
      assert counts[..k][..k - 1] == counts[..k - 1];
      assert k * (total / n) == (k - 1) * (total / n) + total / n;
    }
  }

  // ---------------------------------------------------------------------------
  // The plan: which difficulty every generated puzzle belongs to, in order.

  /** Per-puzzle settings of one difficulty; `estimatedTime` is in milliseconds. */
  datatype Difficulty = Difficulty(removals: int, estimatedTime: int, level: int)

  function Repeat(key: string, n: nat): (keys: seq<string>)
    ensures |keys| == n && forall k :: 0 <= k < n ==> keys[k] == key
  {
    seq(n, _ => key)
  }

  lemma RepeatStep(prefix: seq<string>, key: string, n: nat)
    ensures prefix + Repeat(key, n) + [key] == prefix + Repeat(key, n + 1)
  {
    assert Repeat(key, n + 1) == Repeat(key, n) + [key];
  }

  /** The difficulty key of every generation call, in the order the loops make them. */
  function Planned(chosen: seq<string>, counts: seq<int>): (keys: seq<string>)
    requires |counts| == |chosen|
  {
    if chosen == [] then []
    else
      var d := |chosen| - 1;
      Planned(chosen[..d], counts[..d]) + Repeat(chosen[d], if counts[d] < 0 then 0 else counts[d])
  }

  /** With no negative count, the plan has Sum(counts) entries. */
  lemma {:induction false} PlannedLength(chosen: seq<string>, counts: seq<int>)
    requires |counts| == |chosen| && forall d :: 0 <= d < |counts| ==> counts[d] >= 0
    ensures |Planned(chosen, counts)| == Sum(counts)
  {
    if chosen != [] {
      var d := |chosen| - 1;
      PlannedLength(chosen[..d], counts[..d]);
    }
  }

  /** The time estimates of the given keys, added up. */
  function PlannedTime(keys: seq<string>, settings: map<string, Difficulty>): int
    requires forall k :: k in keys ==> k in settings
  {
    if keys == [] then 0
    else PlannedTime(keys[..|keys| - 1], settings) + settings[keys[|keys| - 1]].estimatedTime
  }

  /** The initial estimate: counts[d] times difficulty d's estimate, summed over d. */
  function InitialEstimate(chosen: seq<string>, counts: seq<int>, settings: map<string, Difficulty>): (estimate: int)
    requires |counts| == |chosen| && forall k :: k in chosen ==> k in settings
    ensures
      ((forall d :: 0 <= d < |counts| ==> counts[d] >= 0) &&
       (forall k :: k in chosen ==> settings[k].estimatedTime >= 0))
      ==> estimate >= 0
    ensures (forall d :: 0 <= d < |counts| ==> counts[d] == 0) ==> estimate == 0
  {
    if chosen == [] then 0
    else
      var d := |chosen| - 1;
      InitialEstimate(chosen[..d], counts[..d], settings) + counts[d] * settings[chosen[d]].estimatedTime
  }

  lemma {:induction false} PlannedTimeAppend(a: seq<string>, b: seq<string>, settings: map<string, Difficulty>)
    requires forall k :: k in a ==> k in settings
    requires forall k :: k in b ==> k in settings
    ensures PlannedTime(a + b, settings) == PlannedTime(a, settings) + PlannedTime(b, settings)
  {
    if b != [] {
      var m := |b| - 1;
      assert (a + b)[..|a + b| - 1] == a + b[..m];
      PlannedTimeAppend(a, b[..m], settings);
    } else {
      assert a + b == a;
    }
  }

  lemma {:induction false} PlannedTimeRepeat(key: string, n: nat, settings: map<string, Difficulty>)
    requires key in settings
    ensures PlannedTime(Repeat(key, n), settings) == n * settings[key].estimatedTime
  {
    if n > 0 {
      assert Repeat(key, n)[..n - 1] == Repeat(key, n - 1);
      PlannedTimeRepeat(key, n - 1, settings);
    }
  }

  lemma PlannedKeys(chosen: seq<string>, counts: seq<int>)
    requires |counts| == |chosen|
    ensures forall k :: k in Planned(chosen, counts) ==> k in chosen
  {
    if chosen != [] {
      var d := |chosen| - 1;
      PlannedKeys(chosen[..d], counts[..d]);
      forall k | k in chosen[..d] ensures k in chosen {
        var j :| 0 <= j < d && chosen[..d][j] == k;
        assert chosen[j] == k;
      }
    }
  }

  /**
   * With no negative count, the initial estimate is the estimate of every
   * planned puzzle added up, so it is used up exactly by the last puzzle.
   */
  lemma {:induction false} EstimateCoversPlan(chosen: seq<string>, counts: seq<int>, settings: map<string, Difficulty>)
    requires |counts| == |chosen| && forall k :: k in chosen ==> k in settings
    requires forall d :: 0 <= d < |counts| ==> counts[d] >= 0
    ensures forall k :: k in Planned(chosen, counts) ==> k in settings
    ensures InitialEstimate(chosen, counts, settings) == PlannedTime(Planned(chosen, counts), settings)
  {
    PlannedKeys(chosen, counts);
    if chosen != [] {
      var d := |chosen| - 1;
      var earlier, last := Planned(chosen[..d], counts[..d]), Repeat(chosen[d], counts[d]);
      assert forall k :: k in chosen[..d] ==> k in chosen;
      EstimateCoversPlan(chosen[..d], counts[..d], settings);
      assert Planned(chosen, counts) == earlier + last;
      PlannedTimeAppend(earlier, last, settings);
      PlannedTimeRepeat(chosen[d], counts[d], settings);
    }
  }

  // ---------------------------------------------------------------------------
  // The generation loop.

  /** One entry of the puzzle list: the generated pair and its difficulty's level. */
  datatype GeneratedPuzzle = GeneratedPuzzle(puzzle: seq<int>, solution: seq<int>, difficulty: int)

  /** The two records the worker sends: a progress record per puzzle, then the result. */
  datatype Message =
    | Progress(generated: int, total: int, estimatedTime: TimeLabel)
    | Result(puzzles: seq<GeneratedPuzzle>)

  /** Entry e was generated for difficulty d: it carries d's level and is well formed for d's removals. */
  ghost predicate Tagged(e: GeneratedPuzzle, d: Difficulty) {
    e.difficulty == d.level && Generator.WellFormed(Generator.Puzzle(e.puzzle, e.solution), d.removals)
  }

  /** The progress record emitted after the n-th generation call of `done`. */
  function ProgressAfter(done: seq<string>, n: int, total: int, estimate: int, settings: map<string, Difficulty>): Message
    requires 0 <= n <= |done| && forall k :: k in done ==> k in settings
  {
    Progress(n, total, NumberToTime(estimate - PlannedTime(done[..n], settings)))
  }

  /**
   * After the generation calls for `done`: one entry per call, tagged with
   * its difficulty, and one progress record per call carrying the count so
   * far and the estimate less the estimates of the calls made so far.
   */
  ghost predicate Log(messages: seq<Message>, puzzles: seq<GeneratedPuzzle>, done: seq<string>,
                      total: int, estimate: int, settings: map<string, Difficulty>)
  {
    (forall k :: k in done ==> k in settings) &&
    |messages| == |puzzles| == |done| &&
    (forall k :: 0 <= k < |done| ==> Tagged(puzzles[k], settings[done[k]])) &&
    forall k :: 0 <= k < |done| ==> messages[k] == ProgressAfter(done, k + 1, total, estimate, settings)
  }

  lemma LogStep(messages: seq<Message>, puzzles: seq<GeneratedPuzzle>, done: seq<string>,
                total: int, estimate: int, settings: map<string, Difficulty>, key: string, entry: GeneratedPuzzle)
    requires Log(messages, puzzles, done, total, estimate, settings) && key in settings
    requires Tagged(entry, settings[key])
    ensures forall k :: k in done + [key] ==> k in settings
    ensures PlannedTime(done + [key], settings) == PlannedTime(done, settings) + settings[key].estimatedTime
    ensures Log(messages + [ProgressAfter(done + [key], |done| + 1, total, estimate, settings)],
                puzzles + [entry], done + [key], total, estimate, settings)
  {
    var done' := done + [key];
    assert done'[..|done|] == done;
    assert forall k :: k in done' ==> k in settings;
    EntriesStep(puzzles, done, settings, key, entry);
    ProgressStep(messages, done, total, estimate, settings, key,
                 messages + [ProgressAfter(done', |done| + 1, total, estimate, settings)], done');
  }

  lemma EntriesStep(puzzles: seq<GeneratedPuzzle>, done: seq<string>, settings: map<string, Difficulty>,
                    key: string, entry: GeneratedPuzzle)
    requires |puzzles| == |done| && key in settings && forall k :: k in done ==> k in settings
    requires forall k :: 0 <= k < |done| ==> Tagged(puzzles[k], settings[done[k]])
    requires Tagged(entry, settings[key])
    ensures forall k :: 0 <= k < |done| + 1 ==> Tagged((puzzles + [entry])[k], settings[(done + [key])[k]])
  {
    forall k | 0 <= k < |done| + 1 ensures Tagged((puzzles + [entry])[k], settings[(done + [key])[k]]) {
      if k < |done| {
        assert (puzzles + [entry])[k] == puzzles[k] && (done + [key])[k] == done[k];
      }
    }
  }

  lemma ProgressStep(messages: seq<Message>, done: seq<string>, total: int, estimate: int,
                     settings: map<string, Difficulty>, key: string, messages': seq<Message>, done': seq<string>)
    requires |messages| == |done| && key in settings && forall k :: k in done ==> k in settings
    requires forall k :: 0 <= k < |done| ==> messages[k] == ProgressAfter(done, k + 1, total, estimate, settings)
    requires done' == done + [key]
    requires forall k :: k in done' ==> k in settings
    requires messages' == messages + [ProgressAfter(done', |done| + 1, total, estimate, settings)]
    ensures forall k :: 0 <= k < |done'| ==> messages'[k] == ProgressAfter(done', k + 1, total, estimate, settings)
  {
    forall k | 0 <= k < |done'| ensures messages'[k] == ProgressAfter(done', k + 1, total, estimate, settings) {
      if k < |done| {
        assert done'[..k + 1] == done[..k + 1];
        assert messages'[k] == messages[k];
      }
    }
  }

  /**
   * The inner loop for one difficulty: `count` calls to
   * generateSudoku(difficulty.removals), each followed by appending the
   * tagged puzzle, lowering the estimate and emitting a progress record.
   */
  method GenerateLevel(key: string, difficulty: Difficulty, count: int, totalSudokus: int,
                       ghost estimate: int, ghost settings: map<string, Difficulty>,
                       messages0: seq<Message>, puzzles0: seq<GeneratedPuzzle>, time0: int, ghost done0: seq<string>)
    returns (messages: seq<Message>, puzzles: seq<GeneratedPuzzle>, estimatedTime: int, ghost done: seq<string>)
    requires key in settings && settings[key] == difficulty
    requires Log(messages0, puzzles0, done0, totalSudokus, estimate, settings)
    requires time0 == estimate - PlannedTime(done0, settings)
    ensures done == done0 + Repeat(key, if count < 0 then 0 else count)
    ensures Log(messages, puzzles, done, totalSudokus, estimate, settings)
    ensures estimatedTime == estimate - PlannedTime(done, settings)
  {
    messages, puzzles, estimatedTime, done := messages0, puzzles0, time0, done0;
    var i := 0;
    while i < count
      invariant 0 <= i && (i <= count || i == 0)
      invariant done == done0 + Repeat(key, i)
      invariant Log(messages, puzzles, done, totalSudokus, estimate, settings)
      invariant estimatedTime == estimate - PlannedTime(done, settings)
    {
      messages, puzzles, estimatedTime :=
        GenerateOne(key, difficulty, totalSudokus, estimate, settings, messages, puzzles, estimatedTime, done);
      RepeatStep(done0, key, i);
      done := done + [key];
      i := i + 1;
    }
  }

  /**
   * One turn of the inner loop: generateSudoku(difficulty.removals), the
   * entry appended with the difficulty's level, the estimate lowered by the
   * difficulty's estimate, and a progress record emitted.
   */
  method GenerateOne(key: string, difficulty: Difficulty, totalSudokus: int,
                     ghost estimate: int, ghost settings: map<string, Difficulty>,
                     messages0: seq<Message>, puzzles0: seq<GeneratedPuzzle>, time0: int, ghost done0: seq<string>)
    returns (messages: seq<Message>, puzzles: seq<GeneratedPuzzle>, estimatedTime: int)
    requires key in settings && settings[key] == difficulty
    requires Log(messages0, puzzles0, done0, totalSudokus, estimate, settings)
    requires time0 == estimate - PlannedTime(done0, settings)
    ensures forall k :: k in done0 + [key] ==> k in settings
    ensures Log(messages, puzzles, done0 + [key], totalSudokus, estimate, settings)
    ensures estimatedTime == estimate - PlannedTime(done0 + [key], settings)
  {
    var result;
    ghost var tries;
    result, tries := Generator.GenerateSudoku(difficulty.removals);
    ghost var entry := GeneratedPuzzle(result.value.puzzle, result.value.solution, difficulty.level);
    assert Generator.Puzzle(entry.puzzle, entry.solution) == result.value;
    LogStep(messages0, puzzles0, done0, totalSudokus, estimate, settings, key, entry);
    puzzles := puzzles0;
    if result.Some? {
      puzzles := puzzles + [GeneratedPuzzle(result.value.puzzle, result.value.solution, difficulty.level)];
    }
    assert puzzles == puzzles0 + [entry];
    estimatedTime := time0 - difficulty.estimatedTime;
    assert (done0 + [key])[..|done0| + 1] == done0 + [key];
    assert Progress(|puzzles|, totalSudokus, NumberToTime(estimatedTime)) ==
           ProgressAfter(done0 + [key], |done0| + 1, totalSudokus, estimate, settings);
    messages := messages0 + [Progress(|puzzles|, totalSudokus, NumberToTime(estimatedTime))];
  }

  /**
   * The worker's message handler, without the messaging: the counts and the
   * initial estimate are computed, then for every chosen difficulty in order
   * generateSudoku(removals) is called counts[d] times; each puzzle is
   * appended with its level, the estimate goes down by the difficulty's
   * estimate and a progress record is emitted. The result record closes the
   * sequence. An unknown difficulty key makes the source throw, so every
   * chosen key must name a setting; an empty choice is refused by the caller.
   */
  method RunBatch(totalSudokus: int, chosen: seq<string>, settings: map<string, Difficulty>)
    returns (messages: seq<Message>)
    requires |chosen| > 0 && forall k :: k in chosen ==> k in settings
    ensures var counts := Counts(totalSudokus, |chosen|);
            var plan := Planned(chosen, counts);
            |messages| == |plan| + 1 && messages[|plan|].Result? &&
            Log(messages[..|plan|], messages[|plan|].puzzles, plan, totalSudokus,
                InitialEstimate(chosen, counts, settings), settings)
  {
    var counts := Counts(totalSudokus, |chosen|);
    var estimatedTime := InitialEstimate(chosen, counts, settings);
    ghost var estimate := estimatedTime;
    var generatedPuzzles: seq<GeneratedPuzzle> := [];
    messages := [];
    ghost var done: seq<string> := [];
    for d := 0 to |chosen|
      invariant done == Planned(chosen[..d], counts[..d])
      invariant Log(messages, generatedPuzzles, done, totalSudokus, estimate, settings)
      invariant estimatedTime == estimate - PlannedTime(done, settings)
    {
      var key := chosen[d];
      messages, generatedPuzzles, estimatedTime, done :=
        GenerateLevel(key, settings[key], counts[d], totalSudokus, estimate, settings,
                      messages, generatedPuzzles, estimatedTime, done);
      PlannedStep(chosen, counts, d);
    }
    assert chosen[..|chosen|] == chosen && counts[..|chosen|] == counts;
    ghost var progress := messages;
    messages := messages + [Result(generatedPuzzles)];
    assert messages[..|done|] == progress;
  }

  /** The plan of the first d + 1 difficulties extends that of the first d. */
  lemma PlannedStep(chosen: seq<string>, counts: seq<int>, d: int)
    requires |counts| == |chosen| && 0 <= d < |chosen|
    ensures Planned(chosen[..d + 1], counts[..d + 1]) ==
            Planned(chosen[..d], counts[..d]) + Repeat(chosen[d], if counts[d] < 0 then 0 else counts[d])
  {
    assert chosen[..d + 1][..d] == chosen[..d] && counts[..d + 1][..d] == counts[..d];
  }

  /** With a non-negative total no count is negative. */
  lemma CountsNonNegative(total: int, n: int)
    requires n > 0 && total >= 0
    ensures forall d :: 0 <= d < n ==> Counts(total, n)[d] >= 0
  {
    assert total / n >= 0;
  }

  /**
   * For a positive total: the plan holds exactly totalSudokus calls, and the
   * progress record after the last of them reports all of them generated and
   * the estimate used up (0m 0s).
   */
  lemma FinalProgress(totalSudokus: int, chosen: seq<string>, settings: map<string, Difficulty>)
    requires |chosen| > 0 && forall k :: k in chosen ==> k in settings
    requires totalSudokus > 0
    ensures var counts := Counts(totalSudokus, |chosen|);
            var plan := Planned(chosen, counts);
            |plan| == totalSudokus && (forall k :: k in plan ==> k in settings) &&
            ProgressAfter(plan, |plan|, totalSudokus, InitialEstimate(chosen, counts, settings), settings) ==
              Progress(totalSudokus, totalSudokus, TimeLabel(0, 0))
  {
    var counts := Counts(totalSudokus, |chosen|);
    CountsNonNegative(totalSudokus, |chosen|);
    CountsSum(totalSudokus, |chosen|);
    PlannedLength(chosen, counts);
    EstimateCoversPlan(chosen, counts, settings);
    var plan := Planned(chosen, counts);
    assert plan[..|plan|] == plan;
    NumberToTimeUnique(0, 0, 0);
  }

  /**
   * What RunBatch returns, for a positive total: totalSudokus progress
   * records and the result, the last progress record reading
   * totalSudokus of totalSudokus generated with 0m 0s left.
   */
  lemma BatchAccounting(totalSudokus: int, chosen: seq<string>, settings: map<string, Difficulty>, messages: seq<Message>)
    requires |chosen| > 0 && forall k :: k in chosen ==> k in settings
    requires totalSudokus > 0
    requires var counts := Counts(totalSudokus, |chosen|);
             var plan := Planned(chosen, counts);
             |messages| == |plan| + 1 && messages[|plan|].Result? &&
             Log(messages[..|plan|], messages[|plan|].puzzles, plan, totalSudokus,
                 InitialEstimate(chosen, counts, settings), settings)
    ensures |messages| == totalSudokus + 1
    ensures messages[totalSudokus - 1] == Progress(totalSudokus, totalSudokus, TimeLabel(0, 0))
  {
    FinalProgress(totalSudokus, chosen, settings);
    var plan := Planned(chosen, Counts(totalSudokus, |chosen|));
    assert messages[..|plan|][|plan| - 1] == messages[|plan| - 1];
  }
}
