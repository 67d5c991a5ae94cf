/** The pure parts of the exercise session engine of App.tsx: the tier pool,
    the not-yet-shown entries, the scaling of a `Math.random()` sample to an
    index or a repetition count, one draw as a whole, and the calorie update.
    A `Math.random()` sample is passed in as a real in [0, 1). */
module Selection {
  import opened Types

  /** What a `Math.random()` call can return. */
  predicate IsSample(x: real) {
    0.0 <= x < 1.0
  }

  /** A value a `Math.random()` call returned. */
  type Sample = x: real | IsSample(x) witness 0.0

  /** The catalog constants the engine depends on: every tier has at least
      one entry (otherwise App.tsx:57 reads past an empty array) and every
      repetition range is non-empty (App.tsx:61). */
  predicate CatalogOk(catalog: seq<Exercise>, config: DifficultyConfig) {
    forall d: Difficulty :: Pool(catalog, d) != [] && config.RangeOf(d).lo <= config.RangeOf(d).hi
  }

  /** The catalog entries of tier `d`, in catalog order (App.tsx:45). */
  function Pool(catalog: seq<Exercise>, d: Difficulty): (pool: seq<Exercise>)
    ensures forall e :: e in pool <==> e in catalog && d in e.difficulty
  {
    if catalog == [] then []
    else
      assert forall e :: e in catalog <==> e == catalog[0] || e in catalog[1..];
      (if d in catalog[0].difficulty then [catalog[0]] else []) + Pool(catalog[1..], d)
  }

  /** The entries of `pool` whose id is not in `used`, in pool order (App.tsx:48). */
  function Unused(pool: seq<Exercise>, used: set<string>): (available: seq<Exercise>)
    ensures forall e :: e in available <==> e in pool && e.id !in used
  {
    if pool == [] then []
    else
      assert forall e :: e in pool <==> e == pool[0] || e in pool[1..];
      (if pool[0].id !in used then [pool[0]] else []) + Unused(pool[1..], used)
  }

  /** The ids of a list of entries. */
  function Ids(s: seq<Exercise>): (ids: set<string>)
    ensures forall e :: e in s ==> e.id in ids
  {
    if s == [] then {}
    else
      assert forall e :: e in s ==> e == s[0] || e in s[1..];
      {s[0].id} + Ids(s[1..])
  }

  /** `Ids` holds the ids of the list's entries and nothing else. */
  lemma {:induction false} IdsExact(s: seq<Exercise>)
    ensures Ids(s) == set e | e in s :: e.id
  {
    if s != [] {
      IdsExact(s[1..]);
      assert forall e :: e in s <==> e == s[0] || e in s[1..];
    }
  }

  /** Nothing is left to show exactly when every id of the pool has been used
      (the test at App.tsx:51). */
  lemma {:induction false} ExhaustedIff(pool: seq<Exercise>, used: set<string>)
    ensures Unused(pool, used) == [] <==> Ids(pool) <= used
  {
    if pool != [] {
      ExhaustedIff(pool[1..], used);
      assert Ids(pool) == {pool[0].id} + Ids(pool[1..]);
      assert Unused(pool, used) == (if pool[0].id !in used then [pool[0]] else []) + Unused(pool[1..], used);
    }
  }

  /** `Math.floor(sample * n)`: the index the source derives from a sample
      (App.tsx:57) and the offset inside a repetition range (App.tsx:61). */
  function ScaledIndex(sample: Sample, n: int): (i: int)
    requires n > 0
    ensures 0 <= i < n
  {
    assert IsSample(sample);
    var x := sample * n as real;
    assert 0.0 <= x;
    assert x < n as real by {
      assert (n as real) - x == (1.0 - sample) * (n as real);
    }
    x.Floor
  }

  /** Every index below `n` is reached by some sample, so the samples stand
      for the injected choice of any index. */
  lemma ScaledIndexReaches(i: int, n: int)
    requires 0 <= i < n
    ensures IsSample(i as real / n as real)
    ensures ScaledIndex(i as real / n as real, n) == i
  {
    var s := i as real / n as real;
    assert s * (n as real) == i as real;
    assert s < 1.0 by {
      assert (i as real) < n as real;
    }
  }

  /** The repetition count of a tier (App.tsx:60-61): the floor of the
      sample scaled to the range width, added to the range's low end. */
  function RepCount(range: RepRange, sample: Sample): (reps: int)
    requires range.lo <= range.hi
    ensures range.lo <= reps <= range.hi
  {
    ScaledIndex(sample, range.hi - range.lo + 1) + range.lo
  }

  /** Every count in the inclusive range is reached by some sample. */
  lemma RepCountReaches(range: RepRange, reps: int)
    requires range.lo <= reps <= range.hi
    ensures var s := (reps - range.lo) as real / (range.hi - range.lo + 1) as real;
      IsSample(s) && RepCount(range, s) == reps
  {
    ScaledIndexReaches(reps - range.lo, range.hi - range.lo + 1);
  }

  /** The outcome of one draw: the entry picked, its repetition count, and
      whether the used set had to be cleared first. */
  datatype Draw = Draw(exercise: Exercise, reps: int, wrapped: bool)

  /** One draw for tier `d` given the ids already shown (App.tsx:45-61):
      pick among the unused pool entries, or among the whole pool when none
      is left, then scale the second sample to the tier's range. */
  function DrawFrom(catalog: seq<Exercise>, config: DifficultyConfig, d: Difficulty,
                    used: set<string>, pick: Sample, repSample: Sample): (r: Draw)
    requires Pool(catalog, d) != []
    requires config.RangeOf(d).lo <= config.RangeOf(d).hi
    ensures r.exercise in Pool(catalog, d)
    ensures r.exercise in catalog && d in r.exercise.difficulty
    ensures r.wrapped <==> Ids(Pool(catalog, d)) <= used
    ensures !r.wrapped ==> r.exercise.id !in used
    ensures config.RangeOf(d).lo <= r.reps <= config.RangeOf(d).hi
  {
    var pool := Pool(catalog, d);
    var available := Unused(pool, used);
    ExhaustedIff(pool, used);
    var from := if available == [] then pool else available;
    var i := ScaledIndex(pick, |from|);
    assert from[i] in from;
    Draw(from[i], RepCount(config.RangeOf(d), repSample), available == [])
  }

  /** The used set after a draw (App.tsx:53, 70): cleared on a wrap, and in
      every case extended with the id just picked. */
  function NextUsed(used: set<string>, r: Draw): (next: set<string>)
    ensures r.exercise.id in next && next <= used + {r.exercise.id}
    ensures !r.wrapped ==> used <= next
    ensures r.wrapped ==> next == {r.exercise.id}
  {
    (if r.wrapped then {} else used) + {r.exercise.id}
  }

  /** What recording draw `r` does to a used set `used` inside the pool ids
      `ids`: the set stays inside `ids` and holds the new pick; a wrap
      happens only on a full set and leaves just the new pick; otherwise the
      set grows by exactly that one id. */
  predicate RecordsDraw(used: set<string>, r: Draw, ids: set<string>) {
    var next := NextUsed(used, r);
    && next <= ids
    && r.exercise.id in next
    && (r.wrapped ==> used == ids && next == {r.exercise.id})
    && (!r.wrapped ==> next == used + {r.exercise.id} && |next| == |used| + 1)
  }

  /** Every draw records its pick as `RecordsDraw` says (App.tsx:51-55, 70). */
  lemma DrawUpdatesUsed(catalog: seq<Exercise>, config: DifficultyConfig, d: Difficulty,
                        used: set<string>, pick: Sample, repSample: Sample)
    requires Pool(catalog, d) != []
    requires config.RangeOf(d).lo <= config.RangeOf(d).hi
    requires used <= Ids(Pool(catalog, d))
    ensures RecordsDraw(used, DrawFrom(catalog, config, d, used, pick, repSample), Ids(Pool(catalog, d)))
  {
    var ids := Ids(Pool(catalog, d));
    var r := DrawFrom(catalog, config, d, used, pick, repSample);
    assert r.exercise in Pool(catalog, d);
    assert r.exercise.id in ids;
    var next := NextUsed(used, r);
    if !r.wrapped {
      assert next == used + {r.exercise.id};
      assert r.exercise.id !in used;
    }
  }

  /** A draw from a pool that still has unshown ids picks one of them, and
      leaves one unshown id fewer. */
  lemma FreshDraw(catalog: seq<Exercise>, config: DifficultyConfig, d: Difficulty,
                  used: set<string>, pick: Sample, repSample: Sample)
    requires Pool(catalog, d) != []
    requires config.RangeOf(d).lo <= config.RangeOf(d).hi
    requires used <= Ids(Pool(catalog, d))
    requires |Ids(Pool(catalog, d)) - used| > 0
    ensures var r := DrawFrom(catalog, config, d, used, pick, repSample);
      var next := NextUsed(used, r);
      && !r.wrapped
      && r.exercise.id in Ids(Pool(catalog, d)) - used
      && next <= Ids(Pool(catalog, d))
      && Ids(Pool(catalog, d)) - next == (Ids(Pool(catalog, d)) - used) - {r.exercise.id}
      && |Ids(Pool(catalog, d)) - next| == |Ids(Pool(catalog, d)) - used| - 1
  {
    var ids := Ids(Pool(catalog, d));
    var r := DrawFrom(catalog, config, d, used, pick, repSample);
    assert !(ids <= used) by {
      var x :| x in ids - used;
    }
    assert r.exercise.id in ids;
    var next := NextUsed(used, r);
    assert next == used + {r.exercise.id};
    RemoveFresh(ids, used, r.exercise.id);
  }

  /** Recording one more id of `ids` shrinks the not-yet-shown part by one. */
  lemma RemoveFresh(ids: set<string>, used: set<string>, x: string)
    requires x in ids && x !in used
    ensures ids - (used + {x}) == (ids - used) - {x}
    ensures |ids - (used + {x})| == |ids - used| - 1
  {
    assert ids - used == (ids - (used + {x})) + {x};
  }

  /** Successive draws for one tier, each seeing the used set the previous
      one left, as successive completions do (App.tsx:93). */
  function Run(catalog: seq<Exercise>, config: DifficultyConfig, d: Difficulty,
               used: set<string>, samples: seq<(Sample, Sample)>): (draws: seq<Draw>)
    requires Pool(catalog, d) != []
    requires config.RangeOf(d).lo <= config.RangeOf(d).hi
    ensures |draws| == |samples|
    decreases |samples|
  {
    if samples == [] then []
    else
      var r := DrawFrom(catalog, config, d, used, samples[0].0, samples[0].1);
      [r] + Run(catalog, config, d, NextUsed(used, r), samples[1..])
  }

  /** The ids picked by a list of draws. */
  function PickedIds(draws: seq<Draw>): set<string> {
    set r | r in draws :: r.exercise.id
  }

  /** Every draw of the list picks an id of `unshown`, without a wrap. */
  predicate PicksFrom(draws: seq<Draw>, unshown: set<string>) {
    forall j :: 0 <= j < |draws| ==> !draws[j].wrapped && draws[j].exercise.id in unshown
  }

  /** No two draws of the list pick the same id. */
  predicate DistinctPicks(draws: seq<Draw>) {
    forall i, j :: 0 <= i < j < |draws| ==> draws[i].exercise.id != draws[j].exercise.id
  }

  /** No repeat before exhaustion: as long as the draws do not outnumber the
      pool ids not yet shown, no draw wraps, each picks an unshown id, and
      no two pick the same id. */
  lemma {:induction false} NoRepeatBeforeExhaustion(catalog: seq<Exercise>, config: DifficultyConfig,
                                                    d: Difficulty, used: set<string>,
                                                    samples: seq<(Sample, Sample)>)
    requires Pool(catalog, d) != []
    requires config.RangeOf(d).lo <= config.RangeOf(d).hi
    requires used <= Ids(Pool(catalog, d))
    requires |samples| <= |Ids(Pool(catalog, d)) - used|
    ensures PicksFrom(Run(catalog, config, d, used, samples), Ids(Pool(catalog, d)) - used)
    ensures DistinctPicks(Run(catalog, config, d, used, samples))
    decreases |samples|
  {
    if samples != [] {
      var ids := Ids(Pool(catalog, d));
      var r := DrawFrom(catalog, config, d, used, samples[0].0, samples[0].1);
      var next := NextUsed(used, r);
      FreshDraw(catalog, config, d, used, samples[0].0, samples[0].1);
      var rest := Run(catalog, config, d, next, samples[1..]);
      NoRepeatBeforeExhaustion(catalog, config, d, next, samples[1..]);
      assert Run(catalog, config, d, used, samples) == [r] + rest;
      ConsPicks(r, rest, ids - used, ids - next);
    }
  }

  /** Putting a draw of an unshown id in front of draws of the ids still
      unshown after it keeps the picks inside the unshown set and distinct. */
  lemma ConsPicks(r: Draw, rest: seq<Draw>, unshown: set<string>, left: set<string>)
    requires !r.wrapped && r.exercise.id in unshown && r.exercise.id !in left
    requires left <= unshown
    requires PicksFrom(rest, left) && DistinctPicks(rest)
    ensures PicksFrom([r] + rest, unshown) && DistinctPicks([r] + rest)
  {
    var draws := [r] + rest;
    forall j | 0 < j < |draws| ensures draws[j] == rest[j - 1] {
    }
    forall i, j | 0 <= i < j < |draws|
      ensures draws[i].exercise.id != draws[j].exercise.id
    {
      if i == 0 {
        assert draws[j].exercise.id in left;
      }
    }
  }

  /** Every id gets shown: starting from a used set inside the pool, the
      first `m` draws, `m` being the number of pool ids not yet shown, pick
      every one of those ids. */
  lemma {:induction false} AllShownBeforeWrap(catalog: seq<Exercise>, config: DifficultyConfig,
                                              d: Difficulty, used: set<string>,
                                              samples: seq<(Sample, Sample)>)
    requires Pool(catalog, d) != []
    requires config.RangeOf(d).lo <= config.RangeOf(d).hi
    requires used <= Ids(Pool(catalog, d))
    requires |samples| >= |Ids(Pool(catalog, d)) - used|
    ensures PickedIds(Run(catalog, config, d, used, samples)[..|Ids(Pool(catalog, d)) - used|])
      == Ids(Pool(catalog, d)) - used
    decreases |samples|
  {
    var ids := Ids(Pool(catalog, d));
    var m := |ids - used|;
    if m == 0 {
      assert Run(catalog, config, d, used, samples)[..m] == [];
    } else {
      var r := DrawFrom(catalog, config, d, used, samples[0].0, samples[0].1);
      var next := NextUsed(used, r);
      var rest := Run(catalog, config, d, next, samples[1..]);
      assert Run(catalog, config, d, used, samples) == [r] + rest;
      FreshDraw(catalog, config, d, used, samples[0].0, samples[0].1);
      assert |ids - next| == m - 1 && ids - next == (ids - used) - {r.exercise.id};
      AllShownBeforeWrap(catalog, config, d, next, samples[1..]);
      assert PickedIds(rest[..m - 1]) == ids - next;
      ShownCons(r, rest, m - 1, ids - used, ids - next);
    }
  }

  /** The picks of the first `k + 1` draws of `[r] + rest` are the unshown
      set when `r` picks one of its ids and the first `k` draws of `rest`
      pick the others. */
  lemma ShownCons(r: Draw, rest: seq<Draw>, k: nat, unshown: set<string>, left: set<string>)
    requires k <= |rest|
    requires r.exercise.id in unshown && left == unshown - {r.exercise.id}
    requires PickedIds(rest[..k]) == left
    ensures PickedIds(([r] + rest)[..k + 1]) == unshown
  {
    assert ([r] + rest)[..k + 1] == [r] + rest[..k];
    calc {
      PickedIds([r] + rest[..k]);
      PickedIds(rest[..k]) + {r.exercise.id};
      (unshown - {r.exercise.id}) + {r.exercise.id};
      unshown;
    }
  }

  /** Exhaustion wraps: starting from a used set inside the pool, the draw
      that follows the `m` draws of the ids not yet shown clears the used
      set. */
  lemma {:induction false} WrapAfterExhaustion(catalog: seq<Exercise>, config: DifficultyConfig,
                                               d: Difficulty, used: set<string>,
                                               samples: seq<(Sample, Sample)>)
    requires Pool(catalog, d) != []
    requires config.RangeOf(d).lo <= config.RangeOf(d).hi
    requires used <= Ids(Pool(catalog, d))
    requires |samples| > |Ids(Pool(catalog, d)) - used|
    ensures Run(catalog, config, d, used, samples)[|Ids(Pool(catalog, d)) - used|].wrapped
    decreases |samples|
  {
    var ids := Ids(Pool(catalog, d));
    var m := |ids - used|;
    var r := DrawFrom(catalog, config, d, used, samples[0].0, samples[0].1);
    var next := NextUsed(used, r);
    var rest := Run(catalog, config, d, next, samples[1..]);
    assert Run(catalog, config, d, used, samples) == [r] + rest;
    if m == 0 {
      NoneUnshown(ids, used);
    } else {
      FreshDraw(catalog, config, d, used, samples[0].0, samples[0].1);
      WrapAfterExhaustion(catalog, config, d, next, samples[1..]);
      IndexCons(r, rest, m - 1);
    }
  }

  /** A subset of `ids` that leaves none of them out is all of them. */
  lemma NoneUnshown(ids: set<string>, used: set<string>)
    requires used <= ids && |ids - used| == 0
    ensures ids <= used
  {
    forall x | x in ids ensures x in used {
      assert x !in ids - used;
    }
  }

  /** The draw after the first `k + 1` draws of `[r] + rest` is `rest[k]`. */
  lemma IndexCons(r: Draw, rest: seq<Draw>, k: nat)
    requires k < |rest|
    ensures ([r] + rest)[k + 1] == rest[k]
  {
  }

  /** With a single entry in the tier every draw returns that entry. */
  lemma SingleEntryPool(catalog: seq<Exercise>, config: DifficultyConfig, d: Difficulty,
                        used: set<string>, pick: Sample, repSample: Sample, e: Exercise)
    requires Pool(catalog, d) == [e]
    requires config.RangeOf(d).lo <= config.RangeOf(d).hi
    ensures DrawFrom(catalog, config, d, used, pick, repSample).exercise == e
  {
    assert DrawFrom(catalog, config, d, used, pick, repSample).exercise in [e];
  }

  /** In a two-entry tier whose first entry has been shown, the next draw
      shows the second one whatever the sample: the only unused entry. */
  lemma OtherEntryNext(catalog: seq<Exercise>, config: DifficultyConfig, d: Difficulty,
                       a: Exercise, b: Exercise, pick: Sample, repSample: Sample)
    requires Pool(catalog, d) == [a, b] && a.id != b.id
    requires config.RangeOf(d).lo <= config.RangeOf(d).hi
    ensures var r := DrawFrom(catalog, config, d, {a.id}, pick, repSample);
      && !r.wrapped && r.exercise == b && NextUsed({a.id}, r) == {a.id, b.id}
  {
    var used := {a.id};
    assert [a, b][1..] == [b] && [b][1..] == [];
    assert Unused([], used) == [];
    assert Unused([b], used) == [b] + Unused([], used);
    assert Unused([a, b], used) == [] + Unused([b], used);
  }

  /** A wrap may show the entry that was just shown: in a two-entry tier
      whose first entry has been shown, the draw with sample 0.5 shows the
      second entry, and the draw after it wraps and with sample 0.5 shows
      the second entry again. */
  lemma WrapMayRepeatPrevious(catalog: seq<Exercise>, config: DifficultyConfig, d: Difficulty,
                              a: Exercise, b: Exercise, repSample: Sample)
    requires Pool(catalog, d) == [a, b] && a.id != b.id
    requires config.RangeOf(d).lo <= config.RangeOf(d).hi
    ensures var r1 := DrawFrom(catalog, config, d, {a.id}, 0.5, repSample);
      var r2 := DrawFrom(catalog, config, d, NextUsed({a.id}, r1), 0.5, repSample);
      && r1.exercise == b && r2.wrapped && r2.exercise == b
  {
    OtherEntryNext(catalog, config, d, a, b, 0.5, repSample);
    var used := {a.id, b.id};
    assert [a, b][1..] == [b] && [b][1..] == [];
    assert Unused([], used) == [];
    assert Unused([b], used) == [] + Unused([], used);
    assert Unused([a, b], used) == [] + Unused([b], used);
    assert ScaledIndex(0.5, 2) == 1;
  }

  /** The calories one completed instance earns: the entry's factor times the
      repetition count (App.tsx:84). */
  function CaloriesGained(inst: ExerciseInstance): (gained: real)
    ensures inst.exercise.baseCalories >= 0.0 && inst.reps >= 0 ==> gained >= 0.0
    ensures inst.reps == 0 ==> gained == 0.0
  {
    inst.exercise.baseCalories * inst.reps as real
  }

  /** The stats update of one completion (App.tsx:86-90). */
  function Completed(stats: SessionStats, inst: ExerciseInstance): (next: SessionStats)
    ensures next.completedExercises == stats.completedExercises + 1
    ensures next.totalCalories - stats.totalCalories == CaloriesGained(inst)
    ensures next.startTime == stats.startTime
  {
    stats.(completedExercises := stats.completedExercises + 1,
           totalCalories := stats.totalCalories + CaloriesGained(inst))
  }

  /** The stats after completing `insts` one after the other. */
  function CompleteAll(stats: SessionStats, insts: seq<ExerciseInstance>): SessionStats
    decreases |insts|
  {
    if insts == [] then stats else CompleteAll(Completed(stats, insts[0]), insts[1..])
  }

  /** The calories earned by a list of instances. */
  function SumCalories(insts: seq<ExerciseInstance>): real
    decreases |insts|
  {
    if insts == [] then 0.0 else CaloriesGained(insts[0]) + SumCalories(insts[1..])
  }

  /** Completions are additive: after any list of them the count has grown
      by its length, the calories by its total, and the start time is kept. */
  lemma {:induction false} CompletionsAdd(stats: SessionStats, insts: seq<ExerciseInstance>)
    ensures CompleteAll(stats, insts)
      == SessionStats(stats.completedExercises + |insts|,
                      stats.totalCalories + SumCalories(insts),
                      stats.startTime)
    decreases |insts|
  {
    if insts != [] {
      CompletionsAdd(Completed(stats, insts[0]), insts[1..]);
    }
  }

  /** An instance worth no negative calories: a non-negative factor and a
      non-negative repetition count. */
  predicate NonNegativeWork(inst: ExerciseInstance) {
    inst.exercise.baseCalories >= 0.0 && inst.reps >= 0
  }

  /** Completions of instances with non-negative factors and counts never
      lower the calorie total, so a session that starts at zero calories
      never shows a negative total. */
  lemma {:induction false} CompletionsNeverLowerCalories(stats: SessionStats, insts: seq<ExerciseInstance>)
    requires forall i :: 0 <= i < |insts| ==> NonNegativeWork(insts[i])
    ensures CompleteAll(stats, insts).totalCalories >= stats.totalCalories
    decreases |insts|
  {
    if insts != [] {
      CompletionsNeverLowerCalories(Completed(stats, insts[0]), insts[1..]);
    }
  }
}
