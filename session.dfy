/** The session state of the training app and the handlers that change it
    (App.tsx:28-105). Each React state hook becomes a field, each `set...`
    call an assignment to it, and the handlers run to completion one after
    the other. `Math.random()` and `Date.now()` readings are passed in. */
module Session {
  import opened Types
  import opened Selection

  class Session {
    /** The exercise catalog and the per-tier configuration the app imports
        from its constants module (App.tsx:4). */
    const catalog: seq<Exercise>
    const config: DifficultyConfig

    /** The four pieces of session state (App.tsx:29-36). */
    var difficulty: Option<Difficulty>
    var currentExercise: Option<ExerciseInstance>
    var usedExerciseIds: set<string>
    var stats: SessionStats

    /** The session invariant. Without a tier nothing is shown, nothing is
        used and nothing has been counted; with one, the used ids lie in the
        tier's pool and the current instance is a pool entry, recorded as
        used, with a repetition count in the tier's range. The ensures
        spell out what a handler may rely on in each of the two modes. */
    ghost predicate Valid()
      reads this
      ensures Valid() && difficulty.Some? ==>
        currentExercise.Some? && currentExercise.value.exercise.id in usedExerciseIds
        && usedExerciseIds <= Ids(Pool(catalog, difficulty.value))
      ensures Valid() && difficulty.None? ==> usedExerciseIds == {} && stats.completedExercises == 0
    {
      && CatalogOk(catalog, config)
      && (difficulty.None? <==> currentExercise.None?)
      && (difficulty.None? ==>
            usedExerciseIds == {} && stats.completedExercises == 0 && stats.totalCalories == 0.0)
      && (difficulty.Some? && currentExercise.Some? ==>
            InstanceFits(difficulty.value, currentExercise.value))
    }

    /** What the invariant demands of the current instance of tier `d`. */
    ghost predicate InstanceFits(d: Difficulty, inst: ExerciseInstance)
      reads this
    {
      && usedExerciseIds <= Ids(Pool(catalog, d))
      && inst.exercise in Pool(catalog, d)
      && inst.exercise.id in usedExerciseIds
      && config.RangeOf(d).lo <= inst.reps <= config.RangeOf(d).hi
    }

    /** The initial state (App.tsx:29-36): no tier, no instance, nothing
        used, zero counters and the given start time. */
    constructor (catalog: seq<Exercise>, config: DifficultyConfig, now: int)
      requires CatalogOk(catalog, config)
      ensures Valid()
      ensures this.catalog == catalog && this.config == config
      ensures difficulty == None && currentExercise == None && usedExerciseIds == {}
      ensures stats == SessionStats(0, 0.0, now)
    {
      this.catalog := catalog;
      this.config := config;
      difficulty := None;
      currentExercise := None;
      usedExerciseIds := {};
      stats := SessionStats(0, 0.0, now);
    }

    /** `generateNewExercise` (App.tsx:40-72): filter the pool, drop the ids
        in `currentUsedIds`, wrap to the whole pool (clearing the used set)
        when nothing is left, pick an entry and a repetition count, show the
        new instance and add its id to the used set. */
    method GenerateNewExercise(selectedDifficulty: Difficulty, currentUsedIds: set<string>,
                               pick: Sample, repSample: Sample, now: int)
      requires CatalogOk(catalog, config)
      modifies this
      ensures var r := DrawFrom(catalog, config, selectedDifficulty, currentUsedIds, pick, repSample);
        && currentExercise == Some(ExerciseInstance(r.exercise, r.reps, now))
        && usedExerciseIds == NextUsed(old(usedExerciseIds), r)
      ensures difficulty == old(difficulty) && stats == old(stats)
    {
      var difficultyPool := Pool(catalog, selectedDifficulty);
      var availableExercises := Unused(difficultyPool, currentUsedIds);
      if |availableExercises| == 0 {
        availableExercises := difficultyPool;
        usedExerciseIds := {};
      }
      var randomExercise := availableExercises[ScaledIndex(pick, |availableExercises|)];
      var reps := RepCount(config.RangeOf(selectedDifficulty), repSample);
      currentExercise := Some(ExerciseInstance(randomExercise, reps, now));
      usedExerciseIds := usedExerciseIds + {randomExercise.id};
    }

    /** `handleDifficultySelect` (App.tsx:74-79): set the tier, clear the
        used set and draw the first instance. The stats are left as they
        are; they are all zero whenever no tier was set before. */
    method HandleDifficultySelect(diff: Difficulty, pick: Sample, repSample: Sample, now: int)
      requires Valid()
      modifies this
      ensures Valid()
      ensures difficulty == Some(diff) && stats == old(stats)
      ensures var r := DrawFrom(catalog, config, diff, {}, pick, repSample);
        && currentExercise == Some(ExerciseInstance(r.exercise, r.reps, now))
        && usedExerciseIds == {r.exercise.id}
      ensures old(difficulty).None? ==> stats.completedExercises == 0 && stats.totalCalories == 0.0
    {
      difficulty := Some(diff);
      var emptySet: set<string> := {};
      usedExerciseIds := emptySet;
      GenerateNewExercise(diff, emptySet, pick, repSample, now);
      DrawUpdatesUsed(catalog, config, diff, {}, pick, repSample);
    }

    /** `handleExerciseComplete` (App.tsx:81-94): without a current instance
        or a tier nothing happens; otherwise the count goes up by one, the
        calories by `baseCalories * reps`, and the next instance is drawn
        against the current used set. */
    method HandleExerciseComplete(pick: Sample, repSample: Sample, now: int)
      requires Valid()
      modifies this
      ensures Valid()
      ensures (old(currentExercise).None? || old(difficulty).None?) ==>
        && difficulty == old(difficulty) && currentExercise == old(currentExercise)
        && usedExerciseIds == old(usedExerciseIds) && stats == old(stats)
      ensures old(currentExercise).Some? && old(difficulty).Some? ==>
        var r := DrawFrom(catalog, config, old(difficulty).value, old(usedExerciseIds), pick, repSample);
        && stats.completedExercises == old(stats).completedExercises + 1
        && stats.totalCalories == old(stats).totalCalories + CaloriesGained(old(currentExercise).value)
        && stats.startTime == old(stats).startTime
        && difficulty == old(difficulty)
        && currentExercise == Some(ExerciseInstance(r.exercise, r.reps, now))
        && usedExerciseIds == NextUsed(old(usedExerciseIds), r)
      ensures (old(currentExercise).Some? && old(difficulty).Some?
               && old(currentExercise).value.exercise.baseCalories >= 0.0
               && config.RangeOf(old(difficulty).value).lo >= 0) ==>
        stats.totalCalories >= old(stats).totalCalories
    {
      if currentExercise.None? || difficulty.None? {
        return;
      }
      stats := Completed(stats, currentExercise.value);
      var d := difficulty.value;
      ghost var used := usedExerciseIds;
      GenerateNewExercise(d, usedExerciseIds, pick, repSample, now);
      DrawUpdatesUsed(catalog, config, d, used, pick, repSample);
    }

    /** `resetSession` (App.tsx:96-105): back to the initial state, whatever
        happened before, with the given start time. */
    method ResetSession(now: int)
      requires Valid()
      modifies this
      ensures Valid()
      ensures difficulty == None && currentExercise == None && usedExerciseIds == {}
      ensures stats == SessionStats(0, 0.0, now)
    {
      difficulty := None;
      currentExercise := None;
      usedExerciseIds := {};
      stats := SessionStats(0, 0.0, now);
    }
  }
}
