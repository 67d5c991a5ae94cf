# Exercise session engine of the winter training app

This project models the session engine of a single-page training app. The
user picks a difficulty tier and gets a randomly chosen exercise from that
tier with a target number of repetitions. After marking it done, the user
gets another exercise. No exercise comes back until every exercise of the
tier has been shown: then the history is cleared and the cycle starts
again. Along the way the app counts the completed exercises and the
calories burned (`baseCalories × reps` each time). Reset returns to the
tier choice with fresh counters.

Layout:

- `types.dfy` (module `Types`): the tier enumeration, catalog entries,
  session statistics and exercise instances of `types.ts`. It also holds the
  per-tier repetition ranges that `App.tsx` reads from its constants module.
- `selection.dfy` (module `Selection`): the pure parts of `App.tsx`. These
  are the tier pool and the not-yet-shown entries (the two `filter` calls),
  the scaling of a `Math.random()` sample to an index or a repetition count,
  one whole draw (`DrawFrom`), and the calorie update. It also holds the
  lemmas about repeated draws and repeated completions.
- `session.dfy` (module `Session`): class `Session`. Its fields are the
  four React state hooks: `difficulty`, `currentExercise`,
  `usedExerciseIds` and `stats`. Its methods are the four functions of
  `App.tsx` that change that state. The constructor establishes the
  `Valid()` invariant, and `HandleDifficultySelect`,
  `HandleExerciseComplete` and `ResetSession` keep it.
  `GenerateNewExercise` does not promise `Valid()` on its own: in the app
  it runs only inside those two handlers, so its contract gives the new
  state through `DrawFrom` and `NextUsed`. Its two callers then restore
  `Valid()` with `DrawUpdatesUsed`.

Modelling choices:

- Each `Math.random()` call becomes a parameter of type `Sample`, a real in
  [0, 1). The source's `Math.floor(sample × n)` is kept, in exact real
  arithmetic.
  `ScaledIndexReaches` and `RepCountReaches` show that every index and
  every repetition count in range is produced by some sample. So the model
  covers exactly the injected choice of an index or an offset.
- Each `Date.now()` reading becomes a parameter `now`.
- The catalog `EXERCISES` and the table `DIFFICULTY_CONFIG` come from a
  constants module that is not part of this model. They are constructor
  parameters, held as `const` fields. `CatalogOk` asks two things of
  them. Every tier has at least one entry: otherwise `App.tsx:57` indexes
  an empty array. Every range has `repRange[0] <= repRange[1]`: the code
  itself runs without it, but the bound on the repetition count only holds
  with it.
  Unique ids are not needed for any property proved here, so they are not
  assumed.
- Calories are exact `real` arithmetic.
- React state updates are sequential assignments. The functional update
  `prev => new Set(prev).add(id)` (`App.tsx:70`) reads the state field, not
  the `currentUsedIds` argument. `GenerateNewExercise` models that
  difference. Both callers pass the field itself, so the two agree.
- `handleDifficultySelect` (`App.tsx:74-79`) leaves `stats` untouched, and
  the model does the same. `Valid()` proves that the counters are zero
  whenever no tier is set. The tier buttons are only rendered in that
  state (`App.tsx:124-145`). So in the app a session always starts from
  zero counters.

## Model

| member | source | states |
|---|---|---|
| `Selection.Pool` | App.tsx:45 | an entry is in the tier pool exactly when it is in the catalog and its tier list contains the selected tier |
| `Selection.Unused` | App.tsx:48 | an entry is available exactly when it is in the pool and its id is not in the used set |
| `Selection.IdsExact` | App.tsx:48-51 | the pool ids that the used set is checked against are exactly the ids of the pool's entries |
| `Selection.ExhaustedIff` | App.tsx:48-51 | nothing is available exactly when every pool id is in the used set |
| `Selection.ScaledIndex` | App.tsx:57 | `floor(sample × n)` of a `Math.random()` sample is an index in `[0, n)` |
| `Selection.ScaledIndexReaches` | App.tsx:57 | every index in `[0, n)` is produced by the sample `i / n` |
| `Selection.RepCount` | App.tsx:60-61 | the repetition count lies in the tier's inclusive range `[repRange[0], repRange[1]]` |
| `Selection.RepCountReaches` | App.tsx:60-61 | every count of the inclusive range is produced by some sample |
| `Selection.DrawFrom` | App.tsx:44-61 | the pick is an entry of the selected tier; a wrap happens exactly when every pool id is used; without a wrap the pick's id is not yet used; the reps lie in the tier's range |
| `Selection.DrawUpdatesUsed` | App.tsx:50-70 | after a draw the used set stays inside the pool ids and contains the pick; after a wrap it is exactly the pick's id; otherwise it is the old set plus the pick and one larger |
| `Selection.NextUsed` | App.tsx:53-70 | the used set after a draw holds the pick and nothing else new; without a wrap it keeps every old id, after a wrap it is just the pick's id (with `DrawUpdatesUsed` and its predicate `RecordsDraw` for the set staying inside the pool and growing by one) |
| `Selection.FreshDraw` | App.tsx:48-70 | while some pool id has not been shown, the draw does not wrap, picks an unshown id, and leaves one unshown id fewer |
| `Selection.NoRepeatBeforeExhaustion` | App.tsx:45-70 | successive draws, no more of them than unshown pool ids, never wrap, pick only unshown ids, and pick pairwise different ids |
| `Selection.AllShownBeforeWrap` | App.tsx:45-70 | the first `m` successive draws, `m` being the number of unshown pool ids, show every one of those ids |
| `Selection.WrapAfterExhaustion` | App.tsx:50-55 | the draw that follows those `m` draws clears the history and wraps |
| `Selection.SingleEntryPool` | App.tsx:45-57 | in a tier with a single entry every draw returns that entry |
| `Selection.OtherEntryNext` | App.tsx:48-57 | in a two-entry tier whose first entry has been shown, the next draw shows the second entry whatever the sample, without a wrap, and leaves both ids used |
| `Selection.WrapMayRepeatPrevious` | App.tsx:51-57 | at a wrap the pick can be the entry shown just before: in a two-entry tier, the draw after the second entry was shown wraps and can show the second entry again, so no "differs from the previous one" property holds |
| `Selection.CaloriesGained` | App.tsx:84 | the calories of one completion, `baseCalories × reps`: never negative for a non-negative factor and count, and zero for zero repetitions; the non-negative case gives `CompletionsNeverLowerCalories` and the calorie clause of `HandleExerciseComplete` |
| `Selection.Completed` | App.tsx:86-90 | one completion raises the count by one and the calories by exactly `CaloriesGained`, and keeps the start time (the whole-session form is `CompletionsAdd`) |
| `Selection.CompletionsAdd` | App.tsx:84-90 | after any list of completions the count has grown by its length, the calories by the sum of `baseCalories × reps`, and the start time is unchanged |
| `Selection.CompletionsNeverLowerCalories` | App.tsx:84-90 | completions of instances with non-negative factors and counts never lower the calorie total, so a session that starts at zero calories never shows a negative total |
| `Session.Session.Valid` | App.tsx:29-105 | the session invariant that the constructor establishes and `HandleDifficultySelect`, `HandleExerciseComplete` and `ResetSession` keep (`GenerateNewExercise`, which runs only inside two of them, does not promise it on its own): with a tier, an instance is shown, its id is in the used set and the used set lies inside the tier's pool ids; without a tier, nothing is used and nothing has been counted |
| `Session.Session.constructor` | App.tsx:29-36 | the initial state: no tier, no instance, empty used set, zero counters, start time `now`; the invariant holds |
| `Session.Session.GenerateNewExercise` | App.tsx:40-72 | the shown instance is the draw's pick with its reps and time `now`; the used set is cleared on a wrap and then extended with the pick's id; tier and stats unchanged |
| `Session.Session.HandleDifficultySelect` | App.tsx:74-79 | the tier is set; the used set is exactly the first pick's id; the stats are untouched, and zero when no tier was set before; the invariant is kept |
| `Session.Session.HandleExerciseComplete` | App.tsx:81-94 | without an instance or a tier nothing changes; otherwise `(c, k, t)` becomes `(c + 1, k + baseCalories × reps, t)` and the next instance is drawn against the current used set; the invariant (used ids inside the tier pool, reps in range, instance in the pool) is kept; with a non-negative factor and range, the calorie total does not go down |
| `Session.Session.ResetSession` | App.tsx:96-105 | a fixed state whatever came before: no tier, no instance, empty used set, zero counters, start time `now`; the invariant holds |

## Left out

- The `Button` and `Card` components and all rendering (`App.tsx:7-26`, `107-252`): presentation only.
- The `loading` and `showExplanation` flags (`App.tsx:37-42`, `71`): cosmetic view state.
- `Date.now()` (`App.tsx:35`, `66`, `103`): a clock reading, passed in as `now`.
- `Math.random()` (`App.tsx:57`, `61`): passed in as a sample in [0, 1). Uniformity and probability are not modelled.
- The contents of `EXERCISES` and `DIFFICULTY_CONFIG`: the constants module is not part of this model. They are parameters constrained by `CatalogOk`. The `color` field of a tier's configuration is only used for display.
- Floating-point rounding of calories and their `toFixed(1)` display (`App.tsx:160`): calories are exact reals.
- `async`, `useCallback` and React's batching of state updates (`App.tsx:40`, `70`): the updates are sequential assignments.
- The reassignment `currentUsedIds = new Set()` (`App.tsx:54`): nothing reads the argument after it, so it has no effect.
- Non-negative total calories for every catalog: the source puts no sign constraint on `baseCalories` or on the repetition ranges. The total is shown never to go down only for non-negative factors and counts (`CompletionsNeverLowerCalories` and `HandleExerciseComplete`).
- IEEE double rounding in `Math.floor(Math.random() × n)` (`App.tsx:57`, `61`): the product is exact in the model. Near an integer boundary, a double product can round to the neighbouring index. This does not affect the proved range and reachability facts, because those hold for every index in range.
- An inverted repetition range (`repRange[0] > repRange[1]`): `App.tsx:61` still yields a number, which can lie outside the range (a width of zero gives `repRange[0]`). `CatalogOk` excludes such a range, so the model does not describe the counts it produces.
