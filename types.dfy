/** The value types of the training app (types.ts), and the shape of the
    per-tier configuration that App.tsx reads from its constants module. */
module Types {

  datatype Option<+T> = None | Some(value: T)

  /** The three difficulty tiers (types.ts:2-6). */
  datatype Difficulty = Easy | Medium | Hard

  /** A catalog entry (types.ts:8-15). `difficulty` lists the tiers the entry
      belongs to; `baseCalories` is the calorie factor per repetition. */
  datatype Exercise = Exercise(
    id: string,
    name: string,
    description: string,
    steps: Option<seq<string>>,
    baseCalories: real,
    difficulty: seq<Difficulty>)

  /** Session statistics (types.ts:17-21). `startTime` is an opaque clock reading. */
  datatype SessionStats = SessionStats(
    completedExercises: nat,
    totalCalories: real,
    startTime: int)

  /** One presentation of a catalog entry with its target repetition count
      (types.ts:23-27). `timestamp` is an opaque clock reading. */
  datatype ExerciseInstance = ExerciseInstance(
    exercise: Exercise,
    reps: int,
    timestamp: int)

  /** The inclusive repetition range `repRange` of one tier: `lo` is
      `repRange[0]`, `hi` is `repRange[1]` (App.tsx:60-61). */
  datatype RepRange = RepRange(lo: int, hi: int)

  /** The repetition ranges of all three tiers, the part of the constants'
      per-tier configuration that the session engine reads. */
  datatype DifficultyConfig = DifficultyConfig(easy: RepRange, medium: RepRange, hard: RepRange) {
    function RangeOf(d: Difficulty): RepRange {
      match d
      case Easy => easy
      case Medium => medium
      case Hard => hard
    }
  }
}
