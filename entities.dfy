/**
 * The records the application stores and passes between pages: a workout
 * plan and its exercises, one set record per completed set, the hand-off a
 * finished session leaves for the summary page, and a history entry.
 */
module Entities {
  import opened Wrappers
  import opened Units

  /** One exercise of a plan; sets and reps are whatever the editor's coercion produced. */
  datatype Exercise = Exercise(name: string, sets: int, reps: int, restTime: string)

  datatype Workout = Workout(id: string, name: string, exercises: seq<Exercise>)

  /** One completed set; weight is None where the JavaScript record holds null. */
  datatype SetRecord = SetRecord(exerciseName: string, setNumber: int, weight: Option<string>, unit: Unit, exerciseTime: nat)

  /** What a session hands to the summary page through sessionStorage. */
  datatype TrainingData = TrainingData(
    workoutId: string,
    workoutName: string,
    records: seq<SetRecord>,
    totalTime: int,
    exerciseTime: nat)

  /**
   * A history entry: the training data with the id and date addTrainingRecord
   * adds. The date is the millisecond instant its ISO string denotes.
   */
  datatype HistoryEntry = HistoryEntry(training: TrainingData, id: string, date: int)

  /** workouts.find(w => w.id === id): the first workout with that id, if any. */
  function FindById(ws: seq<Workout>, id: string): (r: Option<Workout>)
    ensures r.None? <==> forall i :: 0 <= i < |ws| ==> ws[i].id != id
    ensures r.Some? ==> exists i :: 0 <= i < |ws| && ws[i] == r.value && r.value.id == id
                          && forall j :: 0 <= j < i ==> ws[j].id != id
  {
    if ws == [] then None
    else if ws[0].id == id then Some(ws[0])
    else
      var r := FindById(ws[1..], id);
      assert forall j :: 1 <= j < |ws| ==> ws[j] == ws[1..][j - 1];
      r
  }
}
