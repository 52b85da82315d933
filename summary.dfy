/**
 * The hand-off effect of src/components/TrainingSummary.jsx: the page reads
 * the session's data from sessionStorage once, adds it to the history and
 * removes it; without it the page redirects to the plan list. The
 * statistics the page shows are the functions of Records.
 */
module Summary {
  import opened JsString
  import opened Entities
  import opened Storage
  import opened Records

  datatype SummaryPage = Redirect | Show(data: TrainingData)

  /** The statistics line of the summary page. */
  datatype Stats = Stats(totalSets: nat, exercisesCompleted: nat, totalExerciseTime: nat)

  function StatsOf(data: TrainingData): (s: Stats)
    ensures s.exercisesCompleted <= s.totalSets
    ensures s.totalSets == |data.records|
    ensures s.totalSets == SumSizes(GroupsOf(data.records))
    ensures s.totalExerciseTime == SumTimes(GroupsOf(data.records))
  {
    ExercisesCompletedIsGroupCount(data.records);
    GroupSizesSumToSetCount(data.records);
    Stats(TotalSets(data.records), ExercisesCompleted(data.records), TotalExerciseTime(data.records))
  }

  /**
   * The effect: sessionStorage.getItem('lastTraining'), then
   * addTrainingRecord and removeItem, or a redirect. The two clock readings
   * of addTrainingRecord are parameters.
   */
  method ReceiveHandOff(store: Store, nowMs: int, dateMs: int) returns (page: SummaryPage)
    modifies store
    ensures LastTrainingKey in old(store.session) ==>
      var data := old(store.session)[LastTrainingKey];
      && page == Show(data)
      && store.local == old(store.local)[HistoryKey := StoredHistory([HistoryEntry(data, IntToString(nowMs), dateMs)] + old(HistoryIn(store.local)))]
      && store.session == old(store.session) - {LastTrainingKey}
    ensures LastTrainingKey !in old(store.session) ==>
      page == Redirect && store.local == old(store.local) && store.session == old(store.session)
    ensures LastTrainingKey !in store.session
    ensures WorkoutsIn(store.local) == old(WorkoutsIn(store.local))
  {
    if LastTrainingKey in store.session {
      var data := store.session[LastTrainingKey];
      page := Show(data);
      var _ := store.AddTrainingRecord(data, nowMs, dateMs);
      store.session := store.session - {LastTrainingKey};
    } else {
      page := Redirect;
    }
  }

  /** The hand-off is consumed: a second run of the effect redirects and adds nothing. */
  method HandOffIsReadOnce(store: Store, nowMs: int, dateMs: int) returns (first: SummaryPage, second: SummaryPage)
    modifies store
    ensures second == Redirect
    ensures LastTrainingKey in old(store.session) ==>
      first.Show? && |HistoryIn(store.local)| == |old(HistoryIn(store.local))| + 1
    ensures LastTrainingKey !in old(store.session) ==>
      first == Redirect && HistoryIn(store.local) == old(HistoryIn(store.local))
  {
    first := ReceiveHandOff(store, nowMs, dateMs);
    second := ReceiveHandOff(store, nowMs, dateMs);
  }
}
