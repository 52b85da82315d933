/**
 * The training session of src/components/TrainingSession.jsx: the page walks
 * through the plan's exercises set by set, alternating an exercise period,
 * whose timer counts up, and a rest period, whose timer counts down, records
 * one set record per completed set, and hands the result to the summary page
 * through sessionStorage.
 *
 * A React handler's state updates take effect together after the handler,
 * and the effect on `period` (lines 41-48) then starts or stops the timers;
 * each method below is one handler or one timer tick with that effect
 * folded in. A timer is modelled by whether its interval exists; the clock
 * is the parameter `now`.
 */
module Session {
  import opened Wrappers
  import opened Units
  import opened Time
  import opened Entities
  import opened Storage
  import opened Summary

  datatype Period = ExercisePeriod | RestPeriod

  // ------------------------------------------------------------- the plan

  /**
   * How many sets the session runs for an exercise: it moves on once
   * currentSet < sets fails, so an exercise with fewer than one set still
   * gets one.
   */
  function SetCount(e: Exercise): (n: nat)
    ensures n >= 1 && n >= e.sets
    ensures e.sets >= 1 ==> n == e.sets
    ensures e.sets < 1 ==> n == 1
  {
    if e.sets < 1 then 1 else e.sets
  }

  /** The (exercise name, set number) of each set the session runs for an exercise. */
  function PlannedSets(e: Exercise): (r: seq<(string, int)>)
    ensures |r| == SetCount(e)
    ensures forall i :: 0 <= i < |r| ==> r[i] == (e.name, i + 1)
  {
    seq(SetCount(e), i => (e.name, i + 1))
  }

  /** The sets of the first k exercises, in the order the session runs them. */
  function PlanBefore(exs: seq<Exercise>, k: nat): seq<(string, int)>
    requires k <= |exs|
  {
    if k == 0 then [] else PlanBefore(exs, k - 1) + PlannedSets(exs[k - 1])
  }

  /** Every set of the plan. */
  function Plan(exs: seq<Exercise>): seq<(string, int)> {
    PlanBefore(exs, |exs|)
  }

  /** The sets done before set `setNo` of exercise `index`. */
  function Progress(exs: seq<Exercise>, index: nat, setNo: int): seq<(string, int)>
    requires index < |exs| && 1 <= setNo <= SetCount(exs[index])
  {
    PlanBefore(exs, index) + PlannedSets(exs[index])[..setNo - 1]
  }

  function Tags(rs: seq<SetRecord>): (t: seq<(string, int)>)
    ensures |t| == |rs|
    ensures forall i :: 0 <= i < |rs| ==> t[i] == (rs[i].exerciseName, rs[i].setNumber)
  {
    seq(|rs|, i requires 0 <= i < |rs| => (rs[i].exerciseName, rs[i].setNumber))
  }

  /** Every record carries the unit its exercise name is classified as. */
  ghost predicate Labelled(rs: seq<SetRecord>) {
    forall i :: 0 <= i < |rs| ==> rs[i].unit == UnitFor(rs[i].exerciseName)
  }

  lemma LabelledSnoc(rs: seq<SetRecord>, r: SetRecord)
    requires Labelled(rs) && r.unit == UnitFor(r.exerciseName)
    ensures Labelled(rs + [r])
  {
  }

  lemma TagsSnoc(rs: seq<SetRecord>, r: SetRecord)
    ensures Tags(rs + [r]) == Tags(rs) + [(r.exerciseName, r.setNumber)]
  {
  }

  /** Finishing a set that is not an exercise's last adds that set to the progress. */
  lemma ProgressStep(exs: seq<Exercise>, index: nat, setNo: int)
    requires index < |exs| && 1 <= setNo < SetCount(exs[index])
    ensures Progress(exs, index, setNo + 1) == Progress(exs, index, setNo) + [(exs[index].name, setNo)]
  {
    var p := PlannedSets(exs[index]);
    assert p[..setNo] == p[..setNo - 1] + [p[setNo - 1]];
  }

  /** Finishing an exercise's last set completes that exercise. */
  lemma ProgressCompletesExercise(exs: seq<Exercise>, index: nat)
    requires index < |exs|
    ensures Progress(exs, index, SetCount(exs[index])) + [(exs[index].name, SetCount(exs[index]))]
            == PlanBefore(exs, index + 1)
  {
    var p := PlannedSets(exs[index]);
    LastSplitOff(p);
    assert PlanBefore(exs, index + 1) == PlanBefore(exs, index) + p;
  }

  lemma LastSplitOff<T>(p: seq<T>)
    requires p != []
    ensures p[..|p| - 1] + [p[|p| - 1]] == p
  {
  }

  /** Finishing an exercise's last set leads to set 1 of the next exercise. */
  lemma ProgressMovesOn(exs: seq<Exercise>, index: nat, setNo: int)
    requires index + 1 < |exs| && 1 <= setNo <= SetCount(exs[index]) && setNo >= exs[index].sets
    ensures Progress(exs, index, setNo) + [(exs[index].name, setNo)] == Progress(exs, index + 1, 1)
  {
    ProgressCompletesExercise(exs, index);
    assert PlannedSets(exs[index + 1])[..0] == [];
  }

  lemma {:induction false} PlanBeforeGrows(exs: seq<Exercise>, k: nat, m: nat)
    requires k <= m <= |exs|
    ensures PlanBefore(exs, k) <= PlanBefore(exs, m)
    decreases m
  {
    if k < m {
      PlanBeforeGrows(exs, k, m - 1);
    }
  }

  /** The sets done so far are always the plan's first sets, in order. */
  lemma ProgressIsPlanPrefix(exs: seq<Exercise>, index: nat, setNo: int)
    requires index < |exs| && 1 <= setNo <= SetCount(exs[index])
    ensures Progress(exs, index, setNo) < Plan(exs)
  {
    var p := PlannedSets(exs[index]);
    assert p[..setNo - 1] < p;
    assert PlanBefore(exs, index + 1) == PlanBefore(exs, index) + p;
    PlanBeforeGrows(exs, index + 1, |exs|);
  }

  // ---------------------------------------------------- pure helpers

  /** Math.floor((now - start) / 1000): whole seconds elapsed. */
  function ElapsedSeconds(start: int, now: int): (r: int)
    ensures 1000 * r <= now - start < 1000 * r + 1000
    ensures now >= start ==> r >= 0
  {
    (now - start) / 1000
  }

  /** The record of the current set: weight is currentWeight || null. */
  function RecordOf(e: Exercise, setNo: int, weight: string, time: nat): SetRecord {
    SetRecord(e.name, setNo, if weight == [] then None else Some(weight), UnitFor(e.name), time)
  }

  /** The data handleEndTraining writes to sessionStorage. */
  function HandOff(w: Workout, records: seq<SetRecord>, start: int, now: int, time: nat): TrainingData {
    TrainingData(w.id, w.name, records, ElapsedSeconds(start, now), time)
  }

  /**
   * The rest countdown after k ticks from r seconds: Some(seconds left), or
   * None once the tick that sees 1 or less has ended the rest.
   */
  function RestAfter(r: int, k: nat): Option<int>
    decreases k
  {
    if k == 0 then Some(r)
    else match RestAfter(r, k - 1)
      case None => None
      case Some(x) => if x <= 1 then None else Some(x - 1)
  }

  function Max(a: int, b: int): int {
    if a >= b then a else b
  }

  /**
   * A rest of n seconds lasts exactly n ticks (one tick when n is 1 or less,
   * which a negative minutes field gives), counting down one second a tick.
   */
  lemma {:induction false} RestLastsItsSeconds(n: int, k: nat)
    ensures RestAfter(n, k) == if k < Max(1, n) then Some(n - k) else None
  {
    if k > 0 {
      RestLastsItsSeconds(n, k - 1);
    }
  }

  /** Where the next-set button leads. */
  datatype Branch = ToRest | ToNextExercise | ToFinish

  /** The test of handleNextSet, then of handleNextExercise. */
  function NextSetBranch(currentSet: int, sets: int, index: nat, count: nat): Branch {
    if currentSet < sets then ToRest
    else if index < count - 1 then ToNextExercise
    else ToFinish
  }

  /** The caption of the next-set button: 完成這一組, 下一個動作, 完成訓練. */
  datatype Button = FinishSet | NextExercise | FinishTraining

  /** isLastSet ? (isLastExercise ? ... : ...) : ..., with isLastSet as currentSet === sets. */
  function ButtonFor(currentSet: int, sets: int, index: nat, count: nat): Button {
    if currentSet == sets then (if index == count - 1 then FinishTraining else NextExercise)
    else FinishSet
  }

  /** Within the plan's set range, the caption names what the button does. */
  lemma ButtonNamesBranch(currentSet: int, sets: int, index: nat, count: nat)
    requires 1 <= currentSet <= sets && index < count
    ensures ButtonFor(currentSet, sets, index, count) == FinishSet <==> NextSetBranch(currentSet, sets, index, count) == ToRest
    ensures ButtonFor(currentSet, sets, index, count) == NextExercise <==> NextSetBranch(currentSet, sets, index, count) == ToNextExercise
    ensures ButtonFor(currentSet, sets, index, count) == FinishTraining <==> NextSetBranch(currentSet, sets, index, count) == ToFinish
  {
  }

  /**
   * An exercise with fewer than one set, which the editor's coercion lets
   * through for a negative input, is captioned "finish this set" although
   * the button moves on to the next exercise or ends the session.
   */
  lemma ButtonMisnamesBranchWithoutSets(sets: int, index: nat, count: nat)
    requires sets < 1 && index < count
    ensures ButtonFor(1, sets, index, count) == FinishSet
    ensures NextSetBranch(1, sets, index, count) != ToRest
  {
  }

  // --------------------------------------------------------- the hand-off

  /**
   * When the last set of the last exercise is finished, handleEndTraining
   * reads the records of the render the click came from, which do not yet
   * hold the set just finished: the hand-off lacks the plan's last set.
   */
  lemma FinalHandOffLacksLastSet(exs: seq<Exercise>, records: seq<SetRecord>, setNo: int)
    requires |exs| > 0 && 1 <= setNo <= SetCount(exs[|exs| - 1])
    requires Tags(records) == Progress(exs, |exs| - 1, setNo)
    requires NextSetBranch(setNo, exs[|exs| - 1].sets, |exs| - 1, |exs|) == ToFinish
    ensures |records| == |Plan(exs)| - 1
    ensures Tags(records) + [Plan(exs)[|Plan(exs)| - 1]] == Plan(exs)
  {
    var last := |exs| - 1;
    assert setNo == SetCount(exs[last]);
    ProgressCompletesExercise(exs, last);
  }

  /** The smallest case: a one-set plan hands off no records at all. */
  lemma OneSetPlanHandsOffNothing(e: Exercise, records: seq<SetRecord>)
    requires e.sets <= 1
    requires Tags(records) == Progress([e], 0, 1)
    ensures records == [] && |Plan([e])| == 1
  {
    assert PlanBefore([e], 1) == PlanBefore([e], 0) + PlannedSets(e);
  }

  /** The records with the set just finished appended, which the hand-off evidently means to carry. */
  function IntendedFinalRecords(records: seq<SetRecord>, finished: SetRecord): seq<SetRecord> {
    records + [finished]
  }

  /** Handing off the records with the finished set holds every set of the plan, in order. */
  lemma IntendedHandOffHoldsPlan(exs: seq<Exercise>, records: seq<SetRecord>, setNo: int, weight: string, time: nat)
    requires |exs| > 0 && 1 <= setNo <= SetCount(exs[|exs| - 1])
    requires Tags(records) == Progress(exs, |exs| - 1, setNo)
    requires NextSetBranch(setNo, exs[|exs| - 1].sets, |exs| - 1, |exs|) == ToFinish
    ensures Tags(IntendedFinalRecords(records, RecordOf(exs[|exs| - 1], setNo, weight, time))) == Plan(exs)
    ensures |IntendedFinalRecords(records, RecordOf(exs[|exs| - 1], setNo, weight, time))| == |Plan(exs)|
  {
    var last := |exs| - 1;
    assert setNo == SetCount(exs[last]);
    TagsSnoc(records, RecordOf(exs[last], setNo, weight, time));
    ProgressCompletesExercise(exs, last);
  }

  /** As written, the summary of a session that ran to its end counts one set fewer than the plan has. */
  lemma SummaryMissesLastSetAsWritten(w: Workout, records: seq<SetRecord>, setNo: int, start: int, now: int, time: nat)
    requires |w.exercises| > 0 && 1 <= setNo <= SetCount(w.exercises[|w.exercises| - 1])
    requires Tags(records) == Progress(w.exercises, |w.exercises| - 1, setNo)
    requires NextSetBranch(setNo, w.exercises[|w.exercises| - 1].sets, |w.exercises| - 1, |w.exercises|) == ToFinish
    ensures StatsOf(HandOff(w, records, start, now, time)).totalSets == |Plan(w.exercises)| - 1
  {
    FinalHandOffLacksLastSet(w.exercises, records, setNo);
  }

  /** With the finished set in the hand-off, the summary counts every set of the plan. */
  lemma SummaryCountsEverySetIntended(w: Workout, records: seq<SetRecord>, setNo: int, weight: string, start: int, now: int, time: nat)
    requires |w.exercises| > 0 && 1 <= setNo <= SetCount(w.exercises[|w.exercises| - 1])
    requires Tags(records) == Progress(w.exercises, |w.exercises| - 1, setNo)
    requires NextSetBranch(setNo, w.exercises[|w.exercises| - 1].sets, |w.exercises| - 1, |w.exercises|) == ToFinish
    ensures StatsOf(HandOff(w, IntendedFinalRecords(records, RecordOf(w.exercises[|w.exercises| - 1], setNo, weight, time)), start, now, time)).totalSets
            == |Plan(w.exercises)|
  {
    IntendedHandOffHoldsPlan(w.exercises, records, setNo, weight, time);
  }

  // ------------------------------------------------------------ the page

  datatype Opening = NotFound | NoExercises | Opened(session: TrainingSession)

  /**
   * The load effect: the plan with the route id, or a redirect when there is
   * none. A found plan without exercises fails at the first render, which
   * reads the name of exercises[0].
   */
  method Start(store: Store, id: string, now: int) returns (r: Opening)
    ensures r == NotFound <==> FindById(WorkoutsIn(store.local), id).None?
    ensures r == NoExercises <==> FindById(WorkoutsIn(store.local), id).Some? && FindById(WorkoutsIn(store.local), id).value.exercises == []
    ensures r.Opened? ==>
      && fresh(r.session) && r.session.Valid() && r.session.mounted
      && r.session.workout == FindById(WorkoutsIn(store.local), id).value
      && r.session.startTime == now
      && r.session.index == 0 && r.session.currentSet == 1 && r.session.period == ExercisePeriod
      && r.session.exerciseTime == 0 && r.session.records == [] && r.session.currentWeight == []
  {
    var workouts := store.LoadWorkouts();
    var found := FindById(workouts, id);
    if found.None? {
      return NotFound;
    }
    if found.value.exercises == [] {
      return NoExercises;
    }
    var s := new TrainingSession(found.value, now);
    r := Opened(s);
  }

  class TrainingSession {
    const workout: Workout
    /** startTimeRef. */
    const startTime: int
    var index: nat
    var currentSet: int
    var period: Period
    var exerciseTime: nat
    var restTime: int
    var records: seq<SetRecord>
    var currentWeight: string
    /** Whether exerciseTimerRef and restTimerRef hold an interval. */
    var exerciseTimerRunning: bool
    var restTimerRunning: bool
    /** False once the page has been left. */
    var mounted: bool

    ghost predicate Valid()
      reads this
    {
      && |workout.exercises| > 0
      && index < |workout.exercises|
      && 1 <= currentSet <= SetCount(workout.exercises[index])
      && (period == ExercisePeriod ==> restTime == 0)
      && (mounted ==> exerciseTimerRunning == (period == ExercisePeriod) && restTimerRunning == (period == RestPeriod))
      && (!mounted ==> !exerciseTimerRunning && !restTimerRunning)
      && Tags(records) == Progress(workout.exercises, index, currentSet)
      && Labelled(records)
    }

    function Current(): Exercise
      reads this
      requires index < |workout.exercises|
    {
      workout.exercises[index]
    }

    constructor(w: Workout, now: int)
      requires |w.exercises| > 0
      ensures Valid() && mounted
      ensures workout == w && startTime == now
      ensures index == 0 && currentSet == 1 && period == ExercisePeriod
      ensures exerciseTime == 0 && restTime == 0 && records == [] && currentWeight == []
      ensures exerciseTimerRunning && !restTimerRunning
    {
      workout := w;
      startTime := now;
      index := 0;
      currentSet := 1;
      period := ExercisePeriod;
      exerciseTime := 0;
      restTime := 0;
      records := [];
      currentWeight := [];
      exerciseTimerRunning := true;
      restTimerRunning := false;
      mounted := true;
    }

    /** One tick of the exercise interval. */
    method ExerciseTick()
      requires Valid() && exerciseTimerRunning
      modifies this
      ensures Valid()
      ensures exerciseTime == old(exerciseTime) + 1
      ensures index == old(index) && currentSet == old(currentSet) && period == old(period)
      ensures restTime == old(restTime) && records == old(records) && currentWeight == old(currentWeight)
      ensures exerciseTimerRunning == old(exerciseTimerRunning) && restTimerRunning == old(restTimerRunning)
      ensures mounted == old(mounted)
    {
      exerciseTime := exerciseTime + 1;
    }

    /** One tick of the rest interval: the countdown, and the return to exercise at its end. */
    method RestTick()
      requires Valid() && restTimerRunning
      modifies this
      ensures Valid() && mounted && restTime >= 0
      ensures RestAfter(old(restTime), 1) == (if period == RestPeriod then Some(restTime) else None)
      ensures old(restTime) <= 1 ==> period == ExercisePeriod && restTime == 0 && exerciseTimerRunning && !restTimerRunning
      ensures old(restTime) > 1 ==> period == RestPeriod && restTime == old(restTime) - 1 && !exerciseTimerRunning && restTimerRunning
      ensures index == old(index) && currentSet == old(currentSet) && exerciseTime == old(exerciseTime)
      ensures records == old(records) && currentWeight == old(currentWeight)
    {
      if restTime <= 1 {
        restTimerRunning := false;
        period := ExercisePeriod;
        restTime := 0;
        exerciseTimerRunning := true;
      } else {
        restTime := restTime - 1;
      }
    }

    /** The weight input. */
    method EnterWeight(text: string)
      requires Valid() && mounted
      modifies this
      ensures Valid() && mounted
      ensures currentWeight == text
      ensures index == old(index) && currentSet == old(currentSet) && period == old(period)
      ensures exerciseTime == old(exerciseTime) && restTime == old(restTime) && records == old(records)
      ensures exerciseTimerRunning == old(exerciseTimerRunning) && restTimerRunning == old(restTimerRunning)
    {
      currentWeight := text;
    }

    /** handleRest: in the exercise period, a rest of the exercise's rest time without finishing the set. */
    method HandleRest()
      requires Valid() && mounted
      modifies this
      ensures Valid() && mounted
      ensures old(period) == RestPeriod ==> period == RestPeriod && restTime == old(restTime)
      ensures old(period) == ExercisePeriod ==>
        period == RestPeriod && restTime == ParseRestTime(old(Current()).restTime)
      ensures exerciseTimerRunning == (period == ExercisePeriod) && restTimerRunning == (period == RestPeriod)
      ensures index == old(index) && currentSet == old(currentSet) && exerciseTime == old(exerciseTime)
      ensures records == old(records) && currentWeight == old(currentWeight)
    {
      if period != ExercisePeriod {
        return;
      }
      var restSeconds := ParseRestTime(Current().restTime);
      StartRest(restSeconds);
    }

    /**
     * setPeriod(REST) with startRestTimer(restSeconds): the countdown starts
     * from the given seconds and the period effect stops the exercise timer.
     */
    method StartRest(restSeconds: int)
      requires Valid() && mounted && period == ExercisePeriod
      modifies this
      ensures Valid() && mounted
      ensures period == RestPeriod && restTime == restSeconds && restTimerRunning && !exerciseTimerRunning
      ensures index == old(index) && currentSet == old(currentSet) && exerciseTime == old(exerciseTime)
      ensures records == old(records) && currentWeight == old(currentWeight)
    {
      period := RestPeriod;
      restTimerRunning := true;
      restTime := restSeconds;
      exerciseTimerRunning := false;
    }

    /** The skip-rest button of the rest period. */
    method SkipRest()
      requires Valid() && mounted
      modifies this
      ensures Valid() && mounted
      ensures period == ExercisePeriod && restTime == 0 && exerciseTimerRunning && !restTimerRunning
      ensures index == old(index) && currentSet == old(currentSet) && exerciseTime == old(exerciseTime)
      ensures records == old(records) && currentWeight == old(currentWeight)
    {
      restTimerRunning := false;
      period := ExercisePeriod;
      restTime := 0;
      exerciseTimerRunning := true;
    }

    /**
     * handleEndTraining: both timers stop, the hand-off is written to
     * sessionStorage and the page navigates away, which leaves it.
     */
    method EndTraining(store: Store, now: int)
      requires Valid() && mounted
      modifies this, store
      ensures Valid() && !mounted
      ensures store.session == old(store.session)[LastTrainingKey := HandOff(workout, old(records), startTime, now, old(exerciseTime))]
      ensures store.local == old(store.local)
      ensures index == old(index) && currentSet == old(currentSet) && period == old(period)
      ensures exerciseTime == old(exerciseTime) && restTime == old(restTime) && records == old(records)
      ensures currentWeight == old(currentWeight)
    {
      exerciseTimerRunning := false;
      restTimerRunning := false;
      var trainingData := HandOff(workout, records, startTime, now, exerciseTime);
      store.session := store.session[LastTrainingKey := trainingData];
      mounted := false;
    }

    /** The unmount cleanup when the page is left any other way. */
    method Leave()
      requires Valid() && mounted
      modifies this
      ensures Valid() && !mounted
      ensures index == old(index) && currentSet == old(currentSet) && period == old(period)
      ensures exerciseTime == old(exerciseTime) && restTime == old(restTime) && records == old(records)
      ensures currentWeight == old(currentWeight)
    {
      exerciseTimerRunning := false;
      restTimerRunning := false;
      mounted := false;
    }

    /**
     * handleNextSet: in the exercise period, the set is recorded and then the
     * session rests, moves to the next exercise, or ends. handleNextExercise
     * and handleEndTraining run within the same click, so the end of the
     * session hands off the records and exercise time the click started from.
     */
    method HandleNextSet(store: Store, now: int)
      requires Valid() && mounted
      modifies this, store
      ensures Valid()
      ensures store.local == old(store.local)
      ensures old(period) == RestPeriod ==>
        mounted && period == RestPeriod && records == old(records) && index == old(index)
        && currentSet == old(currentSet) && store.session == old(store.session)
        && exerciseTime == old(exerciseTime) && restTime == old(restTime)
        && currentWeight == old(currentWeight)
        && exerciseTimerRunning == old(exerciseTimerRunning) && restTimerRunning == old(restTimerRunning)
      ensures old(period) == ExercisePeriod ==>
        var rec := RecordOf(old(Current()), old(currentSet), old(currentWeight), old(exerciseTime));
        match NextSetBranch(old(currentSet), old(Current()).sets, old(index), |workout.exercises|)
        case ToRest =>
          && mounted && records == old(records) + [rec]
          && index == old(index) && currentSet == old(currentSet) + 1
          && period == RestPeriod && restTime == ParseRestTime(old(Current()).restTime)
          && exerciseTime == 0 && currentWeight == []
          && store.session == old(store.session)
        case ToNextExercise =>
          && mounted && records == old(records) + [rec]
          && index == old(index) + 1 && currentSet == 1
          && period == ExercisePeriod && exerciseTime == 0 && currentWeight == []
          && store.session == old(store.session)
        case ToFinish =>
          && !mounted && records == old(records)
          && index == old(index) && currentSet == old(currentSet) && period == old(period)
          && exerciseTime == old(exerciseTime) && restTime == old(restTime)
          && currentWeight == old(currentWeight)
          && store.session == old(store.session)[LastTrainingKey :=
               HandOff(workout, old(records), startTime, now, old(exerciseTime))]
    {
      if period != ExercisePeriod {
        return;
      }
      var exercise := Current();
      var rec := RecordOf(exercise, currentSet, currentWeight, exerciseTime);
      var branch := NextSetBranch(currentSet, exercise.sets, index, |workout.exercises|);
      if branch == ToFinish {
        EndTraining(store, now);
      } else if branch == ToRest {
        var restSeconds := ParseRestTime(exercise.restTime);
        FinishSetAndRest(restSeconds);
      } else {
        FinishSetAndMoveOn();
      }
    }

    /** handleNextSet when more sets remain: record the set, reset the counters, rest for the given seconds. */
    method FinishSetAndRest(restSeconds: int)
      requires Valid() && mounted && period == ExercisePeriod && currentSet < Current().sets
      modifies this
      ensures Valid() && mounted
      ensures records == old(records) + [RecordOf(old(Current()), old(currentSet), old(currentWeight), old(exerciseTime))]
      ensures index == old(index) && currentSet == old(currentSet) + 1
      ensures period == RestPeriod && restTime == restSeconds
      ensures exerciseTime == 0 && currentWeight == []
    {
      var rec := RecordOf(Current(), currentSet, currentWeight, exerciseTime);
      TagsSnoc(records, rec);
      LabelledSnoc(records, rec);
      ProgressStep(workout.exercises, index, currentSet);
      records := records + [rec];
      exerciseTime := 0;
      currentWeight := [];
      currentSet := currentSet + 1;
      StartRest(restSeconds);
    }

    /**
     * handleNextSet on an exercise's last set when another exercise follows:
     * record the set, then handleNextExercise moves to set 1 of the next
     * exercise with no rest; the exercise timer keeps running.
     */
    method FinishSetAndMoveOn()
      requires Valid() && mounted && period == ExercisePeriod
      requires currentSet >= Current().sets && index < |workout.exercises| - 1
      modifies this
      ensures Valid() && mounted
      ensures records == old(records) + [RecordOf(old(Current()), old(currentSet), old(currentWeight), old(exerciseTime))]
      ensures index == old(index) + 1 && currentSet == 1
      ensures period == ExercisePeriod && exerciseTime == 0 && currentWeight == []
    {
      var rec := RecordOf(Current(), currentSet, currentWeight, exerciseTime);
      TagsSnoc(records, rec);
      LabelledSnoc(records, rec);
      ProgressMovesOn(workout.exercises, index, currentSet);
      records := records + [rec];
      index := index + 1;
      currentSet := 1;
      exerciseTime := 0;
      currentWeight := [];
    }
  }

  /** Whatever the session has done when it is ended, its records are the plan's first sets in order. */
  lemma EndedSessionFollowsPlan(exs: seq<Exercise>, index: nat, setNo: int, records: seq<SetRecord>)
    requires index < |exs| && 1 <= setNo <= SetCount(exs[index])
    requires Tags(records) == Progress(exs, index, setNo)
    ensures Tags(records) < Plan(exs)
    ensures |records| < |Plan(exs)|
  {
    ProgressIsPlanPrefix(exs, index, setNo);
  }
}
