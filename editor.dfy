/**
 * The plan editor of src/components/WorkoutEditor.jsx: list edits on the
 * draft's exercises, the coercion of the sets and reps inputs, and the save
 * handler with its three guards and its write-back to the store.
 */
module Editor {
  import opened Wrappers
  import opened JsString
  import opened Entities
  import opened Storage

  /** The editor's `workout` state, a name and the exercises being edited. */
  datatype Draft = Draft(name: string, exercises: seq<Exercise>)

  /** The exercise the add button appends. */
  const NewExercise: Exercise := Exercise("", 3, 10, "30秒")

  /** addExercise. */
  function AddExercise(exercises: seq<Exercise>): (r: seq<Exercise>)
    ensures |r| == |exercises| + 1
    ensures r[..|exercises|] == exercises && r[|exercises|] == NewExercise
  {
    exercises + [NewExercise]
  }

  /** The field an input edits, with the value it writes. */
  datatype FieldValue = Name(text: string) | Sets(count: int) | Reps(count: int) | RestTime(text: string)

  /** { ...exercise, [field]: value }. */
  function SetField(e: Exercise, v: FieldValue): (r: Exercise)
    ensures r.name == (if v.Name? then v.text else e.name)
    ensures r.sets == (if v.Sets? then v.count else e.sets)
    ensures r.reps == (if v.Reps? then v.count else e.reps)
    ensures r.restTime == (if v.RestTime? then v.text else e.restTime)
  {
    match v
    case Name(t) => e.(name := t)
    case Sets(n) => e.(sets := n)
    case Reps(n) => e.(reps := n)
    case RestTime(t) => e.(restTime := t)
  }

  /** updateExercise, called by the inputs of the exercise at that index. */
  function UpdateExercise(exercises: seq<Exercise>, index: nat, v: FieldValue): (r: seq<Exercise>)
    requires index < |exercises|
    ensures |r| == |exercises|
    ensures r[index] == SetField(exercises[index], v)
    ensures forall j :: 0 <= j < |r| && j != index ==> r[j] == exercises[j]
  {
    exercises[index := SetField(exercises[index], v)]
  }

  /** removeExercise: exercises.filter((_, i) => i !== index), written as that filter. */
  function RemoveExercise(exercises: seq<Exercise>, index: int): (r: seq<Exercise>)
    ensures 0 <= index < |exercises| ==>
      |r| == |exercises| - 1 && r[..index] == exercises[..index] && r[index..] == exercises[index + 1..]
    ensures !(0 <= index < |exercises|) ==> r == exercises
  {
    if exercises == [] then []
    else
      var n := |exercises| - 1;
      var kept := RemoveExercise(exercises[..n], index);
      if n == index then kept else kept + [exercises[n]]
  }

  /** Removing the exercise just added gives the list back. */
  lemma RemoveUndoesAdd(exercises: seq<Exercise>)
    ensures RemoveExercise(AddExercise(exercises), |exercises|) == exercises
  {
  }

  /** A removal drops exactly the one element, as a multiset. */
  lemma RemoveDropsOne(exercises: seq<Exercise>, index: nat)
    requires index < |exercises|
    ensures multiset(RemoveExercise(exercises, index)) + multiset{exercises[index]} == multiset(exercises)
  {
    RemoveIsSplice(exercises, index);
    SpliceAround(exercises, index);
    MultisetOfSplice(exercises[..index], exercises[index], exercises[index + 1..]);
  }

  lemma SpliceAround<T>(s: seq<T>, i: nat)
    requires i < |s|
    ensures s == s[..i] + [s[i]] + s[i + 1..]
  {
  }

  lemma RemoveIsSplice(exercises: seq<Exercise>, index: nat)
    requires index < |exercises|
    ensures RemoveExercise(exercises, index) == exercises[..index] + exercises[index + 1..]
  {
    var r := RemoveExercise(exercises, index);
    assert r == r[..index] + r[index..];
  }

  lemma MultisetOfSplice<T>(a: seq<T>, x: T, b: seq<T>)
    ensures multiset(a + b) + multiset{x} == multiset(a + [x] + b)
  {
    assert a + [x] + b == a + ([x] + b);
  }

  /** parseInt(value) || 1, the coercion of the sets and reps inputs. */
  function CoerceCount(value: string): (n: int)
    ensures n != 0
    ensures ParseInt(value).None? || ParseInt(value) == Some(0) ==> n == 1
    ensures ParseInt(value).Some? && ParseInt(value).value != 0 ==> n == ParseInt(value).value
  {
    OrElse(ParseInt(value), 1)
  }

  /** A cleared input becomes 1. */
  lemma CoerceEmpty()
    ensures CoerceCount("") == 1
  {
    assert TrimStart("") == "";
    assert DigitsAfterSign("") == ("", 10);
  }

  /** A zero becomes 1. */
  lemma CoerceZero()
    ensures CoerceCount("0") == 1
  {
    ParseIntOfIntToString(0, []);
    NumeralZero();
  }

  lemma NumeralZero()
    ensures IntToString(0) + [] == "0"
  {
  }

  /** A negative count gets through the coercion. */
  lemma CoerceNegative()
    ensures CoerceCount("-2") == -2
  {
    ParseIntOfIntToString(-2, []);
    NumeralMinusTwo();
  }

  lemma NumeralMinusTwo()
    ensures IntToString(-2) + [] == "-2"
  {
  }

  // ---------------------------------------------------------------- save

  predicate Blank(s: string) {
    Trim(s) == []
  }

  datatype Problem = BlankName | NoExercises | BlankExerciseName

  /** The reasons handleSave refuses, tested in its order; None when it saves. */
  function SaveProblem(d: Draft): (p: Option<Problem>)
    ensures p.None? <==> !Blank(d.name) && |d.exercises| > 0 && forall i :: 0 <= i < |d.exercises| ==> !Blank(d.exercises[i].name)
    ensures p == Some(BlankName) <==> Blank(d.name)
    ensures p == Some(NoExercises) <==> !Blank(d.name) && |d.exercises| == 0
  {
    if Blank(d.name) then Some(BlankName)
    else if |d.exercises| == 0 then Some(NoExercises)
    else if exists i :: 0 <= i < |d.exercises| && Blank(d.exercises[i].name) then Some(BlankExerciseName)
    else None
  }

  /** workouts.map(w => w.id === id ? { ...workout, id } : w). */
  function ReplaceById(ws: seq<Workout>, id: string, d: Draft): (r: seq<Workout>)
    ensures |r| == |ws|
    ensures forall i :: 0 <= i < |ws| ==> r[i].id == ws[i].id
    ensures forall i :: 0 <= i < |ws| && ws[i].id == id ==> r[i] == Workout(id, d.name, d.exercises)
    ensures forall i :: 0 <= i < |ws| && ws[i].id != id ==> r[i] == ws[i]
  {
    seq(|ws|, i requires 0 <= i < |ws| => if ws[i].id == id then Workout(id, d.name, d.exercises) else ws[i])
  }

  /** Editing a plan whose id the store no longer holds saves the list unchanged. */
  lemma ReplaceMissingIdChangesNothing(ws: seq<Workout>, id: string, d: Draft)
    requires forall i :: 0 <= i < |ws| ==> ws[i].id != id
    ensures ReplaceById(ws, id, d) == ws
  {
  }

  /** After an edit the id finds the edited plan. */
  lemma ReplaceThenFind(ws: seq<Workout>, id: string, d: Draft)
    requires exists i :: 0 <= i < |ws| && ws[i].id == id
    ensures FindById(ReplaceById(ws, id, d), id) == Some(Workout(id, d.name, d.exercises))
  {
    var r := ReplaceById(ws, id, d);
    var i :| 0 <= i < |ws| && ws[i].id == id;
    assert r[i].id == id;
  }

  /** isEditing = !!id: a route id that is present and not empty. */
  predicate IsEditing(routeId: Option<string>) {
    routeId.Some? && routeId.value != []
  }

  /** The list handleSave writes when the guards pass. */
  function SavedList(ws: seq<Workout>, d: Draft, routeId: Option<string>, nowMs: int): seq<Workout> {
    if IsEditing(routeId) then ReplaceById(ws, routeId.value, d)
    else ws + [Workout(IntToString(nowMs), d.name, d.exercises)]
  }

  /** Creating a plan appends exactly one and leaves the others as they were. */
  lemma CreateAppendsOne(ws: seq<Workout>, d: Draft, nowMs: int)
    ensures var r := SavedList(ws, d, None, nowMs);
      |r| == |ws| + 1 && r[..|ws|] == ws && r[|ws|].id == IntToString(nowMs)
      && r[|ws|].name == d.name && r[|ws|].exercises == d.exercises
  {
  }

  datatype SaveOutcome = Rejected(problem: Problem) | Saved

  /**
   * handleSave: a refused draft writes nothing; otherwise the loaded list is
   * edited or extended and saved. Date.now() is the parameter nowMs; the
   * alert and the navigation are the outcome.
   */
  method HandleSave(store: Store, draft: Draft, routeId: Option<string>, nowMs: int) returns (outcome: SaveOutcome)
    modifies store
    ensures SaveProblem(draft).Some? ==>
      outcome == Rejected(SaveProblem(draft).value) && store.local == old(store.local)
    ensures SaveProblem(draft).None? ==>
      outcome == Saved
      && store.local == old(store.local)[WorkoutsKey := StoredWorkouts(SavedList(old(WorkoutsIn(store.local)), draft, routeId, nowMs))]
    ensures store.session == old(store.session)
    ensures HistoryIn(store.local) == old(HistoryIn(store.local))
  {
    var problem := SaveProblem(draft);
    if problem.Some? {
      return Rejected(problem.value);
    }
    var workouts := store.LoadWorkouts();
    if IsEditing(routeId) {
      var updated := ReplaceById(workouts, routeId.value, draft);
      store.SaveWorkouts(updated);
    } else {
      var newWorkout := Workout(IntToString(nowMs), draft.name, draft.exercises);
      store.SaveWorkouts(workouts + [newWorkout]);
    }
    outcome := Saved;
  }

  /** The editor's load effect: the plan with the route id becomes the draft, or there is none and the page redirects. */
  function LoadDraft(ws: seq<Workout>, id: string): (d: Option<Draft>)
    ensures d.None? <==> forall i :: 0 <= i < |ws| ==> ws[i].id != id
    ensures d.Some? ==> exists i :: 0 <= i < |ws| && ws[i].id == id
                          && d.value == Draft(ws[i].name, ws[i].exercises)
  {
    match FindById(ws, id)
    case None => None
    case Some(w) => Some(Draft(w.name, w.exercises))
  }

  /** Loading a plan and saving it unedited writes back the same list. */
  lemma LoadThenSaveKeepsPlan(ws: seq<Workout>, id: string)
    requires id != [] && LoadDraft(ws, id).Some?
    requires forall i, j :: 0 <= i < j < |ws| ==> ws[i].id != ws[j].id
    ensures SavedList(ws, LoadDraft(ws, id).value, Some(id), 0) == ws
  {
    var d := LoadDraft(ws, id).value;
    var r := SavedList(ws, d, Some(id), 0);
    forall i | 0 <= i < |ws| ensures r[i] == ws[i] {
      if ws[i].id == id {
        var k :| 0 <= k < |ws| && ws[k].id == id && d == Draft(ws[k].name, ws[k].exercises);
        assert k == i;
      }
    }
  }
}
