/**
 * The plan list of src/components/WorkoutList.jsx: the list is loaded from the
 * store, and a confirmed delete filters the plan out and writes the rest back.
 */
module WorkoutList {
  import opened Entities
  import opened Storage

  /** workouts.filter(w => w.id !== id). */
  function RemoveById(ws: seq<Workout>, id: string): (r: seq<Workout>)
    ensures |r| <= |ws|
    ensures forall i :: 0 <= i < |r| ==> r[i].id != id
    ensures forall w :: w in r <==> w in ws && w.id != id
  {
    if ws == [] then []
    else
      var kept := RemoveById(ws[..|ws| - 1], id);
      var w := ws[|ws| - 1];
      assert forall v :: v in ws <==> v in ws[..|ws| - 1] || v == w;
      if w.id == id then kept else kept + [w]
  }

  /** The filter works piece by piece, so the plans that stay keep their order. */
  lemma {:induction false} RemoveByIdOfConcat(a: seq<Workout>, b: seq<Workout>, id: string)
    ensures RemoveById(a + b, id) == RemoveById(a, id) + RemoveById(b, id)
    decreases |b|
  {
    if b == [] {
      assert a + b == a;
    } else {
      var b' := b[..|b| - 1];
      assert (a + b)[..|a + b| - 1] == a + b';
      RemoveByIdOfConcat(a, b', id);
    }
  }

  /** Deleting an id no plan has leaves the list as it was. */
  lemma {:induction false} RemoveAbsentIdChangesNothing(ws: seq<Workout>, id: string)
    requires forall i :: 0 <= i < |ws| ==> ws[i].id != id
    ensures RemoveById(ws, id) == ws
  {
    if ws != [] {
      RemoveAbsentIdChangesNothing(ws[..|ws| - 1], id);
    }
  }

  /** When ids are unique, a delete of a present id drops exactly one plan. */
  lemma {:induction false} RemovePresentIdDropsOne(ws: seq<Workout>, id: string, k: nat)
    requires k < |ws| && ws[k].id == id
    requires forall i :: 0 <= i < |ws| && i != k ==> ws[i].id != id
    ensures RemoveById(ws, id) == ws[..k] + ws[k + 1..]
  {
    assert ws == ws[..k] + [ws[k]] + ws[k + 1..];
    RemoveByIdOfConcat(ws[..k] + [ws[k]], ws[k + 1..], id);
    RemoveByIdOfConcat(ws[..k], [ws[k]], id);
    RemoveAbsentIdChangesNothing(ws[..k], id);
    RemoveAbsentIdChangesNothing(ws[k + 1..], id);
    assert RemoveById([ws[k]], id) == [];
  }

  /** The page's `workouts` state. */
  class WorkoutListView {
    var workouts: seq<Workout>

    constructor()
      ensures workouts == []
    {
      workouts := [];
    }

    /** The mount effect: setWorkouts(loadWorkouts()). */
    method Load(store: Store)
      modifies this
      ensures workouts == WorkoutsIn(store.local)
    {
      workouts := store.LoadWorkouts();
    }

    /**
     * handleDelete: a declined confirm changes nothing; a confirmed one
     * filters the page's list and saves that list, so page and store agree.
     */
    method HandleDelete(store: Store, id: string, confirmed: bool)
      modifies this, store
      ensures !confirmed ==> workouts == old(workouts) && store.local == old(store.local)
      ensures confirmed ==> workouts == RemoveById(old(workouts), id)
      ensures confirmed ==> store.local == old(store.local)[WorkoutsKey := StoredWorkouts(workouts)]
      ensures confirmed ==> WorkoutsIn(store.local) == workouts
      ensures HistoryIn(store.local) == old(HistoryIn(store.local))
      ensures store.session == old(store.session)
    {
      if confirmed {
        var updated := RemoveById(workouts, id);
        workouts := updated;
        store.SaveWorkouts(updated);
      }
    }
  }
}
