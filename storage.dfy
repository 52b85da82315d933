/**
 * src/utils/storage.js: lists kept in localStorage under two fixed keys, as
 * JSON text. JSON.stringify followed by JSON.parse gives back the value, so
 * the model stores the value itself. The same class holds sessionStorage,
 * which the training session and the summary page use for the hand-off.
 */
module Storage {
  import opened JsString
  import opened Entities

  const WorkoutsKey: string := "training_app_workouts"
  const HistoryKey: string := "training_app_history"

  /** The sessionStorage key of the hand-off from a session to the summary page. */
  const LastTrainingKey: string := "lastTraining"

  /** What a localStorage entry holds once parsed. */
  datatype Stored = StoredWorkouts(workouts: seq<Workout>) | StoredHistory(history: seq<HistoryEntry>)

  /** loadWorkouts on a given localStorage: the saved list, or [] when there is none. */
  function WorkoutsIn(local: map<string, Stored>): seq<Workout> {
    if WorkoutsKey in local && local[WorkoutsKey].StoredWorkouts? then local[WorkoutsKey].workouts else []
  }

  /** loadTrainingHistory on a given localStorage. */
  function HistoryIn(local: map<string, Stored>): seq<HistoryEntry> {
    if HistoryKey in local && local[HistoryKey].StoredHistory? then local[HistoryKey].history else []
  }

  class Store {
    /** localStorage: the key and the parsed value of its JSON text. */
    var local: map<string, Stored>
    /** sessionStorage. */
    var session: map<string, TrainingData>

    constructor()
      ensures local == map[] && session == map[]
    {
      local := map[];
      session := map[];
    }

    /** saveWorkouts. */
    method SaveWorkouts(workouts: seq<Workout>)
      modifies this
      ensures local == old(local)[WorkoutsKey := StoredWorkouts(workouts)]
      ensures session == old(session)
      ensures WorkoutsIn(local) == workouts
      ensures HistoryIn(local) == old(HistoryIn(local))
    {
      local := local[WorkoutsKey := StoredWorkouts(workouts)];
    }

    /** loadWorkouts. */
    method LoadWorkouts() returns (workouts: seq<Workout>)
      ensures workouts == WorkoutsIn(local)
      ensures WorkoutsKey !in local ==> workouts == []
    {
      if WorkoutsKey in local && local[WorkoutsKey].StoredWorkouts? {
        workouts := local[WorkoutsKey].workouts;
      } else {
        workouts := [];
      }
    }

    /** saveTrainingHistory. */
    method SaveTrainingHistory(history: seq<HistoryEntry>)
      modifies this
      ensures local == old(local)[HistoryKey := StoredHistory(history)]
      ensures session == old(session)
      ensures HistoryIn(local) == history
      ensures WorkoutsIn(local) == old(WorkoutsIn(local))
    {
      local := local[HistoryKey := StoredHistory(history)];
    }

    /** loadTrainingHistory. */
    method LoadTrainingHistory() returns (history: seq<HistoryEntry>)
      ensures history == HistoryIn(local)
      ensures HistoryKey !in local ==> history == []
    {
      if HistoryKey in local && local[HistoryKey].StoredHistory? {
        history := local[HistoryKey].history;
      } else {
        history := [];
      }
    }

    /**
     * addTrainingRecord: the record, with Date.now().toString() as its id and
     * the current date, goes in front of the saved history, and the new list is
     * saved and returned. The two clock readings are parameters.
     */
    method AddTrainingRecord(record: TrainingData, nowMs: int, dateMs: int) returns (history: seq<HistoryEntry>)
      modifies this
      ensures history == [HistoryEntry(record, IntToString(nowMs), dateMs)] + old(HistoryIn(local))
      ensures local == old(local)[HistoryKey := StoredHistory(history)]
      ensures session == old(session)
      ensures HistoryIn(local) == history
      ensures |history| == |old(HistoryIn(local))| + 1
      ensures history[1..] == old(HistoryIn(local))
      ensures WorkoutsIn(local) == old(WorkoutsIn(local))
    {
      var h := LoadTrainingHistory();
      h := [HistoryEntry(record, IntToString(nowMs), dateMs)] + h;
      SaveTrainingHistory(h);
      history := h;
    }
  }

  // ---------------------------------------------- facts about the two keys

  /** Saving a list of workouts and loading gives back that list. */
  lemma WorkoutsRoundTrip(local: map<string, Stored>, ws: seq<Workout>)
    ensures WorkoutsIn(local[WorkoutsKey := StoredWorkouts(ws)]) == ws
  {
  }

  /** Saving a history and loading gives back that history. */
  lemma HistoryRoundTrip(local: map<string, Stored>, hs: seq<HistoryEntry>)
    ensures HistoryIn(local[HistoryKey := StoredHistory(hs)]) == hs
  {
  }

  /** The two keys differ, so each list survives a save of the other. */
  lemma KeysAreIndependent(local: map<string, Stored>, ws: seq<Workout>, hs: seq<HistoryEntry>)
    ensures HistoryIn(local[WorkoutsKey := StoredWorkouts(ws)]) == HistoryIn(local)
    ensures WorkoutsIn(local[HistoryKey := StoredHistory(hs)]) == WorkoutsIn(local)
  {
    assert WorkoutsKey[13] != HistoryKey[13];
  }

  /** An empty store loads as two empty lists. */
  lemma EmptyStoreLoadsEmpty()
    ensures WorkoutsIn(map[]) == [] && HistoryIn(map[]) == []
  {
  }
}
