/**
 * The history page of src/components/History.jsx: the loaded history sorted
 * newest first, the expand toggle, delete and clear-all, and the text of a
 * set tag in the expanded view.
 */
module History {
  import opened Wrappers
  import opened Units
  import opened Time
  import opened Entities
  import opened Storage

  // ------------------------------------------------------------ the sort

  /**
   * data.sort((a, b) => new Date(b.date) - new Date(a.date)): Array.prototype.sort
   * is stable, so the result is the stable sort by date, newest first. It is
   * written here as an insertion sort.
   */
  function SortNewestFirst(hs: seq<HistoryEntry>): seq<HistoryEntry> {
    if hs == [] then [] else InsertByDate(SortNewestFirst(hs[..|hs| - 1]), hs[|hs| - 1])
  }

  /** Puts x after every entry that is as new as x or newer. */
  function InsertByDate(s: seq<HistoryEntry>, x: HistoryEntry): seq<HistoryEntry> {
    if s == [] then [x]
    else if s[|s| - 1].date >= x.date then s + [x]
    else InsertByDate(s[..|s| - 1], x) + [s[|s| - 1]]
  }

  predicate NewestFirst(s: seq<HistoryEntry>) {
    forall i, j :: 0 <= i < j < |s| ==> s[i].date >= s[j].date
  }

  /** The entries with that date, in their order. */
  function WithDate(s: seq<HistoryEntry>, d: int): seq<HistoryEntry> {
    if s == [] then []
    else WithDate(s[..|s| - 1], d) + (if s[|s| - 1].date == d then [s[|s| - 1]] else [])
  }

  lemma WithDateSnoc(s: seq<HistoryEntry>, y: HistoryEntry, d: int)
    ensures WithDate(s + [y], d) == WithDate(s, d) + (if y.date == d then [y] else [])
  {
    assert (s + [y])[..|s|] == s;
  }

  /** A newest-first list stays so when an entry no newer than all of it goes last. */
  lemma SnocKeepsOrder(s: seq<HistoryEntry>, y: HistoryEntry)
    requires NewestFirst(s)
    requires forall i :: 0 <= i < |s| ==> s[i].date >= y.date
    ensures NewestFirst(s + [y])
  {
  }

  lemma {:induction false} InsertKeepsEntries(s: seq<HistoryEntry>, x: HistoryEntry)
    ensures multiset(InsertByDate(s, x)) == multiset(s) + multiset{x}
    decreases |s|
  {
    if s != [] && s[|s| - 1].date < x.date {
      var p := s[..|s| - 1];
      InsertKeepsEntries(p, x);
      assert s == p + [s[|s| - 1]];
    }
  }

  lemma {:induction false} InsertKeepsOrder(s: seq<HistoryEntry>, x: HistoryEntry)
    requires NewestFirst(s)
    ensures NewestFirst(InsertByDate(s, x))
    decreases |s|
  {
    if s != [] && s[|s| - 1].date < x.date {
      var p := s[..|s| - 1];
      var last := s[|s| - 1];
      InsertKeepsOrder(p, x);
      InsertKeepsEntries(p, x);
      var q := InsertByDate(p, x);
      forall i | 0 <= i < |q| ensures q[i].date >= last.date {
        assert q[i] in multiset(q);
        if q[i] != x {
          assert q[i] in multiset(p);
          var k :| 0 <= k < |p| && p[k] == q[i];
          assert s[k] == p[k];
        }
      }
      SnocKeepsOrder(q, last);
    }
  }

  /** Entries of one date come out of an insertion in the order they went in. */
  lemma {:induction false} InsertKeepsDateOrder(s: seq<HistoryEntry>, x: HistoryEntry, d: int)
    ensures WithDate(InsertByDate(s, x), d) == WithDate(s, d) + (if x.date == d then [x] else [])
    decreases |s|
  {
    if s == [] {
      WithDateSnoc([], x, d);
    } else if s[|s| - 1].date >= x.date {
      WithDateSnoc(s, x, d);
    } else {
      var p := s[..|s| - 1];
      var last := s[|s| - 1];
      InsertKeepsDateOrder(p, x, d);
      WithDateSnoc(InsertByDate(p, x), last, d);
      assert x.date == d ==> last.date != d;
    }
  }

  /**
   * The loaded history comes out newest first, holds the same entries as it
   * was saved with, and entries with the same date keep their saved order.
   */
  lemma SortIsStableNewestFirst(hs: seq<HistoryEntry>)
    ensures NewestFirst(SortNewestFirst(hs))
    ensures multiset(SortNewestFirst(hs)) == multiset(hs)
    ensures forall d :: WithDate(SortNewestFirst(hs), d) == WithDate(hs, d)
  {
    SortIsNewestFirst(hs);
    SortKeepsEntries(hs);
    forall d ensures WithDate(SortNewestFirst(hs), d) == WithDate(hs, d) {
      SortKeepsDateOrder(hs, d);
    }
  }

  lemma {:induction false} SortIsNewestFirst(hs: seq<HistoryEntry>)
    ensures NewestFirst(SortNewestFirst(hs))
  {
    if hs != [] {
      SortIsNewestFirst(hs[..|hs| - 1]);
      InsertKeepsOrder(SortNewestFirst(hs[..|hs| - 1]), hs[|hs| - 1]);
    }
  }

  lemma {:induction false} SortKeepsEntries(hs: seq<HistoryEntry>)
    ensures multiset(SortNewestFirst(hs)) == multiset(hs)
  {
    if hs != [] {
      var p := hs[..|hs| - 1];
      SortKeepsEntries(p);
      SortStepEntries(SortNewestFirst(p), hs);
    }
  }

  /** One step of the sort keeps the entries, given that the sorted prefix has them. */
  lemma SortStepEntries(sorted: seq<HistoryEntry>, hs: seq<HistoryEntry>)
    requires hs != [] && multiset(sorted) == multiset(hs[..|hs| - 1])
    ensures multiset(InsertByDate(sorted, hs[|hs| - 1])) == multiset(hs)
  {
    InsertKeepsEntries(sorted, hs[|hs| - 1]);
    assert hs == hs[..|hs| - 1] + [hs[|hs| - 1]];
  }

  lemma {:induction false} SortKeepsDateOrder(hs: seq<HistoryEntry>, d: int)
    ensures WithDate(SortNewestFirst(hs), d) == WithDate(hs, d)
  {
    if hs != [] {
      var p := hs[..|hs| - 1];
      SortKeepsDateOrder(p, d);
      InsertKeepsDateOrder(SortNewestFirst(p), hs[|hs| - 1], d);
    }
  }

  /** A history that is already newest first, which is how addTrainingRecord leaves one with rising clocks, is unchanged. */
  lemma {:induction false} SortKeepsSortedHistory(hs: seq<HistoryEntry>)
    requires NewestFirst(hs)
    ensures SortNewestFirst(hs) == hs
  {
    if hs != [] {
      var p := hs[..|hs| - 1];
      assert NewestFirst(p);
      SortKeepsSortedHistory(p);
      if p != [] {
        assert p[|p| - 1].date >= hs[|hs| - 1].date;
      }
      assert hs == p + [hs[|hs| - 1]];
    }
  }

  /** One step of the insertion: x goes in front of a last entry older than it. */
  lemma InsertPassesOlder(s: seq<HistoryEntry>, x: HistoryEntry, j: nat)
    requires 0 < j <= |s| && s[j - 1].date < x.date
    ensures InsertByDate(s[..j], x) == InsertByDate(s[..j - 1], x) + [s[j - 1]]
  {
    assert s[..j][..j - 1] == s[..j - 1];
  }

  /** The insertion stops at the front or behind an entry as new as x. */
  lemma InsertStops(s: seq<HistoryEntry>, x: HistoryEntry, j: nat)
    requires j <= |s| && (j == 0 || s[j - 1].date >= x.date)
    ensures InsertByDate(s[..j], x) == s[..j] + [x]
  {
  }

  lemma SortOfPrefix(hs: seq<HistoryEntry>, i: nat)
    requires i < |hs|
    ensures SortNewestFirst(hs[..i + 1]) == InsertByDate(SortNewestFirst(hs[..i]), hs[i])
  {
    assert hs[..i + 1][..i] == hs[..i];
  }

  /**
   * The state of the array while x, taken from index i, moves left: the gap
   * is at j, the entries s[j..] have moved one place right, and inserting x
   * into s[..j] is what remains to do.
   */
  ghost predicate Shifting(arr: seq<HistoryEntry>, s: seq<HistoryEntry>, rest: seq<HistoryEntry>, x: HistoryEntry, i: nat, j: nat) {
    && j <= i < |arr| && |s| == i
    && arr[..j] == s[..j] && arr[j + 1..i + 1] == s[j..] && arr[i + 1..] == rest
    && InsertByDate(s, x) == InsertByDate(s[..j], x) + s[j..]
  }

  lemma ShiftStart(arr: seq<HistoryEntry>, i: nat)
    requires i < |arr|
    ensures Shifting(arr, arr[..i], arr[i + 1..], arr[i], i, i)
  {
    assert arr[..i][..i] == arr[..i];
  }

  lemma ShiftStep(arr: seq<HistoryEntry>, s: seq<HistoryEntry>, rest: seq<HistoryEntry>, x: HistoryEntry, i: nat, j: nat)
    requires Shifting(arr, s, rest, x, i, j) && j > 0 && arr[j - 1].date < x.date
    ensures Shifting(arr[j := arr[j - 1]], s, rest, x, i, j - 1)
  {
    var arr' := arr[j := arr[j - 1]];
    assert arr[j - 1] == s[j - 1];
    InsertPassesOlder(s, x, j);
    assert s[j - 1..] == [s[j - 1]] + s[j..];
    assert arr'[j..i + 1] == [s[j - 1]] + arr[j + 1..i + 1];
    assert arr'[..j - 1] == arr[..j - 1];
    assert arr'[i + 1..] == arr[i + 1..];
  }

  lemma ShiftDone(arr: seq<HistoryEntry>, s: seq<HistoryEntry>, rest: seq<HistoryEntry>, x: HistoryEntry, i: nat, j: nat)
    requires Shifting(arr, s, rest, x, i, j) && (j == 0 || arr[j - 1].date >= x.date)
    ensures arr[j := x][..i + 1] == InsertByDate(s, x)
    ensures arr[j := x][i + 1..] == rest
  {
    InsertStops(s, x, j);
    var b := arr[j := x];
    assert b[..j] == arr[..j];
    assert b[j + 1..i + 1] == arr[j + 1..i + 1];
    assert b[..i + 1] == b[..j] + [b[j]] + b[j + 1..i + 1];
  }

  /** Moves a[i] left past the older entries before it: one insertion of the sort. */
  method InsertLast(a: array<HistoryEntry>, i: nat)
    requires i < a.Length
    modifies a
    ensures a[..i + 1] == InsertByDate(old(a[..i]), old(a[i]))
    ensures a[i + 1..] == old(a[i + 1..])
  {
    var x := a[i];
    ghost var s := a[..i];
    ghost var rest := a[i + 1..];
    ShiftStart(a[..], i);
    var j := i;
    while j > 0 && a[j - 1].date < x.date
      invariant Shifting(a[..], s, rest, x, i, j)
    {
      ShiftStep(a[..], s, rest, x, i, j);
      a[j] := a[j - 1];
      j := j - 1;
    }
    ShiftDone(a[..], s, rest, x, i, j);
    a[j] := x;
  }

  /**
   * data.sort on the array itself, as an insertion sort; it leaves exactly
   * the stable newest-first order.
   */
  method SortInPlace(a: array<HistoryEntry>)
    modifies a
    ensures a[..] == SortNewestFirst(old(a[..]))
  {
    ghost var input := a[..];
    var i := 0;
    while i < a.Length
      invariant 0 <= i <= a.Length
      invariant a[..i] == SortNewestFirst(input[..i])
      invariant a[i..] == input[i..]
    {
      assert a[i] == input[i];
      InsertLast(a, i);
      SortOfPrefix(input, i);
      i := i + 1;
    }
    assert a[..] == a[..a.Length] && input == input[..a.Length];
  }

  // ---------------------------------------------------------- the toggle

  /** toggleExpand: expandedId === id ? null : id. */
  function Toggled(expandedId: Option<string>, id: string): (r: Option<string>)
    ensures r == Some(id) <==> expandedId != Some(id)
    ensures r.None? <==> expandedId == Some(id)
  {
    if expandedId == Some(id) then None else Some(id)
  }

  /** Two clicks on the same card from a collapsed page leave it collapsed. */
  lemma ToggleTwiceCollapses(id: string)
    ensures Toggled(Toggled(None, id), id) == None
  {
  }

  /** Clicking another card moves the expansion to it. */
  lemma ToggleOtherMoves(expandedId: string, id: string)
    requires expandedId != id
    ensures Toggled(Some(expandedId), id) == Some(id)
  {
  }

  // ----------------------------------------------------------- set tags

  /** record.weight is truthy: present and not the empty string. */
  predicate HasWeight(r: SetRecord) {
    r.weight.Some? && r.weight.value != []
  }

  /**
   * The two texts of one set tag: the weight with its unit label, and the
   * exercise time, which appears only when there is no weight.
   */
  function SetTag(r: SetRecord): (tag: (string, string))
    ensures tag.0 != [] <==> HasWeight(r)
    ensures tag.1 != [] <==> !HasWeight(r) && r.exerciseTime != 0
    ensures tag.0 == [] || tag.1 == []
    ensures HasWeight(r) ==> tag.0 == r.weight.value + Label(r.unit)
    ensures tag.1 != [] ==> tag.1 == FormatTime(r.exerciseTime)
  {
    var weightText := if HasWeight(r) then r.weight.value + Label(r.unit) else "";
    var timeText := if !HasWeight(r) && r.exerciseTime != 0 then FormatTime(r.exerciseTime) else "";
    (weightText, timeText)
  }

  // ------------------------------------------------------------- the page

  /**
   * The page state. deleteTrainingRecord and clearTrainingHistory, which the
   * page imports, are not defined in src/utils/storage.js; after them the page
   * reloads the history, so each handler takes the reloaded history as its
   * input.
   */
  class HistoryView {
    var history: seq<HistoryEntry>
    var expandedId: Option<string>

    constructor()
      ensures history == [] && expandedId == None
    {
      history := [];
      expandedId := None;
    }

    /** loadHistory. */
    method LoadHistory(store: Store)
      modifies this
      ensures history == SortNewestFirst(HistoryIn(store.local))
      ensures NewestFirst(history) && multiset(history) == multiset(HistoryIn(store.local))
      ensures expandedId == old(expandedId)
    {
      var data := store.LoadTrainingHistory();
      var a := new HistoryEntry[|data|](i requires 0 <= i < |data| => data[i]);
      assert a[..] == data;
      SortInPlace(a);
      SortIsStableNewestFirst(data);
      history := a[..];
    }

    /** toggleExpand. */
    method ToggleExpand(id: string)
      modifies this
      ensures expandedId == Toggled(old(expandedId), id)
      ensures history == old(history)
    {
      expandedId := if expandedId == Some(id) then None else Some(id);
    }

    /** handleDelete: a declined confirm changes nothing; the expanded card collapses if it was the one deleted. */
    method HandleDelete(id: string, confirmed: bool, reloaded: seq<HistoryEntry>)
      modifies this
      ensures !confirmed ==> history == old(history) && expandedId == old(expandedId)
      ensures confirmed ==> history == SortNewestFirst(reloaded) && NewestFirst(history)
      ensures confirmed ==> expandedId == (if old(expandedId) == Some(id) then None else old(expandedId))
    {
      if confirmed {
        SortIsNewestFirst(reloaded);
        history := SortNewestFirst(reloaded);
        if expandedId == Some(id) {
          expandedId := None;
        }
      }
    }

    /** handleClearAll: a confirmed clear collapses every card. */
    method HandleClearAll(confirmed: bool, reloaded: seq<HistoryEntry>)
      modifies this
      ensures !confirmed ==> history == old(history) && expandedId == old(expandedId)
      ensures confirmed ==> history == SortNewestFirst(reloaded) && NewestFirst(history) && expandedId == None
    {
      if confirmed {
        SortIsNewestFirst(reloaded);
        history := SortNewestFirst(reloaded);
        expandedId := None;
      }
    }
  }
}
