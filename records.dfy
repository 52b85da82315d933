/**
 * What the summary page and the history page compute from a session's set
 * records: the groups by exercise name that both build with the same
 * reduce (src/components/TrainingSummary.jsx and src/components/History.jsx),
 * and the summary's set count, exercise count and time sum.
 */
module Records {
  import opened Entities

  /** One key of the accumulator object and the records pushed under it. */
  datatype Group = Group(name: string, members: seq<SetRecord>)

  function GroupNames(gs: seq<Group>): (ns: seq<string>)
    ensures |ns| == |gs| && forall i :: 0 <= i < |gs| ==> ns[i] == gs[i].name
  {
    seq(|gs|, i requires 0 <= i < |gs| => gs[i].name)
  }

  /** The position of the group with that name, or -1: the lookup acc[name]. */
  function GroupIndex(gs: seq<Group>, name: string): (k: int)
    ensures -1 <= k < |gs|
    ensures k >= 0 ==> gs[k].name == name
    ensures k == -1 <==> forall i :: 0 <= i < |gs| ==> gs[i].name != name
  {
    if gs == [] then -1
    else if gs[|gs| - 1].name == name then |gs| - 1
    else GroupIndex(gs[..|gs| - 1], name)
  }

  /**
   * One step of the reduce: if (!acc[name]) acc[name] = []; then
   * acc[name].push(record).
   */
  function AddToGroups(gs: seq<Group>, r: SetRecord): seq<Group> {
    var k := GroupIndex(gs, r.exerciseName);
    if k < 0 then gs + [Group(r.exerciseName, [r])]
    else gs[k := gs[k].(members := gs[k].members + [r])]
  }

  /** The reduce over the whole list, from the first record to the last. */
  function GroupsOf(rs: seq<SetRecord>): seq<Group> {
    if rs == [] then [] else AddToGroups(GroupsOf(rs[..|rs| - 1]), rs[|rs| - 1])
  }

  /**
   * The reduce as the source runs it: a loop over the records that creates a
   * group the first time a name appears and pushes the record into it.
   */
  method GroupRecords(rs: seq<SetRecord>) returns (gs: seq<Group>)
    ensures gs == GroupsOf(rs)
  {
    gs := [];
    var i := 0;
    while i < |rs|
      invariant 0 <= i <= |rs|
      invariant gs == GroupsOf(rs[..i])
    {
      var record := rs[i];
      ghost var before := gs;
      var k := GroupIndex(gs, record.exerciseName);
      if k < 0 {
        gs := gs + [Group(record.exerciseName, [])];
        k := |gs| - 1;
      }
      gs := gs[k := gs[k].(members := gs[k].members + [record])];
      if GroupIndex(before, record.exerciseName) < 0 {
        assert [] + [record] == [record];
        assert gs == before + [Group(record.exerciseName, [record])];
      }
      assert gs == AddToGroups(before, record);
      assert rs[..i + 1][..i] == rs[..i];
      i := i + 1;
    }
    assert rs[..i] == rs;
  }

  // ------------------------------------------ reference definitions

  /** The records with that name, in input order. */
  function WithName(rs: seq<SetRecord>, name: string): (m: seq<SetRecord>)
    ensures |m| <= |rs|
    ensures forall i :: 0 <= i < |m| ==> m[i].exerciseName == name
  {
    if rs == [] then []
    else
      var m := WithName(rs[..|rs| - 1], name);
      if rs[|rs| - 1].exerciseName == name then m + [rs[|rs| - 1]] else m
  }

  function NameSet(rs: seq<SetRecord>): set<string> {
    set i | 0 <= i < |rs| :: rs[i].exerciseName
  }

  /** The names in order of first appearance, each once. */
  function DistinctNames(rs: seq<SetRecord>): seq<string> {
    if rs == [] then []
    else
      var d := DistinctNames(rs[..|rs| - 1]);
      var n := rs[|rs| - 1].exerciseName;
      if n in d then d else d + [n]
  }

  /** Where a name first appears. */
  function FirstIndex(rs: seq<SetRecord>, name: string): (i: nat)
    requires name in NameSet(rs)
    ensures i < |rs| && rs[i].exerciseName == name
    ensures forall j :: 0 <= j < i ==> rs[j].exerciseName != name
  {
    if rs[0].exerciseName == name then 0
    else
      assert name in NameSet(rs[1..]) by {
        var k :| 0 <= k < |rs| && rs[k].exerciseName == name;
        assert rs[1..][k - 1] == rs[k];
      }
      1 + FirstIndex(rs[1..], name)
  }

  lemma NameSetOfSnoc(rs: seq<SetRecord>, x: SetRecord)
    ensures NameSet(rs + [x]) == NameSet(rs) + {x.exerciseName}
  {
    var s := rs + [x];
    assert forall i :: 0 <= i < |rs| ==> s[i] == rs[i];
    assert s[|rs|] == x;
  }

  lemma WithNameAbsent(rs: seq<SetRecord>, name: string)
    requires name !in NameSet(rs)
    ensures WithName(rs, name) == []
  {
    if rs != [] {
      var p := rs[..|rs| - 1];
      assert NameSet(p) <= NameSet(rs) by {
        forall n | n in NameSet(p) ensures n in NameSet(rs) {
          var i :| 0 <= i < |p| && p[i].exerciseName == n;
          assert rs[i] == p[i];
        }
      }
      assert rs[|rs| - 1].exerciseName in NameSet(rs);
      WithNameAbsent(p, name);
    }
  }

  /** DistinctNames lists each name of the records exactly once, in order of first appearance. */
  lemma DistinctNamesFacts(rs: seq<SetRecord>)
    ensures var d := DistinctNames(rs);
      && (forall n :: n in d <==> n in NameSet(rs))
      && (forall i, j :: 0 <= i < j < |d| ==> d[i] != d[j])
      && (forall i, j :: 0 <= i < j < |d| ==> FirstIndex(rs, d[i]) < FirstIndex(rs, d[j]))
  {
    DistinctNamesCover(rs);
    DistinctNamesUnique(rs);
    DistinctNamesOrdered(rs);
  }

  lemma {:induction false} DistinctNamesCover(rs: seq<SetRecord>)
    ensures forall n :: n in DistinctNames(rs) <==> n in NameSet(rs)
  {
    if rs != [] {
      var p := rs[..|rs| - 1];
      var x := rs[|rs| - 1];
      assert rs == p + [x];
      DistinctNamesCover(p);
      NameSetOfSnoc(p, x);
    }
  }

  ghost predicate NoRepeats(d: seq<string>) {
    forall i, j :: 0 <= i < j < |d| ==> d[i] != d[j]
  }

  lemma {:induction false} DistinctNamesUnique(rs: seq<SetRecord>)
    ensures NoRepeats(DistinctNames(rs))
  {
    if rs != [] {
      var dp := DistinctNames(rs[..|rs| - 1]);
      var n := rs[|rs| - 1].exerciseName;
      DistinctNamesUnique(rs[..|rs| - 1]);
      if n !in dp {
        var d := dp + [n];
        assert DistinctNames(rs) == d;
        forall i, j | 0 <= i < j < |d| ensures d[i] != d[j] {
          if j == |dp| {
            assert d[i] == dp[i] && dp[i] in dp;
          }
        }
      }
    }
  }

  /** Every name in d occurs in the records, and d lists them by where they first occur. */
  ghost predicate InFirstOrder(d: seq<string>, rs: seq<SetRecord>) {
    && (forall n :: n in d ==> n in NameSet(rs))
    && (forall i, j :: 0 <= i < j < |d| ==> FirstIndex(rs, d[i]) < FirstIndex(rs, d[j]))
  }

  lemma {:induction false} DistinctNamesOrdered(rs: seq<SetRecord>)
    ensures InFirstOrder(DistinctNames(rs), rs)
  {
    if rs != [] {
      var p := rs[..|rs| - 1];
      var x := rs[|rs| - 1];
      assert rs == p + [x];
      DistinctNamesOrdered(p);
      if x.exerciseName in DistinctNames(p) {
        OrderKeptByOldName(p, x);
      } else {
        DistinctNamesCover(p);
        OrderKeptByNewName(p, x);
      }
    }
  }

  lemma OrderKeptByOldName(p: seq<SetRecord>, x: SetRecord)
    requires x.exerciseName in DistinctNames(p)
    requires InFirstOrder(DistinctNames(p), p)
    ensures InFirstOrder(DistinctNames(p + [x]), p + [x])
  {
    var rs := p + [x];
    assert rs[..|rs| - 1] == p;
    assert DistinctNames(rs) == DistinctNames(p);
    NameSetOfSnoc(p, x);
    forall n | n in DistinctNames(p) ensures FirstIndex(rs, n) == FirstIndex(p, n) {
      FirstIndexOfSnoc(p, x, n);
    }
  }

  lemma OrderKeptByNewName(p: seq<SetRecord>, x: SetRecord)
    requires x.exerciseName !in NameSet(p)
    requires x.exerciseName !in DistinctNames(p)
    requires InFirstOrder(DistinctNames(p), p)
    ensures InFirstOrder(DistinctNames(p + [x]), p + [x])
  {
    var rs := p + [x];
    var dp := DistinctNames(p);
    assert rs[..|rs| - 1] == p;
    assert DistinctNames(rs) == dp + [x.exerciseName];
    NameSetOfSnoc(p, x);
    FirstIndexOfNew(p, x);
    forall n | n in dp ensures FirstIndex(rs, n) == FirstIndex(p, n) {
      FirstIndexOfSnoc(p, x, n);
    }
  }

  lemma FirstIndexOfSnoc(p: seq<SetRecord>, x: SetRecord, n: string)
    requires n in NameSet(p)
    ensures n in NameSet(p + [x]) && FirstIndex(p + [x], n) == FirstIndex(p, n)
  {
    NameSetOfSnoc(p, x);
    var s := p + [x];
    var j := FirstIndex(p, n);
    assert s[j] == p[j];
  }

  lemma FirstIndexOfNew(p: seq<SetRecord>, x: SetRecord)
    requires x.exerciseName !in NameSet(p)
    ensures x.exerciseName in NameSet(p + [x]) && FirstIndex(p + [x], x.exerciseName) == |p|
  {
    NameSetOfSnoc(p, x);
  }

  // -------------------------------------------- the grouping is a partition

  /** The groups are the distinct names, each holding exactly the records with its name. */
  ghost predicate Partitions(gs: seq<Group>, rs: seq<SetRecord>) {
    && GroupNames(gs) == DistinctNames(rs)
    && forall i :: 0 <= i < |gs| ==> gs[i].members == WithName(rs, gs[i].name)
  }

  lemma WithNameSnoc(p: seq<SetRecord>, x: SetRecord, name: string)
    ensures WithName(p + [x], name) == if x.exerciseName == name then WithName(p, name) + [x] else WithName(p, name)
  {
    assert (p + [x])[..|p|] == p;
  }

  /** A record with a new name opens a group of its own at the end. */
  lemma PartitionAddsGroup(g: seq<Group>, p: seq<SetRecord>, x: SetRecord)
    requires Partitions(g, p)
    requires GroupIndex(g, x.exerciseName) < 0
    ensures Partitions(g + [Group(x.exerciseName, [x])], p + [x])
  {
    var n := x.exerciseName;
    var rs := p + [x];
    var g2 := g + [Group(n, [x])];
    assert rs[..|rs| - 1] == p;
    NewNameIsNotListed(g, p, n);
    assert DistinctNames(rs) == DistinctNames(p) + [n];
    assert GroupNames(g2) == GroupNames(g) + [n];
    WithNameAbsent(p, n);
    forall i | 0 <= i < |g2| ensures g2[i].members == WithName(rs, g2[i].name) {
      WithNameSnoc(p, x, g2[i].name);
    }
  }

  lemma NewNameIsNotListed(g: seq<Group>, p: seq<SetRecord>, n: string)
    requires GroupNames(g) == DistinctNames(p)
    requires GroupIndex(g, n) < 0
    ensures n !in DistinctNames(p) && n !in NameSet(p)
  {
    DistinctNamesCover(p);
  }

  /** A record with a known name goes to the end of that group only. */
  lemma PartitionGrowsGroup(g: seq<Group>, p: seq<SetRecord>, x: SetRecord, k: int)
    requires Partitions(g, p)
    requires k == GroupIndex(g, x.exerciseName) && k >= 0
    ensures Partitions(g[k := g[k].(members := g[k].members + [x])], p + [x])
  {
    var n := x.exerciseName;
    var rs := p + [x];
    assert rs[..|rs| - 1] == p;
    assert n in DistinctNames(p) by {
      assert GroupNames(g)[k] == n;
    }
    assert DistinctNames(rs) == DistinctNames(p);
    var g2 := g[k := g[k].(members := g[k].members + [x])];
    assert GroupNames(g2) == GroupNames(g);
    DistinctNamesUnique(p);
    forall i | 0 <= i < |g2| ensures g2[i].members == WithName(rs, g2[i].name) {
      WithNameSnoc(p, x, g2[i].name);
      if i != k {
        assert GroupNames(g)[i] != GroupNames(g)[k];
      }
    }
  }

  /**
   * The groups are the distinct names in order of first appearance, and each
   * group holds exactly the records with its name, in input order.
   */
  lemma {:induction false} GroupsOfIsPartition(rs: seq<SetRecord>)
    ensures GroupNames(GroupsOf(rs)) == DistinctNames(rs)
    ensures forall i :: 0 <= i < |GroupsOf(rs)| ==> GroupsOf(rs)[i].members == WithName(rs, GroupsOf(rs)[i].name)
  {
    if rs != [] {
      var p := rs[..|rs| - 1];
      var x := rs[|rs| - 1];
      assert rs == p + [x];
      GroupsOfIsPartition(p);
      var g := GroupsOf(p);
      var k := GroupIndex(g, x.exerciseName);
      if k < 0 {
        PartitionAddsGroup(g, p, x);
      } else {
        PartitionGrowsGroup(g, p, x, k);
      }
      assert Partitions(GroupsOf(rs), rs);
    }
  }

  /** Each group's members carry its name, and the group names are distinct. */
  lemma GroupsAreKeyedByName(rs: seq<SetRecord>)
    ensures var gs := GroupsOf(rs);
      && (forall i, j :: 0 <= i < |gs| && 0 <= j < |gs[i].members| ==> gs[i].members[j].exerciseName == gs[i].name)
      && (forall i, j :: 0 <= i < j < |gs| ==> gs[i].name != gs[j].name)
  {
    GroupsOfIsPartition(rs);
    DistinctNamesFacts(rs);
    var gs := GroupsOf(rs);
    forall i, j | 0 <= i < j < |gs| ensures gs[i].name != gs[j].name {
      assert GroupNames(gs)[i] == gs[i].name && GroupNames(gs)[j] == gs[j].name;
    }
  }

  // -------------------------------------------------------- statistics

  /** trainingData.records.length. */
  function TotalSets(rs: seq<SetRecord>): nat {
    |rs|
  }

  /** new Set(records.map(r => r.exerciseName)).size. */
  function ExercisesCompleted(rs: seq<SetRecord>): nat {
    |NameSet(rs)|
  }

  /** records.reduce((sum, r) => sum + (r.exerciseTime || 0), 0). */
  function TotalExerciseTime(rs: seq<SetRecord>): nat {
    if rs == [] then 0 else TotalExerciseTime(rs[..|rs| - 1]) + rs[|rs| - 1].exerciseTime
  }

  function SumSizes(gs: seq<Group>): nat {
    if gs == [] then 0 else SumSizes(gs[..|gs| - 1]) + |gs[|gs| - 1].members|
  }

  function SumTimes(gs: seq<Group>): nat {
    if gs == [] then 0 else SumTimes(gs[..|gs| - 1]) + TotalExerciseTime(gs[|gs| - 1].members)
  }

  /** The exercise count is the number of groups, and never more than the set count. */
  lemma ExercisesCompletedIsGroupCount(rs: seq<SetRecord>)
    ensures ExercisesCompleted(rs) == |GroupsOf(rs)|
    ensures ExercisesCompleted(rs) <= TotalSets(rs)
    ensures rs != [] ==> ExercisesCompleted(rs) >= 1
  {
    GroupsOfIsPartition(rs);
    DistinctNamesFacts(rs);
    var d := DistinctNames(rs);
    DistinctSeqCardinality(d);
    assert (set i | 0 <= i < |d| :: d[i]) == NameSet(rs) by {
      forall n | n in NameSet(rs) ensures n in (set i | 0 <= i < |d| :: d[i]) {
        var i :| 0 <= i < |d| && d[i] == n;
      }
    }
    assert |GroupNames(GroupsOf(rs))| == |GroupsOf(rs)|;
    NameSetBound(rs);
    if rs != [] {
      assert rs[0].exerciseName in NameSet(rs);
    }
  }

  lemma {:induction false} DistinctSeqCardinality(d: seq<string>)
    requires forall i, j :: 0 <= i < j < |d| ==> d[i] != d[j]
    ensures |set i | 0 <= i < |d| :: d[i]| == |d|
  {
    if d != [] {
      var p := d[..|d| - 1];
      DistinctSeqCardinality(p);
      var sp := set i | 0 <= i < |p| :: p[i];
      var sd := set i | 0 <= i < |d| :: d[i];
      assert sd == sp + {d[|d| - 1]} by {
        forall n | n in sd ensures n in sp + {d[|d| - 1]} {
          var i :| 0 <= i < |d| && d[i] == n;
          if i < |p| { assert p[i] == d[i]; }
        }
      }
      assert d[|d| - 1] !in sp;
    }
  }

  lemma {:induction false} NameSetBound(rs: seq<SetRecord>)
    ensures |NameSet(rs)| <= |rs|
  {
    if rs != [] {
      var p := rs[..|rs| - 1];
      assert rs == p + [rs[|rs| - 1]];
      NameSetOfSnoc(p, rs[|rs| - 1]);
      NameSetBound(p);
    }
  }

  /** The group sizes add up to the number of records: no record is lost or counted twice. */
  lemma {:induction false} GroupSizesSumToSetCount(rs: seq<SetRecord>)
    ensures SumSizes(GroupsOf(rs)) == TotalSets(rs)
    ensures SumTimes(GroupsOf(rs)) == TotalExerciseTime(rs)
  {
    if rs != [] {
      var p := rs[..|rs| - 1];
      var x := rs[|rs| - 1];
      GroupSizesSumToSetCount(p);
      var g := GroupsOf(p);
      var k := GroupIndex(g, x.exerciseName);
      if k < 0 {
        var g2 := g + [Group(x.exerciseName, [x])];
        assert g2[..|g2| - 1] == g;
        assert TotalExerciseTime([x]) == x.exerciseTime by {
          assert [x][..0] == [];
        }
      } else {
        var m := g[k].members + [x];
        SumsAfterUpdate(g, k, Group(x.exerciseName, m));
        assert m[..|m| - 1] == g[k].members;
      }
    }
  }

  /** Replacing one group changes the sums by the difference at that group. */
  lemma {:induction false} SumsAfterUpdate(gs: seq<Group>, k: nat, g: Group)
    requires k < |gs|
    ensures SumSizes(gs[k := g]) == SumSizes(gs) - |gs[k].members| + |g.members|
    ensures SumTimes(gs[k := g]) == SumTimes(gs) - TotalExerciseTime(gs[k].members) + TotalExerciseTime(g.members)
  {
    var u := gs[k := g];
    var n := |gs| - 1;
    if k < n {
      assert u[..n] == gs[..n][k := g];
      SumsAfterUpdate(gs[..n], k, g);
    } else {
      assert u[..n] == gs[..n];
    }
  }
}
