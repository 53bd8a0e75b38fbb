/**
 The control matrix of a benchmark report (`control_matrix` and `push_unique_label`,
 crates/execution/src/benchmark.rs): scenarios grouped by workload through an index from workload to row,
 against a definition that does not know the index.
 */
module ControlMatrix {
  import opened BenchmarkRun

  datatype Row = Row(workload: string, runtimes: seq<string>, modes: seq<string>, scenarioIds: seq<string>)

  // ---------------------------------------------------------------------
  // Group by, without an index
  // ---------------------------------------------------------------------

  /** Each value once, in the order of first appearance. */
  function Distinct(s: seq<string>): (d: seq<string>)
    ensures forall x :: x in d <==> x in s
    ensures forall i, j :: 0 <= i < j < |d| ==> d[i] != d[j]
  {
    if s == [] then []
    else
      assert s == s[..|s| - 1] + [s[|s| - 1]];
      Push(Distinct(s[..|s| - 1]), s[|s| - 1])
  }

  /** `push_unique_label`. */
  function Push(labels: seq<string>, value: string): (r: seq<string>) {
    if value in labels then labels else labels + [value]
  }

  function Map(scenarios: seq<Definition>, f: Definition -> string): (s: seq<string>)
    ensures |s| == |scenarios| && forall i :: 0 <= i < |s| ==> s[i] == f(scenarios[i])
  {
    seq(|scenarios|, i requires 0 <= i < |scenarios| => f(scenarios[i]))
  }

  function Of(scenarios: seq<Definition>, workload: string): (r: seq<Definition>)
    ensures forall i :: 0 <= i < |r| ==> r[i].workload == workload
  {
    if scenarios == [] then []
    else
      var front := Of(scenarios[..|scenarios| - 1], workload);
      if scenarios[|scenarios| - 1].workload == workload then front + [scenarios[|scenarios| - 1]] else front
  }

  function Workloads(scenarios: seq<Definition>): (w: seq<string>) {
    Distinct(Map(scenarios, (s: Definition) => s.workload))
  }

  /** The row of a workload: what its own scenarios say, in their order. */
  function RowOf(scenarios: seq<Definition>, workload: string): (r: Row) {
    var own := Of(scenarios, workload);
    Row(workload, Distinct(Map(own, (s: Definition) => s.runtime)), Distinct(Map(own, (s: Definition) => s.mode)),
        Map(own, (s: Definition) => s.id))
  }

  /** One row for each workload, in the order of first appearance. */
  function GroupBy(scenarios: seq<Definition>): (rows: seq<Row>)
    ensures |rows| == |Workloads(scenarios)|
    ensures forall k :: 0 <= k < |rows| ==> rows[k] == RowOf(scenarios, Workloads(scenarios)[k])
  {
    var w := Workloads(scenarios);
    seq(|w|, k requires 0 <= k < |w| => RowOf(scenarios, w[k]))
  }

  // ---------------------------------------------------------------------
  // One more scenario
  // ---------------------------------------------------------------------

  lemma MapNext(scenarios: seq<Definition>, s: Definition, f: Definition -> string)
    ensures Map(scenarios + [s], f) == Map(scenarios, f) + [f(s)]
  {
  }

  lemma DistinctNext(s: seq<string>, x: string)
    ensures Distinct(s + [x]) == Push(Distinct(s), x)
  {
    assert (s + [x])[..|s|] == s;
  }

  lemma OfNext(scenarios: seq<Definition>, s: Definition, workload: string)
    ensures Of(scenarios + [s], workload) ==
      if s.workload == workload then Of(scenarios, workload) + [s] else Of(scenarios, workload)
  {
    assert (scenarios + [s])[..|scenarios|] == scenarios;
  }

  lemma WorkloadsNext(scenarios: seq<Definition>, s: Definition)
    ensures Workloads(scenarios + [s]) == Push(Workloads(scenarios), s.workload)
  {
    var f := (s: Definition) => s.workload;
    MapNext(scenarios, s, f);
    DistinctNext(Map(scenarios, f), s.workload);
  }

  /** The row a scenario is added to. */
  function Added(r: Row, s: Definition): (r': Row) {
    Row(r.workload, Push(r.runtimes, s.runtime), Push(r.modes, s.mode), r.scenarioIds + [s.id])
  }

  lemma RowNext(scenarios: seq<Definition>, s: Definition, workload: string)
    ensures RowOf(scenarios + [s], workload) ==
            if s.workload == workload then Added(RowOf(scenarios, workload), s) else RowOf(scenarios, workload)
  {
    hide Push, Distinct, Of;
    OfNext(scenarios, s, workload);
    if s.workload == workload {
      var own := Of(scenarios, workload);
      var runtime, mode, id := (s: Definition) => s.runtime, (s: Definition) => s.mode, (s: Definition) => s.id;
      MapNext(own, s, runtime);
      MapNext(own, s, mode);
      MapNext(own, s, id);
      DistinctNext(Map(own, runtime), s.runtime);
      DistinctNext(Map(own, mode), s.mode);
    }
  }

  lemma {:induction false} NoneOf(scenarios: seq<Definition>, workload: string)
    requires forall i :: 0 <= i < |scenarios| ==> scenarios[i].workload != workload
    ensures Of(scenarios, workload) == []
    decreases |scenarios|
  {
    if scenarios != [] {
      NoneOf(scenarios[..|scenarios| - 1], workload);
    }
  }

  lemma NewWorkloadHasNoRow(scenarios: seq<Definition>, workload: string)
    requires workload !in Workloads(scenarios)
    ensures RowOf(scenarios, workload) == Row(workload, [], [], [])
  {
    hide Of;
    var f := (s: Definition) => s.workload;
    forall i | 0 <= i < |scenarios|
      ensures scenarios[i].workload != workload
    {
      assert Map(scenarios, f)[i] in Map(scenarios, f);
    }
    NoneOf(scenarios, workload);
    assert Map([], (s: Definition) => s.runtime) == [] && Map([], (s: Definition) => s.mode) == [];
  }

  // ---------------------------------------------------------------------
  // The loop with the index
  // ---------------------------------------------------------------------

  /** Every row is indexed by its workload and by nothing else. */
  ghost predicate Indexed(rows: seq<Row>, index: map<string, nat>) {
    && (forall w :: w in index ==> index[w] < |rows| && rows[index[w]].workload == w)
    && (forall k :: 0 <= k < |rows| ==> rows[k].workload in index && index[rows[k].workload] == k)
  }

  /** Some scenario has the label `x` and stands before every scenario with the label `y`, within one workload. */
  ghost predicate Before(scenarios: seq<Definition>, workload: string, f: Definition -> string, x: string, y: string) {
    exists k :: 0 <= k < |scenarios| && scenarios[k].workload == workload && f(scenarios[k]) == x &&
      forall m :: 0 <= m <= k && scenarios[m].workload == workload ==> f(scenarios[m]) != y
  }

  /** The labels of a workload's scenarios: all of them, each once, in the order of first appearance. */
  ghost predicate Lists(labels: seq<string>, scenarios: seq<Definition>, workload: string, f: Definition -> string) {
    && (forall l :: l in labels <==>
          exists i :: 0 <= i < |scenarios| && scenarios[i].workload == workload && f(scenarios[i]) == l)
    && (forall i, j :: 0 <= i < j < |labels| ==> labels[i] != labels[j])
    && (forall i, j :: 0 <= i < j < |labels| ==> Before(scenarios, workload, f, labels[i], labels[j]))
  }

  lemma BeforeNext(scenarios: seq<Definition>, s: Definition, workload: string, f: Definition -> string,
                   x: string, y: string)
    requires Before(scenarios, workload, f, x, y)
    ensures Before(scenarios + [s], workload, f, x, y)
  {
    var k :| 0 <= k < |scenarios| && scenarios[k].workload == workload && f(scenarios[k]) == x &&
      forall m :: 0 <= m <= k && scenarios[m].workload == workload ==> f(scenarios[m]) != y;
    assert (scenarios + [s])[k] == scenarios[k];
  }

  lemma BeforeNew(labels: seq<string>, scenarios: seq<Definition>, s: Definition, workload: string,
                  f: Definition -> string, i: nat)
    requires Lists(labels, scenarios, workload, f) && i < |labels| && f(s) !in labels
    ensures Before(scenarios + [s], workload, f, labels[i], f(s))
  {
    assert labels[i] in labels;
    var k :| 0 <= k < |scenarios| && scenarios[k].workload == workload && f(scenarios[k]) == labels[i];
    assert (scenarios + [s])[k] == scenarios[k];
  }

  lemma MembersNext(labels: seq<string>, scenarios: seq<Definition>, s: Definition, workload: string,
                    f: Definition -> string, l: string)
    requires Lists(labels, scenarios, workload, f)
    ensures l in (if s.workload == workload then Push(labels, f(s)) else labels) <==>
      exists i ::
        0 <= i < |scenarios + [s]| && (scenarios + [s])[i].workload == workload && f((scenarios + [s])[i]) == l
  {
    var all := scenarios + [s];
    assert all[|scenarios|] == s;
    assert forall i :: 0 <= i < |scenarios| ==> all[i] == scenarios[i];
    if l in labels {
      var i :| 0 <= i < |scenarios| && scenarios[i].workload == workload && f(scenarios[i]) == l;
      assert all[i].workload == workload && f(all[i]) == l;
    }
  }

  lemma ListsNext(labels: seq<string>, scenarios: seq<Definition>, s: Definition, workload: string,
                  f: Definition -> string)
    requires Lists(labels, scenarios, workload, f)
    ensures Lists(if s.workload == workload then Push(labels, f(s)) else labels, scenarios + [s], workload, f)
  {
    var next := if s.workload == workload then Push(labels, f(s)) else labels;
    forall l
      ensures l in next <==>
        exists i ::
          0 <= i < |scenarios + [s]| && (scenarios + [s])[i].workload == workload && f((scenarios + [s])[i]) == l
    {
      MembersNext(labels, scenarios, s, workload, f, l);
    }
    forall i, j | 0 <= i < j < |next|
      ensures next[i] != next[j] && Before(scenarios + [s], workload, f, next[i], next[j])
    {
      if j < |labels| {
        BeforeNext(scenarios, s, workload, f, labels[i], labels[j]);
      } else {
        BeforeNew(labels, scenarios, s, workload, f, i);
      }
    }
  }

  /** Some scenario has the workload `v` and stands before every scenario with the workload `w`. */
  ghost predicate SeenFirst(scenarios: seq<Definition>, v: string, w: string) {
    exists k :: 0 <= k < |scenarios| && scenarios[k].workload == v &&
      forall m :: 0 <= m <= k ==> scenarios[m].workload != w
  }

  /** The ids of a workload's scenarios, in their order. */
  function IdsOf(scenarios: seq<Definition>, workload: string): (ids: seq<string>) {
    if scenarios == [] then []
    else
      IdsOf(scenarios[..|scenarios| - 1], workload) +
      if scenarios[|scenarios| - 1].workload == workload then [scenarios[|scenarios| - 1].id] else []
  }

  lemma RowOfNothing(workload: string)
    ensures RowOf([], workload) == Row(workload, [], [], [])
  {
  }

  /** What is in the row of a workload. */
  lemma {:induction false} RowLists(scenarios: seq<Definition>, workload: string)
    ensures Lists(RowOf(scenarios, workload).runtimes, scenarios, workload, (s: Definition) => s.runtime)
    ensures Lists(RowOf(scenarios, workload).modes, scenarios, workload, (s: Definition) => s.mode)
    ensures RowOf(scenarios, workload).scenarioIds == IdsOf(scenarios, workload)
    ensures RowOf(scenarios, workload).workload == workload
    decreases |scenarios|
  {
    hide RowOf, Lists;
    if scenarios == [] {
      RowOfNothing(workload);
      assert Lists([], scenarios, workload, (s: Definition) => s.runtime) by {
        ListsNothing(workload, (s: Definition) => s.runtime);
      }
      assert Lists([], scenarios, workload, (s: Definition) => s.mode) by {
        ListsNothing(workload, (s: Definition) => s.mode);
      }
    } else {
      var done, s := scenarios[..|scenarios| - 1], scenarios[|scenarios| - 1];
      assert scenarios == done + [s];
      RowLists(done, workload);
      RowNext(done, s, workload);
      ListsNext(RowOf(done, workload).runtimes, done, s, workload, (s: Definition) => s.runtime);
      ListsNext(RowOf(done, workload).modes, done, s, workload, (s: Definition) => s.mode);
    }
  }

  lemma ListsNothing(workload: string, f: Definition -> string)
    ensures Lists([], [], workload, f)
  {
  }

  /**
   The rows are the group-by, and the index leads from each workload to its row and from nothing else. Each row lists
   the runtimes, the modes and the ids of the scenarios of its workload.
   */
  method BuildControlMatrix(scenarios: seq<Definition>) returns (rows: seq<Row>, ghost rowIndexes: map<string, nat>)
    ensures rows == GroupBy(scenarios) && Indexed(rows, rowIndexes)
    ensures forall w :: w in rowIndexes <==> exists i :: 0 <= i < |scenarios| && scenarios[i].workload == w
    ensures forall i, j :: 0 <= i < j < |rows| ==> SeenFirst(scenarios, rows[i].workload, rows[j].workload)
    ensures forall k, l :: 0 <= k < |rows| ==>
      (l in rows[k].runtimes <==>
         exists i :: 0 <= i < |scenarios| && scenarios[i].workload == rows[k].workload && scenarios[i].runtime == l)
    ensures forall k, l :: 0 <= k < |rows| ==>
      (l in rows[k].modes <==>
         exists i :: 0 <= i < |scenarios| && scenarios[i].workload == rows[k].workload && scenarios[i].mode == l)
    ensures forall k :: 0 <= k < |rows| ==>
      && Lists(rows[k].runtimes, scenarios, rows[k].workload, (s: Definition) => s.runtime)
      && Lists(rows[k].modes, scenarios, rows[k].workload, (s: Definition) => s.mode)
      && rows[k].scenarioIds == IdsOf(scenarios, rows[k].workload)
  {
    hide RowOf, Workloads, Lists, SeenFirst, IdsOf;
    rows := [];
    var index: map<string, nat> := map[];
    assert Workloads([]) == [] by { NoWorkloads(); }
    for i := 0 to |scenarios|
      invariant rows == GroupBy(scenarios[..i]) && Indexed(rows, index)
    {
      var s := scenarios[i];
      ghost var done := scenarios[..i];
      assert scenarios[..i + 1] == done + [s];
      ghost var before := rows;
      if s.workload !in index {
        assert s.workload !in Workloads(done) by { RowWorkloads(done); }
        NewWorkloadHasNoRow(done, s.workload);
        rows := rows + [Row(s.workload, [], [], [])];
        index := index[s.workload := |rows| - 1];
      } else {
        RowWorkloads(done);
        assert Workloads(done)[index[s.workload]] == s.workload;
      }
      assert Indexed(rows, index);
      var k := index[s.workload];
      var row := rows[k];
      rows := rows[k := Added(row, s)];
      NextGroups(done, s, before, rows, k);
    }
    assert scenarios[..|scenarios|] == scenarios;
    rowIndexes := index;
    Contents(scenarios, rows, index);
  }

  lemma Contents(scenarios: seq<Definition>, rows: seq<Row>, index: map<string, nat>)
    requires rows == GroupBy(scenarios) && Indexed(rows, index)
    ensures forall w :: w in index <==> exists i :: 0 <= i < |scenarios| && scenarios[i].workload == w
    ensures forall i, j :: 0 <= i < j < |rows| ==> SeenFirst(scenarios, rows[i].workload, rows[j].workload)
    ensures forall k, l :: 0 <= k < |rows| ==>
      (l in rows[k].runtimes <==>
         exists i :: 0 <= i < |scenarios| && scenarios[i].workload == rows[k].workload && scenarios[i].runtime == l)
    ensures forall k, l :: 0 <= k < |rows| ==>
      (l in rows[k].modes <==>
         exists i :: 0 <= i < |scenarios| && scenarios[i].workload == rows[k].workload && scenarios[i].mode == l)
    ensures forall k :: 0 <= k < |rows| ==>
      && Lists(rows[k].runtimes, scenarios, rows[k].workload, (s: Definition) => s.runtime)
      && Lists(rows[k].modes, scenarios, rows[k].workload, (s: Definition) => s.mode)
      && rows[k].scenarioIds == IdsOf(scenarios, rows[k].workload)
  {
    hide RowOf, Workloads, Lists, IdsOf;
    forall k | 0 <= k < |rows|
      ensures Lists(rows[k].runtimes, scenarios, rows[k].workload, (s: Definition) => s.runtime)
      ensures Lists(rows[k].modes, scenarios, rows[k].workload, (s: Definition) => s.mode)
      ensures rows[k].scenarioIds == IdsOf(scenarios, rows[k].workload)
    {
      RowLists(scenarios, Workloads(scenarios)[k]);
    }
    forall k, l | 0 <= k < |rows|
      ensures l in rows[k].runtimes <==>
        exists i :: 0 <= i < |scenarios| && scenarios[i].workload == rows[k].workload && scenarios[i].runtime == l
      ensures l in rows[k].modes <==>
        exists i :: 0 <= i < |scenarios| && scenarios[i].workload == rows[k].workload && scenarios[i].mode == l
    {
      ListedLabels(rows[k], scenarios, l);
    }
    RowWorkloads(scenarios);
    forall i, j | 0 <= i < j < |rows|
      ensures SeenFirst(scenarios, rows[i].workload, rows[j].workload)
    {
      var k := WorkloadBefore(scenarios, i, j);
    }
    forall w
      ensures w in index <==> exists i :: 0 <= i < |scenarios| && scenarios[i].workload == w
    {
      WorkloadIff(scenarios, w);
      if w in Workloads(scenarios) {
        var k :| 0 <= k < |Workloads(scenarios)| && Workloads(scenarios)[k] == w;
        assert rows[k].workload == w;
      }
    }
  }

  lemma ListedLabels(row: Row, scenarios: seq<Definition>, l: string)
    requires Lists(row.runtimes, scenarios, row.workload, (s: Definition) => s.runtime)
    requires Lists(row.modes, scenarios, row.workload, (s: Definition) => s.mode)
    ensures l in row.runtimes <==>
      exists i :: 0 <= i < |scenarios| && scenarios[i].workload == row.workload && scenarios[i].runtime == l
    ensures l in row.modes <==>
      exists i :: 0 <= i < |scenarios| && scenarios[i].workload == row.workload && scenarios[i].mode == l
  {
    hide Before;
  }

  lemma WorkloadIff(scenarios: seq<Definition>, w: string)
    ensures w in Workloads(scenarios) <==> exists i :: 0 <= i < |scenarios| && scenarios[i].workload == w
  {
    var names := Map(scenarios, (s: Definition) => s.workload);
    assert forall i :: 0 <= i < |names| ==> names[i] == scenarios[i].workload;
    if w in names {
      var i :| 0 <= i < |names| && names[i] == w;
      assert scenarios[i].workload == w;
    }
    if i :| 0 <= i < |scenarios| && scenarios[i].workload == w {
      assert names[i] == w;
    }
  }

  lemma WorkloadBefore(scenarios: seq<Definition>, i: nat, j: nat) returns (k: nat)
    requires i < j < |Workloads(scenarios)|
    ensures k < |scenarios| && scenarios[k].workload == Workloads(scenarios)[i]
    ensures forall m :: 0 <= m <= k ==> scenarios[m].workload != Workloads(scenarios)[j]
  {
    hide Distinct;
    var names := Map(scenarios, (s: Definition) => s.workload);
    DistinctKeepsOrder(names, i, j);
    k := FirstSeen(names, Distinct(names)[i]);
    var last := FirstSeen(names, Distinct(names)[j]);
    assert forall m :: 0 <= m <= k ==> names[m] in names[..last];
  }

  lemma NoWorkloads()
    ensures Workloads([]) == []
  {
  }

  lemma RowWorkloads(scenarios: seq<Definition>)
    ensures forall k :: 0 <= k < |GroupBy(scenarios)| ==> GroupBy(scenarios)[k].workload == Workloads(scenarios)[k]
  {
  }

  lemma NextGroups(done: seq<Definition>, s: Definition, before: seq<Row>, after: seq<Row>, k: nat)
    requires before == GroupBy(done)
    requires s.workload in Workloads(done) ==>
      k < |before| && before[k].workload == s.workload && after == before[k := Added(before[k], s)]
    requires s.workload !in Workloads(done) ==>
      k == |before| && after == before + [Added(RowOf(done, s.workload), s)]
    ensures after == GroupBy(done + [s])
  {
    hide RowOf, Workloads, Added;
    WorkloadsNext(done, s);
    RowWorkloads(done);
    var oldWorkloads, newWorkloads := Workloads(done), Workloads(done + [s]);
    assert |after| == |newWorkloads|;
    forall j | 0 <= j < |after|
      ensures after[j] == RowOf(done + [s], newWorkloads[j])
    {
      RowNext(done, s, newWorkloads[j]);
      assert j < |oldWorkloads| ==> newWorkloads[j] == oldWorkloads[j];
      if j < |oldWorkloads| && j != k && s.workload == oldWorkloads[j] {
        assert s.workload in oldWorkloads;
        WorkloadsDistinct(done, j, k);
      }
    }
  }

  lemma WorkloadsDistinct(scenarios: seq<Definition>, i: nat, j: nat)
    requires i < |Workloads(scenarios)| && j < |Workloads(scenarios)| && i != j
    ensures Workloads(scenarios)[i] != Workloads(scenarios)[j]
  {
  }

  // ---------------------------------------------------------------------
  // Every scenario is in exactly one row
  // ---------------------------------------------------------------------

  /** The ids of the scenarios, as many times as they occur. */
  function Ids(scenarios: seq<Definition>): (ids: multiset<string>) {
    if scenarios == [] then multiset{} else Ids(scenarios[..|scenarios| - 1]) + multiset{scenarios[|scenarios| - 1].id}
  }

  /** The ids in all rows together. */
  function RowIds(rows: seq<Row>): (ids: multiset<string>) {
    if rows == [] then multiset{} else RowIds(rows[..|rows| - 1]) + multiset(rows[|rows| - 1].scenarioIds)
  }

  lemma {:induction false} RowIdsUpdate(rows: seq<Row>, k: nat, r: Row, id: string)
    requires k < |rows| && r.scenarioIds == rows[k].scenarioIds + [id]
    ensures RowIds(rows[k := r]) == RowIds(rows) + multiset{id}
    decreases |rows|
  {
    var n := |rows| - 1;
    if k < n {
      RowIdsUpdate(rows[..n], k, r, id);
      assert rows[k := r][..n] == rows[..n][k := r];
    } else {
      assert rows[k := r][..n] == rows[..n];
    }
  }

  /** The rows hold every scenario as often as it was given, and nothing else. */
  lemma {:induction false} RowsPartition(scenarios: seq<Definition>)
    ensures RowIds(GroupBy(scenarios)) == Ids(scenarios)
    decreases |scenarios|
  {
    hide RowOf, Workloads;
    if scenarios == [] {
      NoWorkloads();
    } else {
      var done, s := scenarios[..|scenarios| - 1], scenarios[|scenarios| - 1];
      assert scenarios == done + [s];
      RowsPartition(done);
      var before := GroupBy(done);
      RowWorkloads(done);
      if s.workload in Workloads(done) {
        var k :| 0 <= k < |Workloads(done)| && Workloads(done)[k] == s.workload;
        var after := before[k := Added(before[k], s)];
        NextGroups(done, s, before, after, k);
        RowIdsUpdate(before, k, Added(before[k], s), s.id);
      } else {
        NewWorkloadHasNoRow(done, s.workload);
        var last := Added(RowOf(done, s.workload), s);
        NextGroups(done, s, before, before + [last], |before|);
        assert (before + [last])[..|before|] == before;
        assert last.scenarioIds == [s.id];
      }
    }
  }

  /** Where a value is first seen. */
  function FirstSeen(s: seq<string>, x: string): (i: nat)
    requires x in s
    ensures i < |s| && s[i] == x && x !in s[..i]
  {
    if s[0] == x then 0
    else
      var i := 1 + FirstSeen(s[1..], x);
      assert s[..i] == [s[0]] + s[1..][..i - 1];
      i
  }

  lemma FirstSeenEarlier(s: seq<string>, x: string, i: nat)
    requires i < |s| && s[i] == x && x !in s[..i]
    ensures FirstSeen(s, x) == i
  {
    var j := FirstSeen(s, x);
    assert forall k :: 0 <= k < i ==> s[k] in s[..i];
    assert forall k :: 0 <= k < j ==> s[k] in s[..j];
  }

  lemma FirstSeenOfFront(s: seq<string>, x: string)
    requires s != [] && x in s[..|s| - 1]
    ensures FirstSeen(s, x) == FirstSeen(s[..|s| - 1], x)
  {
    var i := FirstSeen(s[..|s| - 1], x);
    assert s[..i] == s[..|s| - 1][..i];
    FirstSeenEarlier(s, x, i);
  }

  /** Duplicates go, and what stays is in the order it was first seen. */
  lemma {:induction false} DistinctKeepsOrder(s: seq<string>, i: nat, j: nat)
    requires i < j < |Distinct(s)|
    ensures FirstSeen(s, Distinct(s)[i]) < FirstSeen(s, Distinct(s)[j])
    decreases |s|
  {
    var front, d := s[..|s| - 1], Distinct(s[..|s| - 1]);
    FirstSeenOfFront(s, d[i]);
    if j < |d| {
      FirstSeenOfFront(s, d[j]);
      DistinctKeepsOrder(front, i, j);
    } else {
      FirstSeenEarlier(s, s[|s| - 1], |s| - 1);
    }
  }

  lemma {:induction false} OfIsFilter(scenarios: seq<Definition>, i: nat)
    requires i < |scenarios|
    ensures scenarios[i] in Of(scenarios, scenarios[i].workload)
    decreases |scenarios|
  {
    var n := |scenarios| - 1;
    if i < n {
      OfIsFilter(scenarios[..n], i);
    }
  }

  /** Every scenario is in one row: the one of its workload. */
  lemma ScenarioIsInItsRow(scenarios: seq<Definition>, i: nat) returns (k: nat)
    requires i < |scenarios|
    ensures k < |GroupBy(scenarios)| && GroupBy(scenarios)[k].workload == scenarios[i].workload
    ensures scenarios[i].id in GroupBy(scenarios)[k].scenarioIds
    ensures forall j :: 0 <= j < |GroupBy(scenarios)| && GroupBy(scenarios)[j].workload == scenarios[i].workload ==>
      j == k
  {
    hide Distinct, Of;
    var w := scenarios[i].workload;
    OfIsFilter(scenarios, i);
    var f := (s: Definition) => s.workload;
    assert Map(scenarios, f)[i] in Map(scenarios, f);
    assert w in Workloads(scenarios);
    k :| 0 <= k < |Workloads(scenarios)| && Workloads(scenarios)[k] == w;
    var own := Of(scenarios, w);
    var j :| 0 <= j < |own| && own[j] == scenarios[i];
    assert GroupBy(scenarios)[k].scenarioIds[j] == scenarios[i].id;
  }
}
