/**
 The memory of a process and all its descendants (`processTreeRssBytes`,
 scripts/benchmarks/memory.bench.ts). /proc is read once: `children` holds the child list of every process
 whose list can be read, a token that is no number is None, and a process without a readable
 memory size counts as 0.
 */
module ProcessTree {
  import opened Wire

  type Pid = nat

  datatype Proc = Proc(children: map<Pid, seq<Option<Pid>>>, rss: map<Pid, int>)

  function RssOf(proc: Proc, p: Pid): (n: int) {
    if p in proc.rss then proc.rss[p] else 0
  }

  ghost predicate IsChild(proc: Proc, parent: Pid, child: Pid) {
    parent in proc.children && Some(child) in proc.children[parent]
  }

  /** A chain of parents and children. */
  ghost predicate IsPath(proc: Proc, path: seq<Pid>) {
    path != [] && forall i :: 0 <= i < |path| - 1 ==> IsChild(proc, path[i], path[i + 1])
  }

  ghost predicate Reaches(proc: Proc, host: Pid, p: Pid) {
    exists path :: IsPath(proc, path) && path[0] == host && path[|path| - 1] == p
  }

  /** Every process that is named anywhere. */
  ghost function Named(proc: Proc, host: Pid): (s: set<Pid>) {
    {host} + (set p, i | p in proc.children && 0 <= i < |proc.children[p]| &&
              proc.children[p][i].Some? :: proc.children[p][i].value)
  }

  lemma ChildIsNamed(proc: Proc, host: Pid, parent: Pid, child: Pid)
    requires IsChild(proc, parent, child)
    ensures child in Named(proc, host)
  {
    var list := proc.children[parent];
    var i :| 0 <= i < |list| && list[i] == Some(child);
  }

  ghost function AnyOf(s: set<Pid>): (p: Pid)
    requires s != {}
    ensures p in s
  {
    var p: Pid :| p in s;
    p
  }

  ghost function Sum(proc: Proc, s: set<Pid>): (n: int)
    decreases |s|
  {
    if s == {} then 0 else RssOf(proc, AnyOf(s)) + Sum(proc, s - {AnyOf(s)})
  }

  /** It does not matter in which order the processes are added up. */
  lemma {:induction false} SumWithout(proc: Proc, s: set<Pid>, p: Pid)
    requires p in s
    ensures Sum(proc, s) == RssOf(proc, p) + Sum(proc, s - {p})
    decreases |s|
  {
    hide RssOf, AnyOf;
    var q := AnyOf(s);
    if q != p {
      SumWithout(proc, s - {q}, p);
      SumWithout(proc, s - {p}, q);
      assert s - {q} - {p} == s - {p} - {q};
    }
  }

  lemma SumInsert(proc: Proc, s: set<Pid>, p: Pid)
    requires p !in s
    ensures Sum(proc, s + {p}) == Sum(proc, s) + RssOf(proc, p)
  {
    SumWithout(proc, s + {p}, p);
    assert s + {p} - {p} == s;
  }

  /** A process counts its own memory, and none if its memory cannot be read. */
  lemma SumOfOne(proc: Proc, p: Pid)
    ensures Sum(proc, {p}) == if p in proc.rss then proc.rss[p] else 0
    ensures Sum(proc, {}) == 0
  {
    SumWithout(proc, {p}, p);
    assert {p} - {p} == {};
  }

  lemma HostReached(proc: Proc, host: Pid)
    ensures Reaches(proc, host, host)
  {
    assert IsPath(proc, [host]);
  }

  lemma ChildReached(proc: Proc, host: Pid, parent: Pid, child: Pid)
    requires Reaches(proc, host, parent) && IsChild(proc, parent, child)
    ensures Reaches(proc, host, child)
  {
    var path :| IsPath(proc, path) && path[0] == host && path[|path| - 1] == parent;
    var longer := path + [child];
    forall i | 0 <= i < |longer| - 1
      ensures IsChild(proc, longer[i], longer[i + 1])
    {
      if i < |path| - 1 {
        assert IsChild(proc, path[i], path[i + 1]);
      }
    }
    assert IsPath(proc, longer);
  }

  /** A set with the host in it and every child of a member contains all that is reached. */
  lemma {:induction false} ClosedContainsReached(proc: Proc, s: set<Pid>, path: seq<Pid>, i: nat)
    requires IsPath(proc, path) && path[0] in s && i < |path|
    requires forall p, c :: p in s && IsChild(proc, p, c) ==> c in s
    ensures path[i] in s
    decreases i
  {
    if i > 0 {
      ClosedContainsReached(proc, s, path, i - 1);
      assert IsChild(proc, path[i - 1], path[i]);
    }
  }

  /** The processes reached from the host. */
  ghost function Reached(proc: Proc, host: Pid): (s: set<Pid>) {
    set p | p in Named(proc, host) && Reaches(proc, host, p)
  }

  /** Whatever a chain leads to is in that set, and nothing else is. */
  lemma ReachedIff(proc: Proc, host: Pid, p: Pid)
    ensures p in Reached(proc, host) <==> Reaches(proc, host, p)
  {
    if Reaches(proc, host, p) {
      var path :| IsPath(proc, path) && path[0] == host && path[|path| - 1] == p;
      if |path| > 1 {
        assert IsChild(proc, path[|path| - 2], path[|path| - 2 + 1]);
        ChildIsNamed(proc, host, path[|path| - 2], p);
      }
    }
  }

  /** The children that a node still has to contribute are all visited. */
  ghost predicate Expanded(proc: Proc, visited: set<Pid>, p: Pid) {
    forall c :: IsChild(proc, p, c) ==> c in visited
  }

  /** What the traversal keeps: everything visited is reached, counted once, and expanded or waiting. */
  ghost predicate Progress(proc: Proc, host: Pid, visited: set<Pid>, queue: seq<Pid>, total: int) {
    && host in visited && visited <= Named(proc, host)
    && (forall p :: p in queue ==> p in visited)
    && (forall p :: p in visited ==> Reaches(proc, host, p))
    && total == Sum(proc, visited)
  }

  /** The loop body for one parent: every child not seen before is counted and queued. */
  method VisitChildren(proc: Proc, ghost host: Pid, parent: Pid, visited: set<Pid>, queue: seq<Pid>, total: int)
    returns (visited': set<Pid>, queue': seq<Pid>, total': int)
    requires Progress(proc, host, visited, queue, total) && parent in visited
    ensures Progress(proc, host, visited', queue', total') && visited <= visited'
    ensures Expanded(proc, visited', parent)
    ensures forall p :: p in visited' && p !in queue' ==> p in visited && p !in queue
    ensures visited' == visited ==> queue' == queue
  {
    hide Reaches, Sum, Named;
    visited', queue', total' := visited, queue, total;
    if parent !in proc.children {
      return;
    }
    var list := proc.children[parent];
    for i := 0 to |list|
      invariant Progress(proc, host, visited', queue', total') && visited <= visited' && parent in visited'
      invariant forall j :: 0 <= j < i && list[j].Some? ==> list[j].value in visited'
      invariant forall p :: p in visited' && p !in queue' ==> p in visited && p !in queue
      invariant visited' == visited ==> queue' == queue
    {
      if list[i].Some? && list[i].value !in visited' {
        var child := list[i].value;
        assert IsChild(proc, parent, child);
        ChildIsNamed(proc, host, parent, child);
        ChildReached(proc, host, parent, child);
        SumInsert(proc, visited', child);
        ghost var before := queue';
        visited' := visited' + {child};
        total' := total' + RssOf(proc, child);
        queue' := queue' + [child];
        assert queue'[|before|] == child;
        assert forall p :: p in before ==> p in queue';
      }
    }
  }

  /**
   The traversal ends on every process graph, cyclic or not, and returns the memory of exactly the
   processes reached from the host, each counted once.
   */
  method ProcessTreeRssBytes(proc: Proc, host: Pid) returns (total: int)
    ensures total == Sum(proc, Reached(proc, host))
  {
    hide Sum, Reaches, Named, Reached;
    total := RssOf(proc, host);
    var visited := {host};
    var queue := [host];
    assert Progress(proc, host, visited, queue, total) by { AtStart(proc, host); }
    ghost var named := Named(proc, host);
    while |queue| > 0
      invariant Progress(proc, host, visited, queue, total)
      invariant forall p :: p in visited && p !in queue ==> Expanded(proc, visited, p)
      decreases named - visited, |queue|
    {
      var parent := queue[|queue| - 1];
      var rest := queue[..|queue| - 1];
      assert forall p :: p in queue ==> p == parent || p in rest by {
        assert queue == rest + [parent];
      }
      var v, q, t := VisitChildren(proc, host, parent, visited, rest, total);
      forall p | p in v && p !in q
        ensures Expanded(proc, v, p)
      {
        if p != parent {
          assert p in visited && p !in rest;
          assert p !in queue;
          assert Expanded(proc, visited, p);
        }
      }
      assert v != visited ==> named - v < named - visited by {
        if v != visited { Shrinks(named, visited, v); }
      }
      visited, queue, total := v, q, t;
    }
    forall p: Pid
      ensures p in visited <==> p in Reached(proc, host)
    {
      ReachedIff(proc, host, p);
      if Reaches(proc, host, p) {
        ReachedIsVisited(proc, host, visited, p);
      }
    }
    assert visited == Reached(proc, host);
  }

  lemma AtStart(proc: Proc, host: Pid)
    ensures Progress(proc, host, {host}, [host], RssOf(proc, host))
  {
    HostReached(proc, host);
    SumInsert(proc, {}, host);
    assert {} + {host} == {host};
  }

  lemma Shrinks(named: set<Pid>, a: set<Pid>, b: set<Pid>)
    requires a <= b <= named && a != b
    ensures named - b < named - a
  {
    assert b == a + (b - a);
    var p := AnyOf(b - a);
    assert p in named - a && p !in named - b;
  }

  lemma ReachedIsVisited(proc: Proc, host: Pid, visited: set<Pid>, p: Pid)
    requires host in visited && Reaches(proc, host, p)
    requires forall q :: q in visited ==> Expanded(proc, visited, q)
    ensures p in visited
  {
    var path :| IsPath(proc, path) && path[0] == host && path[|path| - 1] == p;
    forall q, c | q in visited && IsChild(proc, q, c)
      ensures c in visited
    {
      assert Expanded(proc, visited, q);
    }
    ClosedContainsReached(proc, visited, path, |path| - 1);
  }
}
