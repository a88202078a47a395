/** A greedy feedback vertex set for a directed graph: while a depth-first
    search still finds a cycle, remove the vertex a heuristic scores
    highest. A graph is its list of vertices (non-negative ids) and a map
    from a vertex to its successors; a vertex without an entry has no
    successors. */
module FeedbackVertexSetSolver {
  import opened Wrappers

  datatype Graph = Graph(vertices: seq<int>, succ: map<int, seq<int>>)

  /** The successors of v, or none. */
  function Successors(g: Graph, v: int): seq<int> {
    if v in g.succ then g.succ[v] else []
  }

  ghost predicate Edge(g: Graph, a: int, b: int) {
    b in Successors(g, a)
  }

  /** Distinct vertices with ids that fit an `int` array index, and edges
      only between vertices. */
  ghost predicate Valid(g: Graph) {
    (forall i, j :: 0 <= i < j < |g.vertices| ==> g.vertices[i] != g.vertices[j]) &&
    (forall i :: 0 <= i < |g.vertices| ==> 0 <= g.vertices[i] < INT_MAX) &&
    (forall v :: v in g.succ ==> v in g.vertices) &&
    (forall v, w :: v in g.succ && w in g.succ[v] ==> w in g.vertices)
  }

  // ---------------------------------------------------------------------
  // Cycles
  // ---------------------------------------------------------------------

  /** Consecutive vertices of p are joined by edges. */
  ghost predicate IsPath(g: Graph, p: seq<int>) {
    forall i :: 0 <= i < |p| - 1 ==> Edge(g, p[i], p[i + 1])
  }

  /** A closed walk of at least one edge. */
  ghost predicate IsCycle(g: Graph, p: seq<int>) {
    |p| >= 2 && IsPath(g, p) && p[0] == p[|p| - 1]
  }

  ghost predicate HasCycle(g: Graph) {
    exists p :: IsCycle(g, p)
  }

  /** Ranks that drop along every edge out of a ranked vertex. */
  ghost predicate Ranked(g: Graph, rank: map<int, nat>) {
    forall x, w :: x in rank && Edge(g, x, w) ==> w in rank && rank[w] < rank[x]
  }

  lemma {:induction false} RankAlongPath(g: Graph, rank: map<int, nat>, p: seq<int>, i: nat)
    requires Ranked(g, rank) && IsPath(g, p) && |p| > 0 && p[0] in rank && i < |p|
    ensures p[i] in rank && rank[p[i]] + i <= rank[p[0]]
  {
    if i > 0 {
      RankAlongPath(g, rank, p, i - 1);
      assert Edge(g, p[i - 1], p[i]);
    }
  }

  /** A graph whose vertices all carry such ranks has no cycle. */
  lemma RankedNoCycle(g: Graph, rank: map<int, nat>)
    requires Valid(g) && Ranked(g, rank)
    requires forall v :: v in g.vertices ==> v in rank
    ensures !HasCycle(g)
  {
    if HasCycle(g) {
      var p :| IsCycle(g, p);
      assert Edge(g, p[0], p[1]);
      assert p[0] in g.vertices;
      RankAlongPath(g, rank, p, |p| - 1);
    }
  }

  /** An edge from the end of a path back into it closes a cycle. */
  lemma BackEdgeCycle(g: Graph, path: seq<int>, w: int)
    requires IsPath(g, path) && |path| > 0 && w in path && Edge(g, path[|path| - 1], w)
    ensures HasCycle(g)
  {
    var i :| 0 <= i < |path| && path[i] == w;
    var c := path[i..] + [w];
    assert forall k :: 0 <= k < |c| - 1 ==> Edge(g, c[k], c[k + 1]) by {
      forall k | 0 <= k < |c| - 1
        ensures Edge(g, c[k], c[k + 1])
      {
        if k < |c| - 2 {
          assert c[k] == path[i + k] && c[k + 1] == path[i + k + 1];
        }
      }
    }
    assert IsCycle(g, c);
  }

  // ---------------------------------------------------------------------
  // Depth-first search
  // ---------------------------------------------------------------------

  /** Every vertex id indexes an array of length n. */
  ghost predicate IdsBelow(g: Graph, n: int) {
    forall v :: v in g.vertices ==> 0 <= v < n
  }

  /** Every edge ends at an id that indexes an array of length n. */
  ghost predicate EdgesBelow(g: Graph, n: int) {
    forall v, w :: Edge(g, v, w) ==> 0 <= w < n
  }

  lemma ValidEdgesBelow(g: Graph, n: int)
    requires Valid(g) && IdsBelow(g, n)
    ensures EdgesBelow(g, n)
  {
    forall v, w | Edge(g, v, w)
      ensures 0 <= w < n
    {
      assert v in g.succ && w in g.succ[v];
      assert w in g.vertices;
    }
  }

  /** The number of entries still false. */
  function CountFalse(s: seq<bool>): nat {
    if s == [] then 0 else CountFalse(s[..|s| - 1]) + (if s[|s| - 1] then 0 else 1)
  }

  /** b agrees with a except that more entries may be true. */
  ghost predicate Grows(a: seq<bool>, b: seq<bool>) {
    |a| == |b| && forall i :: 0 <= i < |a| && a[i] ==> b[i]
  }

  lemma GrowsTrans(a: seq<bool>, b: seq<bool>, c: seq<bool>)
    requires Grows(a, b) && Grows(b, c)
    ensures Grows(a, c)
  {
  }

  /** Turning entries true never adds false ones, and turning entry j true
      removes one. */
  lemma {:induction false} CountFalseShrinks(a: seq<bool>, b: seq<bool>, j: int)
    requires Grows(a, b)
    ensures CountFalse(b) <= CountFalse(a)
    ensures 0 <= j < |a| && !a[j] && b[j] ==> CountFalse(b) < CountFalse(a)
    decreases |a|
  {
    if a != [] {
      var n := |a| - 1;
      assert Grows(a[..n], b[..n]);
      CountFalseShrinks(a[..n], b[..n], j);
    }
  }

  /** The search state over snapshots of the two arrays: `stack` marks
      exactly the vertices of the current path; a visited vertex is either
      on the path or finished; finished vertices carry ranks below `time`
      that drop along every edge. */
  ghost predicate SearchState(g: Graph, visited: seq<bool>, stack: seq<bool>, done: map<int, nat>, time: nat, path: seq<int>) {
    |visited| == |stack| &&
    (forall x :: x in done ==> 0 <= x < |visited| && visited[x] && !stack[x] && done[x] < time) &&
    (forall x :: 0 <= x < |stack| ==> (stack[x] <==> x in path)) &&
    (forall x :: 0 <= x < |visited| && visited[x] ==> x in done || x in path) &&
    (forall x :: x in path ==> 0 <= x < |visited| && visited[x]) &&
    Ranked(g, done) && IsPath(g, path)
  }

  /** Entering an unvisited vertex pushes it on the path. */
  lemma EnterVertex(g: Graph, visited: seq<bool>, stack: seq<bool>, done: map<int, nat>, time: nat, path: seq<int>, v: int)
    requires SearchState(g, visited, stack, done, time, path)
    requires 0 <= v < |visited| && !visited[v]
    requires path != [] ==> Edge(g, path[|path| - 1], v)
    ensures SearchState(g, visited[v := true], stack[v := true], done, time, path + [v])
  {
    var path' := path + [v];
    assert forall i :: 0 <= i < |path| ==> path'[i] == path[i];
    assert forall x :: x in path' <==> x in path || x == v;
  }

  /** Leaving a vertex whose successors are all finished finishes it with
      the next rank. */
  lemma LeaveVertex(g: Graph, visited: seq<bool>, stack: seq<bool>, done: map<int, nat>, time: nat, path: seq<int>, v: int)
    requires SearchState(g, visited, stack, done, time, path + [v])
    requires 0 <= v < |stack| && v !in path
    requires AllFinished(Successors(g, v), done)
    ensures SearchState(g, visited, stack[v := false], done[v := time], time + 1, path)
  {
    var path' := path + [v];
    assert v in path';
    assert forall i :: 0 <= i < |path| ==> path'[i] == path[i];
    assert forall x :: x in path' <==> x in path || x == v;
    assert v !in done;
    var stack', done' := stack[v := false], done[v := time];
    forall w | Edge(g, v, w)
      ensures w in done
    {
      var j :| 0 <= j < |Successors(g, v)| && Successors(g, v)[j] == w;
    }
    assert Ranked(g, done') by {
      forall x, w | x in done' && Edge(g, x, w)
        ensures w in done' && done'[w] < done'[x]
      {
        if x != v {
          assert w in done && done[w] < done[x];
        }
      }
    }
    assert forall x :: 0 <= x < |stack'| ==> (stack'[x] <==> x in path);
    assert IsPath(g, path);
  }

  /** A visited vertex off the stack is finished. */
  lemma VisitedOffStack(g: Graph, visited: seq<bool>, stack: seq<bool>, done: map<int, nat>, time: nat, path: seq<int>, w: int)
    requires SearchState(g, visited, stack, done, time, path)
    requires 0 <= w < |visited| && visited[w] && !stack[w]
    ensures w in done
  {
  }

  /** Every vertex of ws is finished. */
  ghost predicate AllFinished(ws: seq<int>, done: map<int, nat>) {
    forall j :: 0 <= j < |ws| ==> ws[j] in done
  }

  /** done' keeps every rank of done. */
  ghost predicate KeepsRanks(done: map<int, nat>, done': map<int, nat>) {
    forall x :: x in done ==> x in done' && done'[x] == done[x]
  }

  lemma FinishedStep(ws: seq<int>, k: nat, before: map<int, nat>, done: map<int, nat>)
    requires k < |ws| && AllFinished(ws[..k], before) && KeepsRanks(before, done) && ws[k] in done
    ensures AllFinished(ws[..k + 1], done)
  {
    assert forall j :: 0 <= j < k ==> ws[..k + 1][j] == ws[..k][j];
  }

  lemma KeepsRanksTrans(d1: map<int, nat>, d2: map<int, nat>, d3: map<int, nat>)
    requires KeepsRanks(d1, d2) && KeepsRanks(d2, d3)
    ensures KeepsRanks(d1, d3)
  {
  }

  /** `dfs`: marks the vertex visited and on the stack, searches every
      unvisited successor, and reports a cycle at the first successor
      still on the stack; otherwise it takes the vertex off the stack. */
  method Dfs(vertex: int, visited: array<bool>, stack: array<bool>, g: Graph,
             ghost path: seq<int>, ghost done: map<int, nat>, ghost time: nat)
    returns (cycle: bool, ghost done': map<int, nat>, ghost time': nat)
    requires EdgesBelow(g, visited.Length) && visited != stack
    requires SearchState(g, visited[..], stack[..], done, time, path)
    requires 0 <= vertex < visited.Length && !visited[vertex]
    requires path != [] ==> Edge(g, path[|path| - 1], vertex)
    modifies visited, stack
    ensures cycle ==> HasCycle(g)
    ensures !cycle ==> SearchState(g, visited[..], stack[..], done', time', path) && vertex in done' &&
                       KeepsRanks(done, done')
    ensures visited[vertex] && Grows(old(visited[..]), visited[..])
    decreases CountFalse(visited[..])
  {
    ghost var entry := visited[..];
    assert vertex !in path;
    EnterVertex(g, visited[..], stack[..], done, time, path, vertex);
    visited[vertex] := true;
    stack[vertex] := true;
    ghost var path' := path + [vertex];
    done', time' := done, time;

    var successors := Successors(g, vertex);
    for k := 0 to |successors|
      invariant SearchState(g, visited[..], stack[..], done', time', path')
      invariant KeepsRanks(done, done')
      invariant AllFinished(successors[..k], done')
      invariant visited[vertex] && Grows(entry, visited[..])
    {
      var neighbor := successors[k];
      assert Edge(g, vertex, neighbor);
      if !visited[neighbor] {
        CountFalseShrinks(entry, visited[..], vertex);
        ghost var before, seen := done', visited[..];
        var found;
        found, done', time' := Dfs(neighbor, visited, stack, g, path', done', time');
        if found {
          return true, done', time';
        }
        GrowsTrans(entry, seen, visited[..]);
        KeepsRanksTrans(done, before, done');
        FinishedStep(successors, k, before, done');
      } else if stack[neighbor] {
        assert stack[..][neighbor];
        BackEdgeCycle(g, path', neighbor);
        return true, done', time';
      } else {
        VisitedOffStack(g, visited[..], stack[..], done', time', path', neighbor);
        FinishedStep(successors, k, done', done');
      }
    }
    assert successors[..|successors|] == successors;

    LeaveVertex(g, visited[..], stack[..], done', time', path, vertex);
    stack[vertex] := false;
    cycle, done', time' := false, done'[vertex := time'], time' + 1;
  }

  /** `isAcyclic`: arrays as long as the largest id plus one, then a search
      from every vertex not yet visited. */
  method IsAcyclic(g: Graph) returns (acyclic: bool)
    requires Valid(g)
    ensures acyclic <==> !HasCycle(g)
  {
    var vertices := g.vertices;
    if |vertices| == 0 {
      RankedNoCycle(g, map[]);
      return true;
    }
    var maxIdNum := INT_MIN;
    for k := 0 to |vertices|
      invariant maxIdNum == INT_MIN || 0 <= maxIdNum < INT_MAX
      invariant k > 0 ==> maxIdNum >= 0
      invariant forall j :: 0 <= j < k ==> vertices[j] <= maxIdNum
    {
      assert 0 <= vertices[k] < INT_MAX;
      if vertices[k] > maxIdNum {
        maxIdNum := vertices[k];
      }
    }
    ValidEdgesBelow(g, maxIdNum + 1);
    var visited := new bool[maxIdNum + 1](_ => false);
    var stack := new bool[maxIdNum + 1](_ => false);
    ghost var done: map<int, nat>, time: nat := map[], 0;
    for k := 0 to |vertices|
      invariant SearchState(g, visited[..], stack[..], done, time, [])
      invariant forall j :: 0 <= j < k ==> vertices[j] in done
    {
      var vertex := vertices[k];
      if !visited[vertex] {
        var found;
        found, done, time := Dfs(vertex, visited, stack, g, [], done, time);
        if found {
          return false;
        }
      }
    }
    RankedNoCycle(g, done);
    return true;
  }

  // ---------------------------------------------------------------------
  // Removing a vertex
  // ---------------------------------------------------------------------

  /** The list without its first occurrence of x, as `List.remove` does. */
  function RemoveFirst(s: seq<int>, x: int): (r: seq<int>)
    ensures x in s ==> |r| == |s| - 1
    ensures x !in s ==> r == s
    ensures forall y :: y in r ==> y in s
    ensures forall y :: y != x && y in s ==> y in r
  {
    if s == [] then []
    else if s[0] == x then s[1..]
    else [s[0]] + RemoveFirst(s[1..], x)
  }

  /** Removing x, whose first occurrence is at i, leaves the entries before
      and after i in their order. */
  lemma {:induction false} RemoveFirstAt(s: seq<int>, x: int, i: nat)
    requires i < |s| && s[i] == x && x !in s[..i]
    ensures RemoveFirst(s, x) == s[..i] + s[i + 1..]
    decreases i
  {
    if i == 0 {
      assert s[..0] + s[1..] == s[1..];
    } else {
      assert s[0] in s[..i];
      var t := s[1..];
      assert t[..i - 1] == s[1..i];
      RemoveFirstAt(t, x, i - 1);
      assert [s[0]] + (s[1..i] + s[i + 1..]) == s[..i] + s[i + 1..];
    }
  }

  /** `RemoveFirst` cuts out the first occurrence of x and keeps the order
      of everything else. */
  lemma RemoveFirstSplits(s: seq<int>, x: int)
    requires x in s
    ensures exists i :: 0 <= i < |s| && s[i] == x && x !in s[..i] && RemoveFirst(s, x) == s[..i] + s[i + 1..]
  {
    var i := 0;
    while s[i] != x
      invariant 0 <= i < |s| && x in s[i..] && x !in s[..i]
      decreases |s| - i
    {
      assert s[i..] == [s[i]] + s[i + 1..];
      assert s[..i + 1] == s[..i] + [s[i]];
      i := i + 1;
    }
    RemoveFirstAt(s, x, i);
  }

  /** The list without any occurrence of x. */
  function Filter(s: seq<int>, x: int): (r: seq<int>)
    ensures forall y :: y in r <==> y in s && y != x
  {
    if s == [] then [] else (if s[0] == x then [] else [s[0]]) + Filter(s[1..], x)
  }

  /** `removeVertex`: the vertex leaves the vertex list, its own successor
      entry is dropped and it leaves every other successor list. */
  function RemoveVertex(g: Graph, v: int): Graph {
    Graph(RemoveFirst(g.vertices, v), map u | u in g.succ && u != v :: Filter(g.succ[u], v))
  }

  /** Edges survive a removal exactly when neither end is the removed vertex. */
  lemma RemoveVertexEdges(g: Graph, v: int, a: int, b: int)
    ensures Edge(RemoveVertex(g, v), a, b) <==> Edge(g, a, b) && a != v && b != v
  {
  }

  ghost predicate Distinct(s: seq<int>) {
    forall i, j :: 0 <= i < j < |s| ==> s[i] != s[j]
  }

  lemma {:induction false} RemoveFirstDistinct(s: seq<int>, x: int)
    requires Distinct(s)
    ensures Distinct(RemoveFirst(s, x)) && x !in RemoveFirst(s, x)
    decreases |s|
  {
    if s != [] {
      assert Distinct(s[1..]);
      assert s[0] !in s[1..];
      if s[0] != x {
        RemoveFirstDistinct(s[1..], x);
        var r := RemoveFirst(s[1..], x);
        assert forall j :: 0 <= j < |r| ==> ([s[0]] + r)[j + 1] == r[j];
      }
    }
  }

  lemma DistinctCons(v: int, s: seq<int>)
    requires Distinct(s) && v !in s
    ensures Distinct([v] + s)
  {
    assert forall j :: 0 <= j < |s| ==> ([v] + s)[j + 1] == s[j];
  }

  lemma RemoveVertexValid(g: Graph, v: int)
    requires Valid(g)
    ensures Valid(RemoveVertex(g, v))
  {
    var g' := RemoveVertex(g, v);
    RemoveFirstDistinct(g.vertices, v);
    forall i | 0 <= i < |g'.vertices|
      ensures 0 <= g'.vertices[i] < INT_MAX
    {
      assert g'.vertices[i] in g.vertices;
    }
  }

  /** A graph without vertices has no cycle. */
  lemma EmptyGraphAcyclic(g: Graph)
    requires Valid(g) && g.vertices == []
    ensures !HasCycle(g)
  {
    RankedNoCycle(g, map[]);
  }

  // ---------------------------------------------------------------------
  // Heuristic scores
  // ---------------------------------------------------------------------

  /** How often v occurs in s. */
  function Occurrences(s: seq<int>, v: int): (r: nat)
    ensures r <= |s|
  {
    if s == [] then 0 else Occurrences(s[..|s| - 1], v) + (if s[|s| - 1] == v then 1 else 0)
  }

  /** The number of edges from the vertices of us into v. */
  function EdgesInto(g: Graph, us: seq<int>, v: int): nat {
    if us == [] then 0 else EdgesInto(g, us[..|us| - 1], v) + Occurrences(Successors(g, us[|us| - 1]), v)
  }

  /** `outDegree`: the number of successor entries, or -1 for a vertex
      that is not in the graph. */
  function OutDegree(g: Graph, v: int): int {
    if v in g.vertices then |Successors(g, v)| else -1
  }

  /** `inDegree`: the number of edges into v, or -1 for a vertex that is
      not in the graph. */
  function InDegree(g: Graph, v: int): int {
    if v in g.vertices then EdgesInto(g, g.vertices, v) else -1
  }

  /** The in-degrees of the vertices of vs, added up. */
  function SumInDegrees(g: Graph, vs: seq<int>): int {
    if vs == [] then 0 else SumInDegrees(g, vs[..|vs| - 1]) + InDegree(g, vs[|vs| - 1])
  }

  /** The out-degrees of the vertices of vs, added up. */
  function SumOutDegrees(g: Graph, vs: seq<int>): int {
    if vs == [] then 0 else SumOutDegrees(g, vs[..|vs| - 1]) + OutDegree(g, vs[|vs| - 1])
  }

  /** Every edge is counted once as it leaves and once as it arrives: in a
      valid graph the in-degrees and the out-degrees have the same sum. */
  lemma DegreeSumsAgree(g: Graph)
    requires Valid(g)
    ensures SumInDegrees(g, g.vertices) == SumOutDegrees(g, g.vertices)
  {
    var V := g.vertices;
    forall u | u in V
      ensures forall w :: w in Successors(g, u) ==> w in V
    {
    }
    SumInIsCross(g, V);
    SumOutIsSucc(g, V);
    CrossCounts(g, V, V);
  }

  /** The number of times the vertices of vs occur in s. */
  function OccurrenceSum(s: seq<int>, vs: seq<int>): nat {
    if vs == [] then 0 else OccurrenceSum(s, vs[..|vs| - 1]) + Occurrences(s, vs[|vs| - 1])
  }

  /** The number of edges from us into the vertices of vs. */
  function Cross(g: Graph, us: seq<int>, vs: seq<int>): nat {
    if vs == [] then 0 else Cross(g, us, vs[..|vs| - 1]) + EdgesInto(g, us, vs[|vs| - 1])
  }

  /** The successor-list lengths of the vertices of us, added up. */
  function SuccessorTotal(g: Graph, us: seq<int>): nat {
    if us == [] then 0 else SuccessorTotal(g, us[..|us| - 1]) + |Successors(g, us[|us| - 1])|
  }

  lemma {:induction false} OccurrencesAbsent(s: seq<int>, x: int)
    requires x !in s
    ensures Occurrences(s, x) == 0
    decreases |s|
  {
    if s != [] {
      OccurrencesAbsent(s[..|s| - 1], x);
    }
  }

  lemma {:induction false} OccurrencesOnce(vs: seq<int>, x: int)
    requires Distinct(vs) && x in vs
    ensures Occurrences(vs, x) == 1
    decreases |vs|
  {
    var front := vs[..|vs| - 1];
    if vs[|vs| - 1] == x {
      assert x !in front;
      OccurrencesAbsent(front, x);
    } else {
      OccurrencesOnce(front, x);
    }
  }

  lemma {:induction false} OccurrenceSumEmpty(vs: seq<int>)
    ensures OccurrenceSum([], vs) == 0
    decreases |vs|
  {
    if vs != [] {
      OccurrenceSumEmpty(vs[..|vs| - 1]);
    }
  }

  lemma {:induction false} OccurrenceSumSnoc(s: seq<int>, x: int, vs: seq<int>)
    ensures OccurrenceSum(s + [x], vs) == OccurrenceSum(s, vs) + Occurrences(vs, x)
    decreases |vs|
  {
    if vs != [] {
      OccurrenceSumSnoc(s, x, vs[..|vs| - 1]);
      assert (s + [x])[..|s|] == s;
    }
  }

  /** A list whose entries all lie in the distinct list vs has as many
      entries as occurrences of vs in it. */
  lemma {:induction false} OccurrenceSumCovers(s: seq<int>, vs: seq<int>)
    requires Distinct(vs) && forall y :: y in s ==> y in vs
    ensures OccurrenceSum(s, vs) == |s|
    decreases |s|
  {
    if s == [] {
      OccurrenceSumEmpty(vs);
    } else {
      var front := s[..|s| - 1];
      assert s == front + [s[|s| - 1]];
      OccurrenceSumCovers(front, vs);
      OccurrenceSumSnoc(front, s[|s| - 1], vs);
      OccurrencesOnce(vs, s[|s| - 1]);
    }
  }

  lemma {:induction false} CrossEmpty(g: Graph, vs: seq<int>)
    ensures Cross(g, [], vs) == 0
    decreases |vs|
  {
    if vs != [] {
      CrossEmpty(g, vs[..|vs| - 1]);
    }
  }

  lemma {:induction false} CrossSnoc(g: Graph, us: seq<int>, u: int, vs: seq<int>)
    ensures Cross(g, us + [u], vs) == Cross(g, us, vs) + OccurrenceSum(Successors(g, u), vs)
    decreases |vs|
  {
    if vs != [] {
      CrossSnoc(g, us, u, vs[..|vs| - 1]);
      assert (us + [u])[..|us|] == us;
    }
  }

  /** Edges out of us all land in the distinct list vs, so counting them
      by their heads gives the successor-list lengths. */
  lemma {:induction false} CrossCounts(g: Graph, us: seq<int>, vs: seq<int>)
    requires Distinct(vs)
    requires forall u :: u in us ==> forall w :: w in Successors(g, u) ==> w in vs
    ensures Cross(g, us, vs) == SuccessorTotal(g, us)
    decreases |us|
  {
    if us == [] {
      CrossEmpty(g, vs);
    } else {
      var front, u := us[..|us| - 1], us[|us| - 1];
      assert us == front + [u];
      CrossCounts(g, front, vs);
      CrossSnoc(g, front, u, vs);
      OccurrenceSumCovers(Successors(g, u), vs);
    }
  }

  lemma {:induction false} SumInIsCross(g: Graph, vs: seq<int>)
    requires forall v :: v in vs ==> v in g.vertices
    ensures SumInDegrees(g, vs) == Cross(g, g.vertices, vs)
    decreases |vs|
  {
    if vs != [] {
      SumInIsCross(g, vs[..|vs| - 1]);
    }
  }

  lemma {:induction false} SumOutIsSucc(g: Graph, vs: seq<int>)
    requires forall v :: v in vs ==> v in g.vertices
    ensures SumOutDegrees(g, vs) == SuccessorTotal(g, vs)
    decreases |vs|
  {
    if vs != [] {
      SumOutIsSucc(g, vs[..|vs| - 1]);
    }
  }

  /** `scoreByDegreeSum`: in-degree plus out-degree, -1 when either degree
      reports a missing vertex. */
  function ScoreByDegreeSum(g: Graph, v: int): (r: int)
    ensures v !in g.vertices ==> r == -1
    ensures v in g.vertices ==> r == InDegree(g, v) + OutDegree(g, v) && r >= 0
  {
    var inDeg, outDeg := InDegree(g, v), OutDegree(g, v);
    if inDeg == -1 || outDeg == -1 then -1 else inDeg + outDeg
  }

  /** `scoreByDegreeProduct` as written: the product is taken in 32-bit
      arithmetic before it widens, so it wraps. */
  function ScoreByDegreeProduct32(g: Graph, v: int): (r: int)
    ensures v !in g.vertices ==> r == -1
    ensures v in g.vertices ==> INT_MIN <= r <= INT_MAX && (r - InDegree(g, v) * OutDegree(g, v)) % 0x1_0000_0000 == 0
  {
    var inDeg, outDeg := InDegree(g, v), OutDegree(g, v);
    if inDeg == -1 || outDeg == -1 then -1
    else
      Wrap32Congruent(inDeg * outDeg);
      Wrap32(inDeg * outDeg) as int
  }

  /** `scoreByDegreeProduct` with the exact product. */
  function ScoreByDegreeProduct(g: Graph, v: int): (r: int)
    ensures v !in g.vertices ==> r == -1
    ensures v in g.vertices ==> r == InDegree(g, v) * OutDegree(g, v) && r >= 0
  {
    var inDeg, outDeg := InDegree(g, v), OutDegree(g, v);
    if inDeg == -1 || outDeg == -1 then -1 else inDeg * outDeg
  }

  /** The two agree while the product fits in an `int`. */
  lemma ProductAgreesInRange(g: Graph, v: int)
    requires InDegree(g, v) * OutDegree(g, v) <= INT_MAX
    ensures ScoreByDegreeProduct32(g, v) == ScoreByDegreeProduct(g, v)
  {
  }

  /** A vertex with 46341 edges in and 46341 edges out scores below every
      vertex of the graph, isolated ones included, under the product as
      written, although its exact product is the largest possible. */
  lemma ProductWraps(g: Graph, v: int)
    requires InDegree(g, v) == 46341 && OutDegree(g, v) == 46341
    ensures ScoreByDegreeProduct32(g, v) < -1 < 0 < ScoreByDegreeProduct(g, v)
  {
    assert 46341 * 46341 == 0x8000_1219;
  }

  // ---------------------------------------------------------------------
  // The greedy solver
  // ---------------------------------------------------------------------

  /** The position the scan in `solve` settles on: a later vertex replaces
      the current choice only when it scores strictly higher. */
  function FirstBest(g: Graph, h: (Graph, int) -> int, vs: seq<int>): (i: nat)
    requires vs != []
    ensures i < |vs|
  {
    if |vs| == 1 then 0
    else
      var b := FirstBest(g, h, vs[..|vs| - 1]);
      if h(g, vs[|vs| - 1]) > h(g, vs[b]) then |vs| - 1 else b
  }

  /** The chosen vertex scores highest, and strictly higher than every
      vertex before it. */
  lemma {:induction false} FirstBestIsFirstMaximum(g: Graph, h: (Graph, int) -> int, vs: seq<int>)
    requires vs != []
    ensures forall j :: 0 <= j < |vs| ==> h(g, vs[j]) <= h(g, vs[FirstBest(g, h, vs)])
    ensures forall j :: 0 <= j < FirstBest(g, h, vs) ==> h(g, vs[j]) < h(g, vs[FirstBest(g, h, vs)])
    decreases |vs|
  {
    if |vs| > 1 {
      var front := vs[..|vs| - 1];
      FirstBestIsFirstMaximum(g, h, front);
      assert forall j :: 0 <= j < |front| ==> front[j] == vs[j];
    }
  }

  /** The vertices the greedy loop removes, in order: while a cycle is
      left, the first highest-scoring remaining vertex. */
  ghost function Greedy(g: Graph, h: (Graph, int) -> int): seq<int>
    decreases |g.vertices|
  {
    if !HasCycle(g) || g.vertices == [] then []
    else
      var v := g.vertices[FirstBest(g, h, g.vertices)];
      [v] + Greedy(RemoveVertex(g, v), h)
  }

  /** One greedy step while a cycle is left. */
  lemma GreedyStep(g: Graph, h: (Graph, int) -> int)
    requires HasCycle(g) && g.vertices != []
    ensures Greedy(g, h) == [g.vertices[FirstBest(g, h, g.vertices)]] + Greedy(RemoveVertex(g, g.vertices[FirstBest(g, h, g.vertices)]), h)
  {
  }

  /** The graph after removing the vertices of vs in order. */
  function RemoveAll(g: Graph, vs: seq<int>): Graph
    decreases |vs|
  {
    if vs == [] then g else RemoveAll(RemoveVertex(g, vs[0]), vs[1..])
  }

  /** The greedy choice removes distinct vertices of the graph. */
  lemma {:induction false} GreedyRemovesVertices(g: Graph, h: (Graph, int) -> int)
    requires Valid(g)
    ensures Distinct(Greedy(g, h)) && |Greedy(g, h)| <= |g.vertices|
    ensures forall v :: v in Greedy(g, h) ==> v in g.vertices
    decreases |g.vertices|
  {
    if HasCycle(g) && g.vertices != [] {
      var v := g.vertices[FirstBest(g, h, g.vertices)];
      var g' := RemoveVertex(g, v);
      RemoveVertexValid(g, v);
      RemoveFirstDistinct(g.vertices, v);
      GreedyRemovesVertices(g', h);
      GreedyStep(g, h);
      DistinctCons(v, Greedy(g', h));
    }
  }

  /** What the greedy choice removes is a feedback vertex set: no cycle is
      left. */
  lemma {:induction false} GreedyBreaksCycles(g: Graph, h: (Graph, int) -> int)
    requires Valid(g)
    ensures !HasCycle(RemoveAll(g, Greedy(g, h)))
    decreases |g.vertices|
  {
    if g.vertices == [] {
      EmptyGraphAcyclic(g);
    } else if HasCycle(g) {
      var v := g.vertices[FirstBest(g, h, g.vertices)];
      RemoveVertexValid(g, v);
      GreedyBreaksCycles(RemoveVertex(g, v), h);
    }
  }

  /** The candidate scan of `solve`: the running maximum starts below
      every score (negative infinity) and moves on a strictly higher
      score only. */
  method SelectVertex(g: Graph, h: (Graph, int) -> int, currentVertices: seq<int>) returns (vertexToDelete: int)
    requires currentVertices != []
    ensures vertexToDelete == currentVertices[FirstBest(g, h, currentVertices)]
  {
    vertexToDelete := -1;
    var maxHeuristic: Option<int> := None;
    for i := 0 to |currentVertices|
      invariant i == 0 <==> maxHeuristic.None?
      invariant i > 0 ==> vertexToDelete == currentVertices[FirstBest(g, h, currentVertices[..i])]
      invariant i > 0 ==> maxHeuristic == Some(h(g, vertexToDelete))
    {
      var vertex := currentVertices[i];
      var heuristicValue := h(g, vertex);
      if i > 0 {
        assert currentVertices[..i + 1][..i] == currentVertices[..i];
      }
      if maxHeuristic.None? || heuristicValue > maxHeuristic.value {
        maxHeuristic := Some(heuristicValue);
        vertexToDelete := vertex;
      }
    }
    assert currentVertices[..|currentVertices|] == currentVertices;
  }

  /** After removing `removed` from g, the greedy choice on what is left
      completes the greedy choice on g. */
  ghost predicate GreedyProgress(g: Graph, h: (Graph, int) -> int, removed: seq<int>, g': Graph) {
    Valid(g') && RemoveAll(g, removed) == g' && removed + Greedy(g', h) == Greedy(g, h)
  }

  lemma GreedyAdvance(g: Graph, h: (Graph, int) -> int, removed: seq<int>, g': Graph)
    requires GreedyProgress(g, h, removed, g') && HasCycle(g') && g'.vertices != []
    ensures GreedyProgress(g, h, removed + [g'.vertices[FirstBest(g', h, g'.vertices)]],
                           RemoveVertex(g', g'.vertices[FirstBest(g', h, g'.vertices)]))
  {
    var v := g'.vertices[FirstBest(g', h, g'.vertices)];
    RemoveVertexValid(g', v);
    RemoveAllSnoc(g, removed, v);
    GreedyAppend(g, h, removed, g');
  }

  lemma GreedyStart(g: Graph, h: (Graph, int) -> int)
    requires Valid(g)
    ensures GreedyProgress(g, h, [], g)
  {
    assert [] + Greedy(g, h) == Greedy(g, h);
  }

  /** Once no cycle is left, the removed vertices are the whole greedy
      choice. */
  lemma GreedyDone(g: Graph, h: (Graph, int) -> int, removed: seq<int>, g': Graph)
    requires GreedyProgress(g, h, removed, g') && !HasCycle(g')
    ensures removed == Greedy(g, h) && g' == RemoveAll(g, removed)
  {
    assert Greedy(g', h) == [];
    assert removed + [] == removed;
  }

  /** While a cycle is left, the greedy choice has more vertices than
      those removed so far: the next write stays inside the array. */
  lemma GreedyRoom(g: Graph, h: (Graph, int) -> int, removed: seq<int>, g': Graph)
    requires GreedyProgress(g, h, removed, g') && HasCycle(g') && g'.vertices != []
    ensures |removed| < |Greedy(g, h)|
  {
    GreedyStep(g', h);
    assert |removed + Greedy(g', h)| == |removed| + |Greedy(g', h)|;
  }

  lemma GreedyAppend(g: Graph, h: (Graph, int) -> int, removed: seq<int>, g': Graph)
    requires removed + Greedy(g', h) == Greedy(g, h) && HasCycle(g') && g'.vertices != []
    ensures removed + [g'.vertices[FirstBest(g', h, g'.vertices)]] + Greedy(RemoveVertex(g', g'.vertices[FirstBest(g', h, g'.vertices)]), h) == Greedy(g, h)
  {
    var v := g'.vertices[FirstBest(g', h, g'.vertices)];
    var rest := Greedy(RemoveVertex(g', v), h);
    GreedyStep(g', h);
    assert removed + [v] + rest == removed + ([v] + rest);
  }

  /** `solve`: while the graph has a cycle, scans the remaining vertices
      for the first highest score, removes that vertex from the list and
      from the graph and appends it to `feedbackVertexSet`. Returns the
      graph it leaves behind. The array must have room for every vertex
      removed; an acyclic graph needs none. */
  method Solve(g: Graph, h: (Graph, int) -> int, feedbackVertexSet: array<int>) returns (g': Graph)
    requires Valid(g) && |Greedy(g, h)| <= feedbackVertexSet.Length
    modifies feedbackVertexSet
    ensures feedbackVertexSet[..|Greedy(g, h)|] == Greedy(g, h)
    ensures feedbackVertexSet[|Greedy(g, h)|..] == old(feedbackVertexSet[|Greedy(g, h)|..])
    ensures g' == RemoveAll(g, Greedy(g, h))
  {
    ghost var initial := feedbackVertexSet[..];
    var currentVertices := g.vertices;
    g' := g;
    var index := 0;
    ghost var removed: seq<int> := [];
    GreedyStart(g, h);

    var acyclic := IsAcyclic(g');
    while !acyclic
      invariant GreedyProgress(g, h, removed, g') && currentVertices == g'.vertices
      invariant acyclic <==> !HasCycle(g')
      invariant index == |removed| && index + |currentVertices| == |g.vertices|
      invariant feedbackVertexSet[..] == removed + initial[index..]
      decreases |currentVertices|
    {
      if currentVertices == [] {
        EmptyGraphAcyclic(g');
        assert false;
      }
      GreedyRoom(g, h, removed, g');
      var vertexToDelete := SelectVertex(g', h, currentVertices);

      GreedyAdvance(g, h, removed, g');
      currentVertices := RemoveFirst(currentVertices, vertexToDelete);
      ghost var written := feedbackVertexSet[..];
      feedbackVertexSet[index] := vertexToDelete;
      WriteNext(written, removed, initial, index, vertexToDelete);
      assert feedbackVertexSet[..] == written[index := vertexToDelete];
      index := index + 1;
      g' := RemoveVertex(g', vertexToDelete);
      removed := removed + [vertexToDelete];
      acyclic := IsAcyclic(g');
    }
    GreedyDone(g, h, removed, g');
    WrittenSplits(feedbackVertexSet[..], removed, initial, index);
  }

  /** The written prefix is the removed vertices; the rest is untouched. */
  lemma WrittenSplits(a: seq<int>, removed: seq<int>, initial: seq<int>, index: nat)
    requires index == |removed| <= |initial| && a == removed + initial[index..]
    ensures a[..index] == removed && a[index..] == initial[index..]
  {
  }

  /** Writing the next entry of the result. */
  lemma WriteNext(a: seq<int>, removed: seq<int>, initial: seq<int>, index: nat, v: int)
    requires index == |removed| < |initial| && a == removed + initial[index..]
    ensures a[index := v] == (removed + [v]) + initial[index + 1..]
  {
  }

  lemma {:induction false} RemoveAllSnoc(g: Graph, vs: seq<int>, v: int)
    ensures RemoveAll(g, vs + [v]) == RemoveVertex(RemoveAll(g, vs), v)
    decreases |vs|
  {
    if vs != [] {
      assert (vs + [v])[1..] == vs[1..] + [v];
      RemoveAllSnoc(RemoveVertex(g, vs[0]), vs[1..], v);
    }
  }
}
