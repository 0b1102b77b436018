/** `findCriticalPath` as a whole: build the graph from the adjacency matrix, run the
    forward pass, the backward pass and the classification, and return what the
    program keeps in its globals. */
module CriticalPath {
  import opened Seqs
  import opened Times
  import opened Graphs
  import opened Forward
  import opened Backward
  import opened Classification

  /** What one call leaves behind: the graph, `topologicalOrder`, every vertex's earliest
      and latest start, the project length `maxEarliestStart`, `criticalPath` and
      `slackTimes`. */
  datatype Schedule = Schedule(graph: Graph, order: seq<nat>, earliest: seq<int>, length: int,
                               latest: seq<Time>, critical: seq<nat>, slack: seq<Time>)

  /** The vertex at position `j` of a complete order has a finite latest start no earlier
      than its earliest start, when every vertex after it has. */
  lemma LatestAt(g: Graph, d: seq<int>, order: seq<nat>, es: seq<int>, L: int, ls: seq<Time>, j: nat)
    requires Valid(g) && |d| == g.Size() && |es| == g.Size() && |ls| == g.Size()
    requires EmitOrder(g, order) && j < |order|
    requires forall v :: 0 <= v < g.Size() ==> v in order
    requires forall v :: 0 <= v < g.Size() && v in order ==> EarliestOk(g, d, es, v)
    requires L == SinkMax(g, es, g.Size())
    requires forall u :: 0 <= u < g.Size() && u in order ==> LatestOk(g, d, L, ls, u)
    requires forall k :: j < k < |order| ==> ls[order[k]].Finite? && es[order[k]] <= ls[order[k]].value
    ensures ls[order[j]].Finite? && es[order[j]] <= ls[order[j]].value
  {
    var u := order[j];
    assert u in order;
    assert LatestOk(g, d, L, ls, u);
    if g.next[u] == [] {
      SinkMaxIsMax(g, es, g.Size());
    } else {
      assert Below(g.next[u], g.Size());
      MinNextIsMin(g.next[u], ls, d[u]);
      var v :| v in g.next[u] && MinNext(g.next[u], ls, d[u]) == Minus(ls[v], d[u]);
      assert v < g.Size();
      assert v in order;
      var k :| 0 <= k < |order| && order[k] == v;
      assert order[j..][0] == u;
      SuccAfter(g, order, j, u, v);
      assert k > j;
      assert u in g.prev[v];
      assert EarliestOk(g, d, es, v);
      MaxFinishIsMax(g.prev[v], es, d);
    }
  }

  /** Every vertex from position `j` of a complete order on has a finite latest start no
      earlier than its earliest start. */
  lemma {:induction false} LatestFrom(g: Graph, d: seq<int>, order: seq<nat>, es: seq<int>, L: int, ls: seq<Time>, j: nat)
    requires Valid(g) && |d| == g.Size() && |es| == g.Size() && |ls| == g.Size()
    requires EmitOrder(g, order) && j <= |order|
    requires forall v :: 0 <= v < g.Size() ==> v in order
    requires forall v :: 0 <= v < g.Size() && v in order ==> EarliestOk(g, d, es, v)
    requires L == SinkMax(g, es, g.Size())
    requires forall u :: 0 <= u < g.Size() && u in order ==> LatestOk(g, d, L, ls, u)
    ensures forall k :: j <= k < |order| ==> ls[order[k]].Finite? && es[order[k]] <= ls[order[k]].value
    decreases |order| - j
  {
    if j < |order| {
      LatestFrom(g, d, order, es, L, ls, j + 1);
      LatestAt(g, d, order, es, L, ls, j);
    }
  }

  /** For an acyclic graph every latest start is finite and no earlier than the earliest
      start. */
  lemma LatestNotBeforeEarliest(g: Graph, d: seq<int>, order: seq<nat>, es: seq<int>, L: int, ls: seq<Time>)
    requires Valid(g) && |d| == g.Size() && |es| == g.Size() && |ls| == g.Size()
    requires EmitOrder(g, order) && |order| == g.Size()
    requires forall v :: 0 <= v < g.Size() && v in order ==> EarliestOk(g, d, es, v)
    requires L == SinkMax(g, es, g.Size())
    requires forall u :: 0 <= u < g.Size() && u in order ==> LatestOk(g, d, L, ls, u)
    ensures forall u :: 0 <= u < g.Size() ==> ls[u].Finite? && es[u] <= ls[u].value
  {
    Pigeonhole(order, g.Size());
    LatestFrom(g, d, order, es, L, ls, 0);
    forall u | 0 <= u < g.Size()
      ensures ls[u].Finite? && es[u] <= ls[u].value
    {
      assert u in order;
      var k :| 0 <= k < |order| && order[k] == u;
    }
  }

  /** In an acyclic graph a critical task with successors hands the critical path on: one
      of its successors is critical too and starts exactly when it finishes. */
  lemma CriticalSuccessor(g: Graph, d: seq<int>, es: seq<int>, L: int, ls: seq<Time>, u: nat)
    requires Valid(g) && |d| == g.Size() && |es| == g.Size() && |ls| == g.Size()
    requires forall v :: 0 <= v < g.Size() ==> EarliestOk(g, d, es, v)
    requires forall w :: 0 <= w < g.Size() ==> LatestOk(g, d, L, ls, w)
    requires forall w :: 0 <= w < g.Size() ==> ls[w].Finite? && es[w] <= ls[w].value
    requires u < g.Size() && g.next[u] != [] && IsCritical(es, ls, u)
    ensures exists v :: v in g.next[u] && IsCritical(es, ls, v) && es[v] == es[u] + d[u]
  {
    assert LatestOk(g, d, L, ls, u);
    assert Below(g.next[u], g.Size());
    MinNextIsMin(g.next[u], ls, d[u]);
    var v :| v in g.next[u] && MinNext(g.next[u], ls, d[u]) == Minus(ls[v], d[u]);
    assert v < g.Size();
    assert u in g.prev[v];
    assert EarliestOk(g, d, es, v);
    MaxFinishIsMax(g.prev[v], es, d);
    assert IsCritical(es, ls, v);
  }

  /** In an acyclic graph a critical task with a positive earliest start takes over the
      critical path from one of its predecessors: that predecessor is critical too and
      finishes exactly when `v` starts. */
  lemma CriticalPredecessor(g: Graph, d: seq<int>, es: seq<int>, L: int, ls: seq<Time>, v: nat)
    requires Valid(g) && |d| == g.Size() && |es| == g.Size() && |ls| == g.Size()
    requires forall w :: 0 <= w < g.Size() ==> EarliestOk(g, d, es, w)
    requires forall w :: 0 <= w < g.Size() ==> LatestOk(g, d, L, ls, w)
    requires forall w :: 0 <= w < g.Size() ==> ls[w].Finite? && es[w] <= ls[w].value
    requires v < g.Size() && IsCritical(es, ls, v) && es[v] != 0
    ensures exists p :: p in g.prev[v] && IsCritical(es, ls, p) && es[p] + d[p] == es[v]
  {
    assert EarliestOk(g, d, es, v);
    assert Below(g.prev[v], g.Size());
    MaxFinishIsMax(g.prev[v], es, d);
    var p :| p in g.prev[v] && es[v] == es[p] + d[p];
    assert p < g.Size();
    assert v in g.next[p];
    assert LatestOk(g, d, L, ls, p);
    assert Below(g.next[p], g.Size());
    MinNextIsMin(g.next[p], ls, d[p]);
    assert IsCritical(es, ls, p);
  }

  /** With no negative durations, every predecessor of a critical task that starts at 0 is
      critical too, starts at 0 and takes no time. */
  lemma ZeroPredecessor(g: Graph, d: seq<int>, es: seq<int>, L: int, ls: seq<Time>, v: nat)
    requires Valid(g) && |d| == g.Size() && |es| == g.Size() && |ls| == g.Size() && NonNegative(d)
    requires forall w :: 0 <= w < g.Size() ==> EarliestOk(g, d, es, w)
    requires forall w :: 0 <= w < g.Size() ==> LatestOk(g, d, L, ls, w)
    requires forall w :: 0 <= w < g.Size() ==> ls[w].Finite? && es[w] <= ls[w].value
    requires v < g.Size() && IsCritical(es, ls, v) && es[v] == 0
    ensures forall p :: p in g.prev[v] ==>
              0 <= p < g.Size() && v in g.next[p] && IsCritical(es, ls, p) && es[p] == 0 && d[p] == 0
  {
    assert EarliestOk(g, d, es, v);
    assert Below(g.prev[v], g.Size());
    MaxFinishIsMax(g.prev[v], es, d);
    forall p | p in g.prev[v]
      ensures 0 <= p < g.Size() && v in g.next[p] && IsCritical(es, ls, p) && es[p] == 0 && d[p] == 0
    {
      assert p < g.Size();
      assert EarliestOk(g, d, es, p);
      MaxFinishIsMax(g.prev[p], es, d);
      assert v in g.next[p];
      assert LatestOk(g, d, L, ls, p);
      assert Below(g.next[p], g.Size());
      MinNextIsMin(g.next[p], ls, d[p]);
    }
  }

  /** The sum of the durations `d[t]` over the entries `t` of `path`. */
  ghost function DurationSum(d: seq<int>, path: seq<nat>): int
    requires Below(path, |d|)
  {
    if path == [] then 0 else DurationSum(d, path[..|path| - 1]) + d[path[|path| - 1]]
  }

  /** A chain of critical tasks along edges, starting at earliest start 0, in which each
      task starts exactly when the one before it finishes. */
  ghost predicate CriticalChain(g: Graph, d: seq<int>, es: seq<int>, ls: seq<Time>, path: seq<nat>)
    requires |d| == g.Size() && |es| == g.Size() && |ls| == g.Size()
  {
    && |path| > 0 && Below(path, g.Size()) && es[path[0]] == 0
    && (forall k :: 0 <= k < |path| ==> IsCritical(es, ls, path[k]))
    && (forall k :: 0 < k < |path| ==> LinkAt(g, d, es, path, k))
  }

  /** The entry at position `k` of `path` follows the one before it along an edge and
      starts exactly when that one finishes. */
  ghost predicate LinkAt(g: Graph, d: seq<int>, es: seq<int>, path: seq<nat>, k: nat)
    requires |d| == g.Size() && |es| == g.Size() && Below(path, g.Size()) && 0 < k < |path|
  {
    path[k] in g.next[path[k - 1]] && es[path[k]] == es[path[k - 1]] + d[path[k - 1]]
  }

  /** No task has a negative duration. */
  ghost predicate NonNegative(d: seq<int>)
  {
    forall i :: 0 <= i < |d| ==> d[i] >= 0
  }

  /** A critical task `w` has a critical predecessor that finishes exactly when `w` starts,
      when its earliest start is positive, or, with no negative durations, when it has a
      predecessor at all. */
  ghost predicate HandsBackAt(g: Graph, d: seq<int>, es: seq<int>, ls: seq<Time>, w: nat)
    requires |d| == g.Size() && |es| == g.Size() && |ls| == g.Size() && |g.prev| == g.Size() && w < g.Size()
  {
    IsCritical(es, ls, w) && (es[w] != 0 || (NonNegative(d) && g.prev[w] != [])) ==>
      exists p :: 0 <= p < g.Size() && w in g.next[p] && IsCritical(es, ls, p) && es[p] + d[p] == es[w]
  }

  /** Every critical task of a graph with a topological numbering, in which each critical
      task hands back to a critical predecessor, ends a critical chain; its earliest start
      is the sum of the durations of the entries before it on the chain. With no negative
      durations the chain starts at a task without predecessors. */
  lemma {:induction false} ChainTo(g: Graph, d: seq<int>, es: seq<int>, ls: seq<Time>, rank: seq<nat>, v: nat)
    requires |d| == g.Size() && |es| == g.Size() && |ls| == g.Size() && |g.prev| == g.Size()
    requires IsTopoNumbering(g, rank)
    requires forall w :: 0 <= w < g.Size() ==> HandsBackAt(g, d, es, ls, w)
    requires v < g.Size() && IsCritical(es, ls, v)
    ensures exists path :: CriticalChain(g, d, es, ls, path) && path[|path| - 1] == v
                           && es[v] == DurationSum(d, path[..|path| - 1])
                           && (NonNegative(d) ==> g.prev[path[0]] == [])
    decreases rank[v]
  {
    if es[v] == 0 && !(NonNegative(d) && g.prev[v] != []) {
      var path := [v];
      assert CriticalChain(g, d, es, ls, path);
      assert path[..0] == [];
    } else {
      assert HandsBackAt(g, d, es, ls, v);
      var p :| 0 <= p < g.Size() && v in g.next[p] && IsCritical(es, ls, p) && es[p] + d[p] == es[v];
      ChainTo(g, d, es, ls, rank, p);
      var path :| CriticalChain(g, d, es, ls, path) && path[|path| - 1] == p
                  && es[p] == DurationSum(d, path[..|path| - 1])
                  && (NonNegative(d) ==> g.prev[path[0]] == []);
      ChainExtend(g, d, es, ls, path, v);
    }
  }

  /** A critical successor that starts when the chain's last task finishes extends the
      chain, with the same first task; the sum of the durations before the new last task
      is its earliest start, when that held for the old one. */
  lemma ChainExtend(g: Graph, d: seq<int>, es: seq<int>, ls: seq<Time>, path: seq<nat>, v: nat)
    requires |d| == g.Size() && |es| == g.Size() && |ls| == g.Size()
    requires CriticalChain(g, d, es, ls, path) && v < g.Size()
    requires var p := path[|path| - 1];
             && v in g.next[p] && IsCritical(es, ls, v) && es[v] == es[p] + d[p]
             && es[p] == DurationSum(d, path[..|path| - 1])
    ensures var path' := path + [v];
            && CriticalChain(g, d, es, ls, path') && path'[0] == path[0] && path'[|path'| - 1] == v
            && es[v] == DurationSum(d, path'[..|path'| - 1])
  {
    var path' := path + [v];
    var p := path[|path| - 1];
    assert path[..|path| - 1] + [p] == path;
    DurationSumAppend(d, path[..|path| - 1], p);
    assert path'[..|path'| - 1] == path;
    forall k | 0 < k < |path'|
      ensures LinkAt(g, d, es, path', k)
    {
      if k < |path| {
        assert LinkAt(g, d, es, path, k);
      }
    }
  }

  /** Appending a task adds its duration to the sum. */
  lemma DurationSumAppend(d: seq<int>, path: seq<nat>, v: nat)
    requires Below(path, |d|) && v < |d|
    ensures DurationSum(d, path + [v]) == DurationSum(d, path) + d[v]
  {
    assert (path + [v])[..|path|] == path;
  }

  /** The last task of a complete emission order has no successors. */
  lemma LastIsSink(g: Graph, order: seq<nat>)
    requires Valid(g) && EmitOrder(g, order) && |order| == g.Size() && |order| > 0
    ensures g.next[order[|order| - 1]] == []
  {
    var j := |order| - 1;
    var u := order[j];
    assert order[j..] == [u];
    forall v | v in g.next[u]
      ensures v !in order
    {
      SuccAfter(g, order, j, u, v);
      assert order[..j + 1] == order;
    }
    AscendingIsDistinct(g.next[u]);
    DistinctConcat(order, g.next[u]);
    assert Below(g.next[u], g.Size());
    Pigeonhole(order + g.next[u], g.Size());
  }

  /** In an acyclic graph every critical task hands back to a critical predecessor. */
  lemma AllHandBack(g: Graph, d: seq<int>, es: seq<int>, L: int, ls: seq<Time>)
    requires Valid(g) && |d| == g.Size() && |es| == g.Size() && |ls| == g.Size()
    requires forall w :: 0 <= w < g.Size() ==> EarliestOk(g, d, es, w)
    requires forall w :: 0 <= w < g.Size() ==> LatestOk(g, d, L, ls, w)
    requires forall w :: 0 <= w < g.Size() ==> ls[w].Finite? && es[w] <= ls[w].value
    ensures forall w :: 0 <= w < g.Size() ==> HandsBackAt(g, d, es, ls, w)
  {
    forall w | 0 <= w < g.Size()
      ensures HandsBackAt(g, d, es, ls, w)
    {
      if IsCritical(es, ls, w) && es[w] != 0 {
        CriticalPredecessor(g, d, es, L, ls, w);
        var p :| p in g.prev[w] && IsCritical(es, ls, p) && es[p] + d[p] == es[w];
        assert Below(g.prev[w], g.Size());
      } else if IsCritical(es, ls, w) && NonNegative(d) && g.prev[w] != [] {
        ZeroPredecessor(g, d, es, L, ls, w);
        assert g.prev[w][0] in g.prev[w];
      }
    }
  }

  /** In a nonempty acyclic graph some sink is critical and starts at the project
      length. */
  lemma CriticalSink(g: Graph, d: seq<int>, order: seq<nat>, es: seq<int>, L: int, ls: seq<Time>)
    requires Valid(g) && |d| == g.Size() && |es| == g.Size() && |ls| == g.Size()
    requires EmitOrder(g, order) && |order| == g.Size() && |order| > 0
    requires forall w :: 0 <= w < g.Size() ==> EarliestOk(g, d, es, w)
    requires L == SinkMax(g, es, g.Size())
    requires forall w :: 0 <= w < g.Size() ==> LatestOk(g, d, L, ls, w)
    ensures exists w :: 0 <= w < g.Size() && g.next[w] == [] && IsCritical(es, ls, w) && es[w] == L
  {
    var n := g.Size();
    SinkMaxIsMax(g, es, n);
    var w: nat;
    if L == 0 {
      LastIsSink(g, order);
      w := order[n - 1];
      assert EarliestOk(g, d, es, w);
      MaxFinishIsMax(g.prev[w], es, d);
    } else {
      w :| 0 <= w < n && g.next[w] == [] && L == es[w];
    }
    assert LatestOk(g, d, L, ls, w);
  }

  /** A critical chain that ends at a sink, whose tasks before that sink take `L` in all,
      and that starts at a task without predecessors when no duration is negative. */
  ghost predicate SpanningChain(g: Graph, d: seq<int>, es: seq<int>, ls: seq<Time>, L: int, path: seq<nat>)
    requires |d| == g.Size() && |es| == g.Size() && |ls| == g.Size() && |g.prev| == g.Size()
  {
    && CriticalChain(g, d, es, ls, path)
    && g.next[path[|path| - 1]] == []
    && DurationSum(d, path[..|path| - 1]) == L
    && (NonNegative(d) ==> g.prev[path[0]] == [])
  }

  /** In a nonempty acyclic graph the critical tasks form a chain that ends at a sink and
      whose tasks before that sink take exactly the project length; with no negative
      durations it starts at a task without predecessors. */
  lemma CriticalPathExists(g: Graph, d: seq<int>, order: seq<nat>, es: seq<int>, L: int, ls: seq<Time>)
    requires Valid(g) && |d| == g.Size() && |es| == g.Size() && |ls| == g.Size()
    requires EmitOrder(g, order) && |order| == g.Size() && |order| > 0
    requires forall v :: 0 <= v < g.Size() && v in order ==> EarliestOk(g, d, es, v)
    requires L == SinkMax(g, es, g.Size())
    requires forall u :: 0 <= u < g.Size() && u in order ==> LatestOk(g, d, L, ls, u)
    ensures exists path :: SpanningChain(g, d, es, ls, L, path)
  {
    Pigeonhole(order, g.Size());
    LatestNotBeforeEarliest(g, d, order, es, L, ls);
    OrderIsNumbering(g, order);
    var rank :| IsTopoNumbering(g, rank);
    AllHandBack(g, d, es, L, ls);
    CriticalSink(g, d, order, es, L, ls);
    var w :| 0 <= w < g.Size() && g.next[w] == [] && IsCritical(es, ls, w) && es[w] == L;
    ChainTo(g, d, es, ls, rank, w);
    var path :| CriticalChain(g, d, es, ls, path) && path[|path| - 1] == w
                && es[w] == DurationSum(d, path[..|path| - 1])
                && (NonNegative(d) ==> g.prev[path[0]] == []);
    assert SpanningChain(g, d, es, ls, L, path);
  }

  /** Lines 33-44 and 60-120, the console reads and the printing left aside. */
  method FindCriticalPath(m: seq<seq<int>>, durations: seq<int>) returns (s: Schedule)
    requires IsSquare(m) && |durations| == |m|
    ensures s.graph == GraphOf(m) && Valid(s.graph) && s.graph.Size() == |m|
    ensures |s.earliest| == |m| && |s.latest| == |m| && |s.slack| == |m|
    ensures EmitOrder(s.graph, s.order) && |s.order| <= |m|
    ensures |Sources(s.graph)| <= |s.order| && s.order[..|Sources(s.graph)|] == Sources(s.graph)
    ensures |s.order| == |m| <==> Acyclic(s.graph)
    ensures forall v :: 0 <= v < |m| && v in s.order ==> EarliestOk(s.graph, durations, s.earliest, v)
    ensures forall v :: 0 <= v < |m| && v !in s.order ==>
              RunningMax(s.earliest[v], s.graph.prev[v], s.order, s.earliest, durations)
    ensures forall v :: 0 <= v < |m| && s.graph.inDegree[v] == 0 ==> s.earliest[v] == 0
    ensures s.length == SinkMax(s.graph, s.earliest, |m|)
    ensures forall w :: 0 <= w < |m| && w !in s.order ==> s.latest[w] == Seeded(s.graph, s.earliest, w)
    ensures forall u :: 0 <= u < |m| && u in s.order ==> LatestOk(s.graph, durations, s.length, s.latest, u)
    ensures Acyclic(s.graph) ==>
              forall u :: 0 <= u < |m| ==> s.latest[u].Finite? && s.earliest[u] <= s.latest[u].value
    ensures Ascending(s.critical) && Below(s.critical, |m|)
    ensures forall i :: 0 <= i < |m| ==> (i in s.critical <==> IsCritical(s.earliest, s.latest, i))
    ensures forall i :: 0 <= i < |m| ==> s.slack[i] == Minus(s.latest[i], s.earliest[i])
    ensures forall i :: 0 <= i < |m| ==> (s.slack[i] == Finite(0) <==> i in s.critical)
    ensures Acyclic(s.graph) && |m| > 0 ==>
              exists path :: SpanningChain(s.graph, durations, s.earliest, s.latest, s.length, path)
  {
    var g := BuildGraph(m);
    GraphOfSpec(m);
    var order, es := ForwardPass(g, durations);
    var L, ls := BackwardPass(g, durations, order, es);
    if Acyclic(g) {
      LatestNotBeforeEarliest(g, durations, order, es, L, ls);
      if |m| > 0 {
        CriticalPathExists(g, durations, order, es, L, ls);
      }
    }
    var critical, slack := Classify(es, ls);
    s := Schedule(g, order, es, L, ls, critical, slack);
  }
}
