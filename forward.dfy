/** The forward pass of `findCriticalPath`: a first-in first-out sweep in the style of
    Kahn's algorithm that records the topological order and raises every successor's
    earliest start to the finish time of each predecessor taken from the queue. */
module Forward {
  import opened Seqs
  import opened Times
  import opened Graphs

  /** The vertices i < k whose in-degree is 0, in increasing order. */
  ghost function SourcesUpTo(inDegree: seq<int>, k: nat): seq<nat>
    requires k <= |inDegree|
  {
    if k == 0 then [] else SourcesUpTo(inDegree, k - 1) + (if inDegree[k - 1] == 0 then [k - 1] else [])
  }

  /** The vertices the queue is seeded with, in the order they are pushed. */
  ghost function Sources(g: Graph): seq<nat>
  {
    SourcesUpTo(g.inDegree, |g.inDegree|)
  }

  lemma {:induction false} SourcesUpToSpec(inDegree: seq<int>, k: nat)
    requires k <= |inDegree|
    ensures Ascending(SourcesUpTo(inDegree, k)) && Below(SourcesUpTo(inDegree, k), k)
    ensures forall v :: 0 <= v < k ==> (v in SourcesUpTo(inDegree, k) <==> inDegree[v] == 0)
  {
    if k > 0 {
      SourcesUpToSpec(inDegree, k - 1);
      AscendingExtend(SourcesUpTo(inDegree, k - 1), k - 1, inDegree[k - 1] == 0);
    }
  }

  /** How many entries of `s` are missing from `done`: the in-degree a vertex with
      predecessor list `s` has left once the vertices of `done` have been taken. */
  ghost function Pending(s: seq<nat>, done: seq<nat>): nat
  {
    if s == [] then 0 else (if s[0] in done then 0 else 1) + Pending(s[1..], done)
  }

  lemma {:induction false} PendingNone(s: seq<nat>)
    ensures Pending(s, []) == |s|
  {
    if s != [] {
      PendingNone(s[1..]);
    }
  }

  lemma {:induction false} PendingZero(s: seq<nat>, done: seq<nat>)
    ensures Pending(s, done) == 0 <==> forall p :: p in s ==> p in done
  {
    if s != [] {
      PendingZero(s[1..], done);
      assert s == [s[0]] + s[1..];
    }
  }

  /** Taking one more vertex `u` lowers the count by one exactly when `u` is in the list. */
  lemma {:induction false} PendingAppend(s: seq<nat>, done: seq<nat>, u: nat)
    requires Ascending(s) && u !in done
    ensures Pending(s, done) == Pending(s, done + [u]) + (if u in s then 1 else 0)
  {
    if s != [] {
      PendingAppend(s[1..], done, u);
      assert s == [s[0]] + s[1..];
      if s[0] == u {
        forall k | 0 <= k < |s| - 1
          ensures s[1..][k] != u
        {
          assert s[1..][k] == s[k + 1];
        }
      }
    }
  }

  /** `x` is the largest of 0 and the finish times `es[p] + d[p]` of the entries `p` of
      `preds` that occur in `done`: a vertex's earliest start once the predecessors in
      `done` have raised it. */
  ghost predicate RunningMax(x: int, preds: seq<nat>, done: seq<nat>, es: seq<int>, d: seq<int>)
    requires Below(preds, |es|) && |d| == |es|
  {
    && 0 <= x
    && (forall p :: p in preds && p in done ==> es[p] + d[p] <= x)
    && (x == 0 || exists p :: p in preds && p in done && x == es[p] + d[p])
  }

  /** The earliest start the recurrence asks for: the largest of 0 and the finish time of
      every predecessor. */
  ghost function MaxFinish(preds: seq<nat>, es: seq<int>, d: seq<int>): int
    requires Below(preds, |es|) && |d| == |es|
  {
    if preds == [] then 0 else Max(MaxFinish(preds[1..], es, d), es[preds[0]] + d[preds[0]])
  }

  /** MaxFinish is that maximum: at least 0 and every predecessor's finish time, and
      equal to 0 or to one of them. */
  lemma {:induction false} MaxFinishIsMax(preds: seq<nat>, es: seq<int>, d: seq<int>)
    requires Below(preds, |es|) && |d| == |es|
    ensures 0 <= MaxFinish(preds, es, d)
    ensures forall p :: p in preds ==> es[p] + d[p] <= MaxFinish(preds, es, d)
    ensures MaxFinish(preds, es, d) == 0 || exists p :: p in preds && MaxFinish(preds, es, d) == es[p] + d[p]
  {
    if preds != [] {
      MaxFinishIsMax(preds[1..], es, d);
      assert preds == [preds[0]] + preds[1..];
    }
  }

  /** Vertex `v` satisfies the earliest-start recurrence. */
  ghost predicate EarliestOk(g: Graph, d: seq<int>, es: seq<int>, v: nat)
    requires Valid(g) && |d| == g.Size() && |es| == g.Size() && v < g.Size()
  {
    es[v] == MaxFinish(g.prev[v], es, d)
  }

  /** Once every predecessor has been taken, the running maximum is the recurrence's value. */
  lemma RunningMaxComplete(x: int, preds: seq<nat>, done: seq<nat>, es: seq<int>, d: seq<int>)
    requires Below(preds, |es|) && |d| == |es|
    requires RunningMax(x, preds, done, es, d)
    requires forall p :: p in preds ==> p in done
    ensures x == MaxFinish(preds, es, d)
  {
    MaxFinishIsMax(preds, es, d);
  }

  /** Line 84 for one predecessor `u` taken from the queue. */
  lemma RunningMaxStep(x: int, preds: seq<nat>, done: seq<nat>, u: nat, es: seq<int>, d: seq<int>)
    requires Below(preds, |es|) && |d| == |es|
    requires RunningMax(x, preds, done, es, d) && u in preds
    ensures RunningMax(Max(x, es[u] + d[u]), preds, done + [u], es, d)
  {
    var y := Max(x, es[u] + d[u]);
    if y != 0 && y != es[u] + d[u] {
      var p :| p in preds && p in done && x == es[p] + d[p];
      assert p in done + [u];
    }
  }

  /** The running maximum depends only on the earliest starts of the taken predecessors. */
  lemma RunningMaxFrame(x: int, preds: seq<nat>, done: seq<nat>, es: seq<int>, es': seq<int>, d: seq<int>)
    requires Below(preds, |es|) && |d| == |es| && |es'| == |es|
    requires forall p :: p in preds && p in done ==> es[p] == es'[p]
    requires RunningMax(x, preds, done, es, d)
    ensures RunningMax(x, preds, done, es', d)
  {
    if x != 0 {
      var p :| p in preds && p in done && x == es[p] + d[p];
    }
  }

  /** A vertex that is not a predecessor is indifferent to being taken. */
  lemma RunningMaxIgnore(x: int, preds: seq<nat>, done: seq<nat>, u: nat, es: seq<int>, d: seq<int>)
    requires Below(preds, |es|) && |d| == |es|
    requires RunningMax(x, preds, done, es, d) && u !in preds
    ensures RunningMax(x, preds, done + [u], es, d)
  {
    if x != 0 {
      var p :| p in preds && p in done && x == es[p] + d[p];
      assert p in done + [u];
    }
  }

  /** When every vertex left out of `order` has a predecessor that is also left out, a
      graph with a topological numbering has no vertex left out. */
  lemma {:induction false} EmittedByRank(g: Graph, rank: seq<nat>, order: seq<nat>, w: nat)
    requires Valid(g) && IsTopoNumbering(g, rank) && w < g.Size()
    requires forall x :: 0 <= x < g.Size() && x !in order ==> exists p :: p in g.prev[x] && p !in order
    ensures w in order
    decreases rank[w]
  {
    if w !in order {
      var p :| p in g.prev[w] && p !in order;
      assert w in g.next[p];
      EmittedByRank(g, rank, order, p);
    }
  }

  /** A complete emission order numbers the vertices topologically. */
  lemma OrderIsNumbering(g: Graph, order: seq<nat>)
    requires Valid(g) && EmitOrder(g, order)
    requires forall v :: 0 <= v < g.Size() ==> v in order
    ensures Acyclic(g)
  {
    var n := g.Size();
    var rank := seq(n, v requires 0 <= v < n => IndexOf(order, v));
    forall u, v | 0 <= u < n && v in g.next[u]
      ensures v < |rank| && rank[u] < rank[v]
    {
      var k := IndexOf(order, v);
      assert u in g.prev[v];
      assert u in order[..k];
      var j :| 0 <= j < k && order[j] == u;
      assert IndexOf(order, u) == j;
    }
    assert IsTopoNumbering(g, rank);
  }

  /** Every vertex is emitted or queued at most once, and the sources come first, in
      the order they were seeded. */
  ghost predicate SeedsFirst(g: Graph, order: seq<nat>, queue: seq<nat>)
  {
    && Distinct(order + queue) && Below(order + queue, g.Size())
    && |Sources(g)| <= |order + queue| && (order + queue)[..|Sources(g)|] == Sources(g)
  }

  /** Each in-degree counts the predecessors not yet emitted, plus one for a vertex in
      `rest` whose decrement is still to come. */
  ghost predicate CountsLeft(g: Graph, order: seq<nat>, rest: seq<nat>, inDeg: seq<int>)
    requires Valid(g)
  {
    && |inDeg| == g.Size()
    && forall w :: 0 <= w < g.Size() ==> inDeg[w] == Pending(g.prev[w], order) + (if w in rest then 1 else 0)
  }

  /** The vertices whose in-degree is 0 are exactly those emitted or queued. */
  ghost predicate ZeroQueued(g: Graph, order: seq<nat>, queue: seq<nat>, inDeg: seq<int>)
  {
    && |inDeg| == g.Size()
    && forall w :: 0 <= w < g.Size() ==> ZeroAt(order, queue, inDeg, w)
  }

  /** Vertex `w` has in-degree 0 exactly when it is emitted or queued. */
  ghost predicate ZeroAt(order: seq<nat>, queue: seq<nat>, inDeg: seq<int>, w: nat)
    requires w < |inDeg|
  {
    w in order || w in queue <==> inDeg[w] == 0
  }

  /** Each earliest start is the running maximum over the emitted predecessors; a vertex
      in `rest` has not yet been raised by the last one emitted, so only `before` counts. */
  ghost predicate Raised(g: Graph, d: seq<int>, before: seq<nat>, order: seq<nat>, rest: seq<nat>, es: seq<int>)
    requires Valid(g) && |d| == g.Size()
  {
    && |es| == g.Size()
    && forall w :: 0 <= w < g.Size() ==> RaisedAt(g, d, before, order, rest, es, w)
  }

  /** The running maximum of one vertex `w`, as `Raised` states it. */
  ghost predicate RaisedAt(g: Graph, d: seq<int>, before: seq<nat>, order: seq<nat>, rest: seq<nat>, es: seq<int>, w: nat)
    requires Valid(g) && |d| == g.Size() && |es| == g.Size() && w < g.Size()
  {
    RunningMax(es[w], g.prev[w], if w in rest then before else order, es, d)
  }

  /** The bookkeeping of the sweep between two vertices taken from the queue, over the
      values of the in-degree and earliest-start arrays. */
  ghost predicate SweepState(g: Graph, d: seq<int>, order: seq<nat>, queue: seq<nat>, inDeg: seq<int>, es: seq<int>)
    requires Valid(g) && |d| == g.Size()
  {
    && SeedsFirst(g, order, queue)
    && EmitOrder(g, order)
    && CountsLeft(g, order, [], inDeg)
    && ZeroQueued(g, order, queue, inDeg)
    && Raised(g, d, order, order, [], es)
  }

  /** The same bookkeeping while the successors of the vertex `u` just appended to
      `before` are relaxed: those from position `k` on still await their decrement and
      their raise. */
  ghost predicate RelaxState(g: Graph, d: seq<int>, u: nat, before: seq<nat>, order: seq<nat>, queue: seq<nat>,
                             k: nat, inDeg: seq<int>, es: seq<int>)
    requires Valid(g) && |d| == g.Size() && u < g.Size() && k <= |g.next[u]|
  {
    && order == before + [u] && u !in before && u !in g.next[u]
    && SeedsFirst(g, order, queue)
    && EmitOrder(g, order)
    && CountsLeft(g, order, g.next[u][k..], inDeg)
    && ZeroQueued(g, order, queue, inDeg)
    && Raised(g, d, before, order, g.next[u][k..], es)
  }

  /** Before the first vertex is taken: nothing emitted, the queue holds the sources,
      the in-degrees are the initial counts and every earliest start is 0. */
  lemma SweepStart(g: Graph, d: seq<int>)
    requires Valid(g) && |d| == g.Size()
    ensures SweepState(g, d, [], Sources(g), g.inDegree, seq(g.Size(), _ => 0))
  {
    var n := g.Size();
    SourcesUpToSpec(g.inDegree, n);
    AscendingIsDistinct(Sources(g));
    assert [] + Sources(g) == Sources(g);
    forall w | 0 <= w < n
      ensures g.inDegree[w] == Pending(g.prev[w], []) + (if w in [] then 1 else 0)
    {
      PendingNone(g.prev[w]);
    }
  }

  /** Taking the front vertex `u`: it was neither emitted nor its own predecessor. */
  lemma TakeFront(g: Graph, order: seq<nat>, queue: seq<nat>, inDeg: seq<int>)
    requires Valid(g)
    requires SeedsFirst(g, order, queue) && CountsLeft(g, order, [], inDeg) && ZeroQueued(g, order, queue, inDeg)
    requires queue != []
    ensures queue[0] < g.Size() && |order| < g.Size()
    ensures queue[0] !in order && queue[0] !in g.next[queue[0]]
    ensures SeedsFirst(g, order + [queue[0]], queue[1..])
    ensures EmitOrder(g, order) ==> EmitOrder(g, order + [queue[0]])
  {
    var n, u, order' := g.Size(), queue[0], order + [queue[0]];
    Pigeonhole(order + queue, n);
    assert order' + queue[1..] == order + queue;
    assert (order + queue)[|order|] == u;
    forall j | 0 <= j < |order|
      ensures order[j] != u
    {
      assert (order + queue)[j] == order[j];
    }
    assert ZeroAt(order, queue, inDeg, u);
    PendingZero(g.prev[u], order);
    assert u !in g.prev[u];
    if EmitOrder(g, order) {
      forall k | 0 <= k < |order'|
        ensures forall p :: p in g.prev[order'[k]] ==> p in order'[..k]
      {
        if k < |order| {
          assert order'[..k] == order[..k];
        } else {
          assert order'[..k] == order;
        }
      }
    }
  }

  /** Taking `u` moves one unit of in-degree of each successor into the pending decrement,
      and leaves the other vertices' running maxima as they were. */
  lemma TakeCounts(g: Graph, d: seq<int>, order: seq<nat>, u: nat, inDeg: seq<int>, es: seq<int>)
    requires Valid(g) && |d| == g.Size() && u < g.Size() && u !in order
    requires CountsLeft(g, order, [], inDeg) && Raised(g, d, order, order, [], es)
    ensures CountsLeft(g, order + [u], g.next[u], inDeg)
    ensures Raised(g, d, order, order + [u], g.next[u], es)
  {
    forall w | 0 <= w < g.Size()
      ensures inDeg[w] == Pending(g.prev[w], order + [u]) + (if w in g.next[u] then 1 else 0)
      ensures RunningMax(es[w], g.prev[w], if w in g.next[u] then order else order + [u], es, d)
    {
      PendingAppend(g.prev[w], order, u);
      assert RaisedAt(g, d, order, order, [], es, w);
      if w !in g.next[u] {
        RunningMaxIgnore(es[w], g.prev[w], order, u, es, d);
      }
    }
  }

  /** Lines 69-71: the vertex at the front of the queue leaves it for the order. */
  lemma TakeStep(g: Graph, d: seq<int>, order: seq<nat>, queue: seq<nat>, inDeg: seq<int>, es: seq<int>)
    requires Valid(g) && |d| == g.Size()
    requires SweepState(g, d, order, queue, inDeg, es) && queue != []
    ensures queue[0] < g.Size() && |order| < g.Size()
    ensures RelaxState(g, d, queue[0], order, order + [queue[0]], queue[1..], 0, inDeg, es)
  {
    var u := queue[0];
    TakeFront(g, order, queue, inDeg);
    TakeCounts(g, d, order, u, inDeg, es);
    TakeZero(g, order, queue, inDeg);
    assert g.next[u][0..] == g.next[u];
  }

  /** Moving the front of the queue to the order keeps the set of vertices that are
      emitted or queued. */
  lemma TakeZero(g: Graph, order: seq<nat>, queue: seq<nat>, inDeg: seq<int>)
    requires ZeroQueued(g, order, queue, inDeg) && queue != []
    ensures ZeroQueued(g, order + [queue[0]], queue[1..], inDeg)
  {
    assert queue == [queue[0]] + queue[1..];
    forall w | 0 <= w < g.Size()
      ensures ZeroAt(order + [queue[0]], queue[1..], inDeg, w)
    {
      assert ZeroAt(order, queue, inDeg, w);
    }
  }

  /** The successor `v` at position `k` is relaxed at most once, is neither emitted nor
      queued before, and has `u` among its predecessors. */
  lemma RelaxFacts(g: Graph, d: seq<int>, u: nat, before: seq<nat>, order: seq<nat>, queue: seq<nat>,
                   k: nat, inDeg: seq<int>, es: seq<int>)
    requires Valid(g) && |d| == g.Size() && u < g.Size() && k < |g.next[u]|
    requires RelaxState(g, d, u, before, order, queue, k, inDeg, es)
    ensures g.next[u][k] < g.Size()
    ensures forall w :: w in g.next[u][k..] <==> w == g.next[u][k] || w in g.next[u][k + 1..]
    ensures g.next[u][k] !in g.next[u][k + 1..]
    ensures g.next[u][k] !in order && g.next[u][k] !in queue && g.next[u][k] != u
    ensures u in g.prev[g.next[u][k]]
    ensures inDeg[g.next[u][k]] == Pending(g.prev[g.next[u][k]], order) + 1
  {
    var v := g.next[u][k];
    assert g.next[u][k..] == [v] + g.next[u][k + 1..];
    forall j | k + 1 <= j < |g.next[u]|
      ensures g.next[u][j] != v
    {
    }
    assert v in g.next[u][k..];
    assert ZeroAt(order, queue, inDeg, v);
  }

  /** Lines 76-80: the decrement, and the push when the in-degree reaches 0. */
  lemma RelaxCounts(g: Graph, d: seq<int>, u: nat, before: seq<nat>, order: seq<nat>, queue: seq<nat>,
                    k: nat, inDeg: seq<int>, es: seq<int>)
    requires Valid(g) && |d| == g.Size() && u < g.Size() && k < |g.next[u]|
    requires RelaxState(g, d, u, before, order, queue, k, inDeg, es)
    ensures var v := g.next[u][k];
            var inDeg' := inDeg[v := inDeg[v] - 1];
            var queue' := if inDeg'[v] == 0 then queue + [v] else queue;
            && SeedsFirst(g, order, queue')
            && CountsLeft(g, order, g.next[u][k + 1..], inDeg')
            && ZeroQueued(g, order, queue', inDeg')
  {
    RelaxFacts(g, d, u, before, order, queue, k, inDeg, es);
    var v := g.next[u][k];
    var inDeg' := inDeg[v := inDeg[v] - 1];
    var queue' := if inDeg'[v] == 0 then queue + [v] else queue;
    if inDeg'[v] == 0 {
      assert (order + queue + [v])[..|Sources(g)|] == (order + queue)[..|Sources(g)|];
      assert order + (queue + [v]) == (order + queue) + [v];
    }
    forall w | 0 <= w < g.Size()
      ensures ZeroAt(order, queue', inDeg', w)
    {
      assert ZeroAt(order, queue, inDeg, w);
    }
  }

  /** Line 84 for one vertex `w`: raising the successor `v` keeps `w`'s running maximum,
      and moves `v` from the vertices awaiting `u` to the ones `u` has raised. */
  lemma RaiseOne(g: Graph, d: seq<int>, u: nat, v: nat, w: nat, before: seq<nat>, order: seq<nat>,
                 waiting: bool, es: seq<int>)
    requires Valid(g) && |d| == g.Size() && |es| == g.Size()
    requires u < g.Size() && v < g.Size() && w < g.Size() && v !in order && u in g.prev[v]
    requires order == before + [u] && u !in before
    requires waiting ==> w != v
    requires RunningMax(es[w], g.prev[w], if w == v || waiting then before else order, es, d)
    ensures var es' := es[v := Max(es[v], es[u] + d[u])];
            RunningMax(es'[w], g.prev[w], if waiting then before else order, es', d)
  {
    var es' := es[v := Max(es[v], es[u] + d[u])];
    if w == v {
      RunningMaxStep(es[v], g.prev[v], before, u, es, d);
      RunningMaxFrame(es'[v], g.prev[v], order, es, es', d);
    } else {
      var done := if waiting then before else order;
      RunningMaxFrame(es'[w], g.prev[w], done, es, es', d);
    }
  }

  /** Line 84: the successor's earliest start is raised to u's finish time. */
  lemma RelaxRaise(g: Graph, d: seq<int>, u: nat, before: seq<nat>, order: seq<nat>, queue: seq<nat>,
                   k: nat, inDeg: seq<int>, es: seq<int>)
    requires Valid(g) && |d| == g.Size() && u < g.Size() && k < |g.next[u]|
    requires RelaxState(g, d, u, before, order, queue, k, inDeg, es)
    ensures var v := g.next[u][k];
            Raised(g, d, before, order, g.next[u][k + 1..], es[v := Max(es[v], es[u] + d[u])])
  {
    RelaxFacts(g, d, u, before, order, queue, k, inDeg, es);
    var v := g.next[u][k];
    var es' := es[v := Max(es[v], es[u] + d[u])];
    forall w | 0 <= w < g.Size()
      ensures RunningMax(es'[w], g.prev[w], if w in g.next[u][k + 1..] then before else order, es', d)
    {
      var waiting := w in g.next[u][k + 1..];
      assert RaisedAt(g, d, before, order, g.next[u][k..], es, w);
      RaiseOne(g, d, u, v, w, before, order, waiting, es);
    }
  }

  /** Lines 74-85 for the successor at position `k`. */
  lemma RelaxStep(g: Graph, d: seq<int>, u: nat, before: seq<nat>, order: seq<nat>, queue: seq<nat>,
                  k: nat, inDeg: seq<int>, es: seq<int>)
    requires Valid(g) && |d| == g.Size() && u < g.Size() && k < |g.next[u]|
    requires RelaxState(g, d, u, before, order, queue, k, inDeg, es)
    ensures g.next[u][k] < |inDeg| && u < |es|
    ensures var v := g.next[u][k];
            var inDeg' := inDeg[v := inDeg[v] - 1];
            RelaxState(g, d, u, before, order, if inDeg'[v] == 0 then queue + [v] else queue,
                       k + 1, inDeg', es[v := Max(es[v], es[u] + d[u])])
  {
    RelaxCounts(g, d, u, before, order, queue, k, inDeg, es);
    RelaxRaise(g, d, u, before, order, queue, k, inDeg, es);
  }

  /** After the last successor the sweep's bookkeeping holds again. */
  lemma RelaxDone(g: Graph, d: seq<int>, u: nat, before: seq<nat>, order: seq<nat>, queue: seq<nat>,
                  inDeg: seq<int>, es: seq<int>)
    requires Valid(g) && |d| == g.Size() && u < g.Size()
    requires RelaxState(g, d, u, before, order, queue, |g.next[u]|, inDeg, es)
    ensures SweepState(g, d, order, queue, inDeg, es)
  {
    assert g.next[u][|g.next[u]|..] == [];
    assert Raised(g, d, order, order, [], es) by {
      forall w | 0 <= w < g.Size()
        ensures RunningMax(es[w], g.prev[w], order, es, d)
      {
        assert RaisedAt(g, d, before, order, g.next[u][|g.next[u]|..], es, w);
      }
    }
  }

  /** When the queue runs dry: the order starts with the sources and holds every vertex
      exactly when the graph is acyclic; emitted vertices satisfy the earliest-start
      recurrence, and every source keeps earliest start 0. */
  lemma SweepEnd(g: Graph, d: seq<int>, order: seq<nat>, inDeg: seq<int>, es: seq<int>)
    requires Valid(g) && |d| == g.Size()
    requires SweepState(g, d, order, [], inDeg, es)
    ensures |order| <= g.Size()
    ensures |Sources(g)| <= |order| && order[..|Sources(g)|] == Sources(g)
    ensures |order| == g.Size() <==> Acyclic(g)
    ensures forall v :: 0 <= v < g.Size() && v in order ==> EarliestOk(g, d, es, v)
    ensures forall v :: 0 <= v < g.Size() && v !in order ==> RunningMax(es[v], g.prev[v], order, es, d)
    ensures forall v :: 0 <= v < g.Size() && g.inDegree[v] == 0 ==> es[v] == 0
  {
    assert order + [] == order;
    SweepEndTimes(g, d, order, es);
    SweepEndOrder(g, order, inDeg);
  }

  /** Once the queue is empty every emitted vertex has the earliest start the recurrence
      asks for, and every other vertex the running maximum over its emitted
      predecessors. */
  lemma SweepEndTimes(g: Graph, d: seq<int>, order: seq<nat>, es: seq<int>)
    requires Valid(g) && |d| == g.Size() && EmitOrder(g, order)
    requires Raised(g, d, order, order, [], es)
    ensures forall v :: 0 <= v < g.Size() && v in order ==> EarliestOk(g, d, es, v)
    ensures forall v :: 0 <= v < g.Size() && v !in order ==> RunningMax(es[v], g.prev[v], order, es, d)
    ensures forall v :: 0 <= v < g.Size() && g.inDegree[v] == 0 ==> es[v] == 0
  {
    forall v | 0 <= v < g.Size()
      ensures RunningMax(es[v], g.prev[v], order, es, d)
    {
      assert RaisedAt(g, d, order, order, [], es, v);
    }
    forall v | v in order
      ensures EarliestOk(g, d, es, v)
    {
      var k :| 0 <= k < |order| && order[k] == v;
      RunningMaxComplete(es[v], g.prev[v], order, es, d);
    }
  }

  /** Once the queue is empty every vertex has been emitted exactly when the graph has
      no cycle: a vertex left behind keeps a predecessor that was never emitted. */
  lemma SweepEndOrder(g: Graph, order: seq<nat>, inDeg: seq<int>)
    requires Valid(g) && EmitOrder(g, order)
    requires CountsLeft(g, order, [], inDeg) && ZeroQueued(g, order, [], inDeg)
    ensures |order| <= g.Size()
    ensures |order| == g.Size() <==> Acyclic(g)
  {
    var n := g.Size();
    Pigeonhole(order, n);
    if |order| == n {
      OrderIsNumbering(g, order);
    } else if Acyclic(g) {
      var rank :| IsTopoNumbering(g, rank);
      forall x | 0 <= x < n && x !in order
        ensures exists p :: p in g.prev[x] && p !in order
      {
        assert ZeroAt(order, [], inDeg, x);
        PendingZero(g.prev[x], order);
      }
      var w :| 0 <= w < n && w !in order;
      EmittedByRank(g, rank, order, w);
    }
  }

  /** The entries of `succs` whose in-degree is 1 before the decrement at line 77, so
      that it reaches 0: the vertices lines 78-80 push, in the order of `succs`. */
  ghost function Readied(succs: seq<nat>, inDeg: seq<int>): seq<nat>
    requires Below(succs, |inDeg|)
  {
    if succs == [] then []
    else Readied(succs[..|succs| - 1], inDeg) + (if inDeg[succs[|succs| - 1]] == 1 then [succs[|succs| - 1]] else [])
  }

  /** The readied vertices are exactly the entries of `succs` with in-degree 1. */
  lemma {:induction false} ReadiedMembers(succs: seq<nat>, inDeg: seq<int>)
    requires Below(succs, |inDeg|)
    ensures forall x :: x in Readied(succs, inDeg) <==> x in succs && inDeg[x] == 1
  {
    if succs != [] {
      var init, v := succs[..|succs| - 1], succs[|succs| - 1];
      ReadiedMembers(init, inDeg);
      assert succs == init + [v];
      forall x
        ensures x in Readied(succs, inDeg) <==> x in succs && inDeg[x] == 1
      {
        assert x in succs <==> x in init || x == v;
      }
    }
  }

  /** The readied vertices of an ascending successor list are ascending as well. */
  lemma {:induction false} ReadiedAscending(succs: seq<nat>, inDeg: seq<int>)
    requires Below(succs, |inDeg|) && Ascending(succs)
    ensures Ascending(Readied(succs, inDeg))
  {
    if succs != [] {
      var init, v := succs[..|succs| - 1], succs[|succs| - 1];
      assert Ascending(init);
      ReadiedAscending(init, inDeg);
      ReadiedMembers(init, inDeg);
      var r0 := Readied(init, inDeg);
      forall a | 0 <= a < |r0|
        ensures r0[a] < v
      {
        assert r0[a] in r0;
        var j :| 0 <= j < |init| && init[j] == r0[a];
        assert init[j] == succs[j];
      }
    }
  }

  /** The in-degrees once every entry of `succs` has lost one (line 77). */
  ghost function Decremented(inDeg: seq<int>, succs: seq<nat>): (r: seq<int>)
    requires Below(succs, |inDeg|)
    ensures |r| == |inDeg|
  {
    if succs == [] then inDeg
    else
      var prior := Decremented(inDeg, succs[..|succs| - 1]);
      var v := succs[|succs| - 1];
      prior[v := prior[v] - 1]
  }

  /** The earliest starts once every entry `v` of `succs` in turn has been raised to the
      finish time of `u`, its current earliest start plus `du` (line 84). */
  ghost function RaisedTo(es: seq<int>, succs: seq<nat>, u: nat, du: int): (r: seq<int>)
    requires Below(succs, |es|) && u < |es|
    ensures |r| == |es|
  {
    if succs == [] then es
    else
      var prior := RaisedTo(es, succs[..|succs| - 1], u, du);
      var v := succs[|succs| - 1];
      prior[v := Max(prior[v], prior[u] + du)]
  }

  /** Each in-degree drops by one exactly for the entries of a duplicate-free `succs`. */
  lemma {:induction false} DecrementedSpec(inDeg: seq<int>, succs: seq<nat>)
    requires Below(succs, |inDeg|) && Distinct(succs)
    ensures forall x :: 0 <= x < |inDeg| ==>
              Decremented(inDeg, succs)[x] == inDeg[x] - (if x in succs then 1 else 0)
  {
    if succs != [] {
      var init, v := succs[..|succs| - 1], succs[|succs| - 1];
      assert Distinct(init);
      DecrementedSpec(inDeg, init);
      assert succs == init + [v];
      assert v !in init by {
        forall a | 0 <= a < |init|
          ensures init[a] != v
        {
          assert init[a] == succs[a];
        }
      }
      forall x | 0 <= x < |inDeg|
        ensures Decremented(inDeg, succs)[x] == inDeg[x] - (if x in succs then 1 else 0)
      {
        assert x in succs <==> x in init || x == v;
      }
    }
  }

  /** Unless `u` is among them, each entry of a duplicate-free `succs` ends at the larger
      of its own earliest start and u's finish time, and every other vertex keeps its own. */
  lemma {:induction false} RaisedToSpec(es: seq<int>, succs: seq<nat>, u: nat, du: int)
    requires Below(succs, |es|) && u < |es| && Distinct(succs) && u !in succs
    ensures forall x :: 0 <= x < |es| ==>
              RaisedTo(es, succs, u, du)[x] == if x in succs then Max(es[x], es[u] + du) else es[x]
  {
    if succs != [] {
      var init, v := succs[..|succs| - 1], succs[|succs| - 1];
      assert Distinct(init);
      assert succs == init + [v];
      assert u !in init;
      RaisedToSpec(es, init, u, du);
      assert v !in init by {
        forall a | 0 <= a < |init|
          ensures init[a] != v
        {
          assert init[a] == succs[a];
        }
      }
      forall x | 0 <= x < |es|
        ensures RaisedTo(es, succs, u, du)[x] == if x in succs then Max(es[x], es[u] + du) else es[x]
      {
        assert x in succs <==> x in init || x == v;
      }
    }
  }

  /** Lines 76-84 for the edge u -> v: one less pending predecessor for `v`, the push
      when none is left, and v's earliest start raised to u's finish time `du`. */
  method RelaxEdge(u: nat, v: nat, du: int, queue: seq<nat>, inDegree: array<int>, earliest: array<int>)
    returns (queue': seq<nat>)
    requires u < earliest.Length && v < inDegree.Length && v < earliest.Length && inDegree != earliest
    modifies inDegree, earliest
    ensures var inDeg := old(inDegree[..]); inDegree[..] == inDeg[v := inDeg[v] - 1]
    ensures var es := old(earliest[..]); earliest[..] == es[v := Max(es[v], es[u] + du)]
    ensures queue' == if old(inDegree[..])[v] - 1 == 0 then queue + [v] else queue
  {
    inDegree[v] := inDegree[v] - 1;
    queue' := queue;
    if inDegree[v] == 0 {
      queue' := queue' + [v];
    }
    earliest[v] := Max(earliest[v], earliest[u] + du);
  }

  /** Lines 74-85: every successor `v` of `u` in turn loses one in-degree, joins the back
      of the queue once that reaches 0, and has its earliest start raised to u's finish
      time. */
  method RelaxSuccessors(g: Graph, d: seq<int>, u: nat, queue: seq<nat>, inDegree: array<int>,
                         earliest: array<int>)
    returns (queue': seq<nat>)
    requires |g.next| == g.Size() && |d| == g.Size() && u < g.Size() && inDegree != earliest
    requires Ascending(g.next[u]) && Below(g.next[u], g.Size())
    requires inDegree.Length == g.Size() && earliest.Length == g.Size()
    modifies inDegree, earliest
    ensures queue' == queue + Readied(g.next[u], old(inDegree[..]))
    ensures inDegree[..] == Decremented(old(inDegree[..]), g.next[u])
    ensures earliest[..] == RaisedTo(old(earliest[..]), g.next[u], u, d[u])
  {
    ghost var inDeg0, es0 := inDegree[..], earliest[..];
    var succs, du := g.next[u], d[u];
    assert succs[..0] == [];
    queue' := queue;
    for k := 0 to |succs|
      invariant queue' == queue + Readied(succs[..k], inDeg0)
      invariant inDegree[..] == Decremented(inDeg0, succs[..k])
      invariant earliest[..] == RaisedTo(es0, succs[..k], u, du)
    {
      ghost var q, inDeg, es := queue', inDegree[..], earliest[..];
      queue' := RelaxEdge(u, succs[k], du, queue', inDegree, earliest);
      TrackEdge(succs, k, u, du, inDeg0, es0, queue, q, inDeg, es, queue', inDegree[..], earliest[..]);
    }
    assert succs[..|succs|] == succs;
  }

  /** Relaxing the successor at position `k` extends each of the three running records
      (queue, in-degrees, earliest starts) by that successor. */
  lemma {:induction false} TrackStep(s: seq<nat>, k: nat, u: nat, du: int, inDeg0: seq<int>, es0: seq<int>,
                  q0: seq<nat>, q: seq<nat>, inDeg: seq<int>, es: seq<int>)
    requires Ascending(s) && Below(s, |inDeg0|) && |es0| == |inDeg0| && u < |es0| && k < |s|
    requires q == q0 + Readied(s[..k], inDeg0)
    requires inDeg == Decremented(inDeg0, s[..k]) && es == RaisedTo(es0, s[..k], u, du)
    ensures var v := s[k];
            var inDeg' := inDeg[v := inDeg[v] - 1];
            && (if inDeg'[v] == 0 then q + [v] else q) == q0 + Readied(s[..k + 1], inDeg0)
            && inDeg' == Decremented(inDeg0, s[..k + 1])
            && es[v := Max(es[v], es[u] + du)] == RaisedTo(es0, s[..k + 1], u, du)
  {
    TrackUntouched(s, k, inDeg0);
    TrackQueue(s, k, inDeg0, q0, q);
    TrackDegree(s, k, inDeg0, inDeg);
    TrackRaise(s, k, u, du, es0, es);
  }

  /** TrackStep for the values RelaxEdge leaves behind. */
  lemma {:induction false} TrackEdge(s: seq<nat>, k: nat, u: nat, du: int, inDeg0: seq<int>, es0: seq<int>,
                                     q0: seq<nat>, q: seq<nat>, inDeg: seq<int>, es: seq<int>,
                                     q': seq<nat>, inDeg': seq<int>, es': seq<int>)
    requires Ascending(s) && Below(s, |inDeg0|) && |es0| == |inDeg0| && u < |es0| && k < |s|
    requires q == q0 + Readied(s[..k], inDeg0)
    requires inDeg == Decremented(inDeg0, s[..k]) && es == RaisedTo(es0, s[..k], u, du)
    requires inDeg' == inDeg[s[k] := inDeg[s[k]] - 1]
    requires q' == if inDeg[s[k]] - 1 == 0 then q + [s[k]] else q
    requires es' == es[s[k] := Max(es[s[k]], es[u] + du)]
    ensures q' == q0 + Readied(s[..k + 1], inDeg0)
    ensures inDeg' == Decremented(inDeg0, s[..k + 1])
    ensures es' == RaisedTo(es0, s[..k + 1], u, du)
  {
    TrackStep(s, k, u, du, inDeg0, es0, q0, q, inDeg, es);
  }

  /** The in-degrees after position `k` are those after the first `k` with one less for
      the successor at `k`. */
  lemma {:induction false} TrackDegree(s: seq<nat>, k: nat, inDeg0: seq<int>, inDeg: seq<int>)
    requires Below(s, |inDeg0|) && k < |s| && inDeg == Decremented(inDeg0, s[..k])
    ensures Decremented(inDeg0, s[..k + 1]) == inDeg[s[k] := inDeg[s[k]] - 1]
  {
    assert s[..k + 1][..k] == s[..k] && s[..k + 1][k] == s[k];
  }

  /** The earliest starts after position `k` are those after the first `k` with the
      successor at `k` raised to u's finish time. */
  lemma {:induction false} TrackRaise(s: seq<nat>, k: nat, u: nat, du: int, es0: seq<int>, es: seq<int>)
    requires Below(s, |es0|) && u < |es0| && k < |s| && es == RaisedTo(es0, s[..k], u, du)
    ensures RaisedTo(es0, s[..k + 1], u, du) == es[s[k] := Max(es[s[k]], es[u] + du)]
  {
    assert s[..k + 1][..k] == s[..k] && s[..k + 1][k] == s[k];
  }

  /** The successor at position `k` of an ascending list still has its in-degree from
      before the loop. */
  lemma {:induction false} TrackUntouched(s: seq<nat>, k: nat, inDeg0: seq<int>)
    requires Ascending(s) && Below(s, |inDeg0|) && k < |s|
    ensures Decremented(inDeg0, s[..k])[s[k]] == inDeg0[s[k]]
  {
    var v := s[k];
    assert v !in s[..k] by {
      forall a | 0 <= a < k
        ensures s[..k][a] != v
      {
        assert s[..k][a] == s[a];
      }
    }
    AscendingIsDistinct(s);
    assert Distinct(s[..k]);
    DecrementedSpec(inDeg0, s[..k]);
  }

  /** The queue grows by the successor at position `k` exactly when its in-degree from
      before the loop was 1. */
  lemma {:induction false} TrackQueue(s: seq<nat>, k: nat, inDeg0: seq<int>, q0: seq<nat>, q: seq<nat>)
    requires Below(s, |inDeg0|) && k < |s| && q == q0 + Readied(s[..k], inDeg0)
    ensures q0 + Readied(s[..k + 1], inDeg0) == if inDeg0[s[k]] == 1 then q + [s[k]] else q
  {
    var v := s[k];
    assert s[..k + 1][..k] == s[..k] && s[..k + 1][k] == v;
    var r := Readied(s[..k], inDeg0);
    assert Readied(s[..k + 1], inDeg0) == r + (if inDeg0[v] == 1 then [v] else []);
    assert r + [] == r;
  }

  /** Lines 74-85 inside the sweep: relaxing the successors of the vertex `u` just taken
      restores the sweep's bookkeeping for the longer order. */
  method RelaxTaken(g: Graph, d: seq<int>, u: nat, ghost before: seq<nat>, ghost order: seq<nat>,
                    queue: seq<nat>, inDegree: array<int>, earliest: array<int>)
    returns (queue': seq<nat>)
    requires Valid(g) && |d| == g.Size() && u < g.Size() && inDegree != earliest
    requires inDegree.Length == g.Size() && earliest.Length == g.Size()
    requires RelaxState(g, d, u, before, order, queue, 0, inDegree[..], earliest[..])
    modifies inDegree, earliest
    ensures queue' == queue + Readied(g.next[u], old(inDegree[..]))
    ensures inDegree[..] == Decremented(old(inDegree[..]), g.next[u])
    ensures earliest[..] == RaisedTo(old(earliest[..]), g.next[u], u, d[u])
    ensures SweepState(g, d, order, queue', inDegree[..], earliest[..])
  {
    ghost var inDeg0, es0 := inDegree[..], earliest[..];
    queue' := RelaxSuccessors(g, d, u, queue, inDegree, earliest);
    assert g.next[u][..0] == [];
    RelaxRest(g, d, u, before, order, queue, inDeg0, es0, 0, queue, inDeg0, es0);
  }

  /** The sweep's bookkeeping survives relaxing the successors of `u` from position `k`
      on, when the queue, in-degrees and earliest starts so far are the running records
      of the first `k`. */
  lemma {:induction false} RelaxRest(g: Graph, d: seq<int>, u: nat, before: seq<nat>, order: seq<nat>,
                                     queue0: seq<nat>, inDeg0: seq<int>, es0: seq<int>,
                                     k: nat, queue: seq<nat>, inDeg: seq<int>, es: seq<int>)
    requires Valid(g) && |d| == g.Size() && u < g.Size() && k <= |g.next[u]|
    requires |inDeg0| == g.Size() && |es0| == g.Size()
    requires RelaxState(g, d, u, before, order, queue, k, inDeg, es)
    requires queue == queue0 + Readied(g.next[u][..k], inDeg0)
    requires inDeg == Decremented(inDeg0, g.next[u][..k])
    requires es == RaisedTo(es0, g.next[u][..k], u, d[u])
    ensures SweepState(g, d, order, queue0 + Readied(g.next[u], inDeg0), Decremented(inDeg0, g.next[u]),
                       RaisedTo(es0, g.next[u], u, d[u]))
    decreases |g.next[u]| - k
  {
    if k == |g.next[u]| {
      assert g.next[u][..k] == g.next[u];
      RelaxDone(g, d, u, before, order, queue, inDeg, es);
    } else {
      var v := g.next[u][k];
      RelaxStep(g, d, u, before, order, queue, k, inDeg, es);
      var inDeg' := inDeg[v := inDeg[v] - 1];
      var queue' := if inDeg'[v] == 0 then queue + [v] else queue;
      var es' := es[v := Max(es[v], es[u] + d[u])];
      TrackEdge(g.next[u], k, u, d[u], inDeg0, es0, queue0, queue, inDeg, es, queue', inDeg', es');
      RelaxRest(g, d, u, before, order, queue0, inDeg0, es0, k + 1, queue', inDeg', es');
    }
  }

  /** Lines 60-86. The queue starts with the in-degree-0 vertices in increasing id order;
      each vertex taken from its front is appended to the order, and each of its
      successors loses one in-degree, joins the queue when that reaches 0, and has its
      earliest start raised to the taken vertex's finish time. The in-degree counts are
      worked on in a local copy. */
  method ForwardPass(g: Graph, d: seq<int>) returns (order: seq<nat>, es: seq<int>)
    requires Valid(g) && |d| == g.Size()
    ensures |es| == g.Size()
    ensures EmitOrder(g, order) && |order| <= g.Size()
    ensures |Sources(g)| <= |order| && order[..|Sources(g)|] == Sources(g)
    ensures |order| == g.Size() <==> Acyclic(g)
    ensures forall v :: 0 <= v < g.Size() && v in order ==> EarliestOk(g, d, es, v)
    ensures forall v :: 0 <= v < g.Size() && v !in order ==> RunningMax(es[v], g.prev[v], order, es, d)
    ensures forall v :: 0 <= v < g.Size() && g.inDegree[v] == 0 ==> es[v] == 0
  {
    var n := g.Size();
    var inDegree := new int[n](i requires 0 <= i < n => g.inDegree[i]);
    var earliest := new int[n](_ => 0);
    var queue: seq<nat> := [];
    for i := 0 to n
      invariant queue == SourcesUpTo(g.inDegree, i)
    {
      if inDegree[i] == 0 {
        queue := queue + [i];
      }
    }
    order := [];
    SweepStart(g, d);
    assert inDegree[..] == g.inDegree && earliest[..] == seq(n, _ => 0);

    while queue != []
      invariant SweepState(g, d, order, queue, inDegree[..], earliest[..])
      decreases n - |order|
    {
      TakeStep(g, d, order, queue, inDegree[..], earliest[..]);
      var u := queue[0];
      queue := queue[1..];
      ghost var before := order;
      order := order + [u];
      queue := RelaxTaken(g, d, u, before, order, queue, inDegree, earliest);
    }
    es := earliest[..];
    SweepEnd(g, d, order, inDegree[..], es);
  }
}
