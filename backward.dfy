/** The backward pass of `findCriticalPath`: the project length as the largest earliest
    start over the sinks, then latest starts computed over the topological order in
    reverse, each vertex pulling from its successors and pushing to its predecessors. */
module Backward {
  import opened Seqs
  import opened Times
  import opened Graphs

  /** The running maximum of lines 89-93 after the vertices i < k: the largest of 0 and
      the earliest starts of the sinks among them. */
  ghost function SinkMax(g: Graph, es: seq<int>, k: nat): int
    requires |es| == g.Size() && k <= |es|
  {
    if k == 0 then 0
    else if g.next[k - 1] == [] then Max(SinkMax(g, es, k - 1), es[k - 1])
    else SinkMax(g, es, k - 1)
  }

  /** SinkMax is that maximum: at least 0 and every sink's earliest start, and equal to 0
      or to one of them. */
  lemma {:induction false} SinkMaxIsMax(g: Graph, es: seq<int>, k: nat)
    requires |es| == g.Size() && k <= |es|
    ensures 0 <= SinkMax(g, es, k)
    ensures forall w :: 0 <= w < k && g.next[w] == [] ==> es[w] <= SinkMax(g, es, k)
    ensures SinkMax(g, es, k) == 0 || exists w :: 0 <= w < k && g.next[w] == [] && SinkMax(g, es, k) == es[w]
  {
    if k > 0 {
      SinkMaxIsMax(g, es, k - 1);
    }
  }

  /** The latest start of vertex `w` when the sink loop of lines 89-94 is over: a sink
      holds the running maximum reached at it, every other vertex the sentinel. */
  ghost function Seeded(g: Graph, es: seq<int>, w: nat): Time
    requires |es| == g.Size() && w < |es|
  {
    if g.next[w] == [] then Finite(SinkMax(g, es, w + 1)) else Infinity
  }

  /** The least of `ls[v] - dw` over the successors `v`; the sentinel when there are none. */
  ghost function MinNext(succs: seq<nat>, ls: seq<Time>, dw: int): Time
    requires Below(succs, |ls|)
  {
    if succs == [] then Infinity else Min(Minus(ls[succs[0]], dw), MinNext(succs[1..], ls, dw))
  }

  /** MinNext is that minimum: below every candidate, and one of them unless there are none. */
  lemma {:induction false} MinNextIsMin(succs: seq<nat>, ls: seq<Time>, dw: int)
    requires Below(succs, |ls|)
    ensures forall v :: v in succs ==> Le(MinNext(succs, ls, dw), Minus(ls[v], dw))
    ensures (succs == [] && MinNext(succs, ls, dw) == Infinity)
            || exists v :: v in succs && MinNext(succs, ls, dw) == Minus(ls[v], dw)
  {
    if succs != [] {
      MinNextIsMin(succs[1..], ls, dw);
      assert succs == [succs[0]] + succs[1..];
      assert succs[0] in succs;
    }
  }

  /** MinNext reads the latest starts of the successors only. */
  lemma {:induction false} MinNextFrame(succs: seq<nat>, ls: seq<Time>, ls': seq<Time>, dw: int)
    requires Below(succs, |ls|) && |ls'| == |ls|
    requires forall v :: v in succs ==> ls[v] == ls'[v]
    ensures MinNext(succs, ls, dw) == MinNext(succs, ls', dw)
  {
    if succs != [] {
      assert succs[0] in succs;
      MinNextFrame(succs[1..], ls, ls', dw);
    }
  }

  /** The latest start a visited vertex keeps: the project length for a sink (line 100),
      the least successor latest start less its own duration otherwise (line 103). */
  ghost function Settled(g: Graph, d: seq<int>, L: int, ls: seq<Time>, u: nat): Time
    requires Valid(g) && |d| == g.Size() && |ls| == g.Size() && u < g.Size()
  {
    if g.next[u] == [] then Finite(L) else MinNext(g.next[u], ls, d[u])
  }

  /** Vertex `u` holds its settled latest start. */
  ghost predicate LatestOk(g: Graph, d: seq<int>, L: int, ls: seq<Time>, u: nat)
    requires Valid(g) && |d| == g.Size() && |ls| == g.Size() && u < g.Size()
  {
    ls[u] == Settled(g, d, L, ls, u)
  }

  /** `x` is the least of `init` and of `ls[v] - dw` over the successors `v` in `done`:
      the value of a latest start once those successors have been applied to it. */
  ghost predicate RunningMin(x: Time, init: Time, succs: seq<nat>, done: seq<nat>, ls: seq<Time>, dw: int)
    requires Below(succs, |ls|)
  {
    && Le(x, init)
    && (forall v :: v in succs && v in done ==> Le(x, Minus(ls[v], dw)))
    && (x == init || exists v :: v in succs && v in done && x == Minus(ls[v], dw))
  }

  /** Lines 103 and 106 for one successor `v`. */
  lemma RunningMinStep(x: Time, init: Time, succs: seq<nat>, done: seq<nat>, ls: seq<Time>, dw: int, v: nat)
    requires Below(succs, |ls|) && v in succs
    requires RunningMin(x, init, succs, done, ls, dw)
    ensures RunningMin(Min(x, Minus(ls[v], dw)), init, succs, done + [v], ls, dw)
  {
    var y := Min(x, Minus(ls[v], dw));
    if y != init && y != Minus(ls[v], dw) {
      var p :| p in succs && p in done && x == Minus(ls[p], dw);
      assert p in done + [v];
    }
  }

  /** The running minimum depends only on the latest starts of the applied successors. */
  lemma RunningMinFrame(x: Time, init: Time, succs: seq<nat>, done: seq<nat>, ls: seq<Time>, ls': seq<Time>, dw: int)
    requires Below(succs, |ls|) && |ls'| == |ls|
    requires forall v :: v in succs && v in done ==> ls[v] == ls'[v]
    requires RunningMin(x, init, succs, done, ls, dw)
    ensures RunningMin(x, init, succs, done, ls', dw)
  {
    if x != init {
      var p :| p in succs && p in done && x == Minus(ls[p], dw);
    }
  }

  /** The running minimum depends only on which successors have been applied. */
  lemma RunningMinSame(x: Time, init: Time, succs: seq<nat>, done: seq<nat>, done': seq<nat>, ls: seq<Time>, dw: int)
    requires Below(succs, |ls|)
    requires forall v :: v in succs ==> (v in done <==> v in done')
    requires RunningMin(x, init, succs, done, ls, dw)
    ensures RunningMin(x, init, succs, done', ls, dw)
  {
    if x != init {
      var p :| p in succs && p in done && x == Minus(ls[p], dw);
    }
  }

  /** Once every successor has been applied to the sentinel, the running minimum is MinNext. */
  lemma RunningMinComplete(x: Time, succs: seq<nat>, done: seq<nat>, ls: seq<Time>, dw: int)
    requires Below(succs, |ls|)
    requires RunningMin(x, Infinity, succs, done, ls, dw)
    requires forall v :: v in succs ==> v in done
    ensures x == MinNext(succs, ls, dw)
  {
    MinNextIsMin(succs, ls, dw);
    var m := MinNext(succs, ls, dw);
    if x != Infinity && m != Infinity {
      LeAntisymmetric(x, m);
    }
  }

  /** A successor of a vertex at position `j` or later of an emission order lies after
      position `j`, or outside the order. */
  lemma SuccAfter(g: Graph, order: seq<nat>, j: nat, w: nat, v: nat)
    requires Valid(g) && EmitOrder(g, order) && j <= |order|
    requires w in order[j..] && w < g.Size() && v in g.next[w]
    ensures v !in order[..j + 1] && v != w
  {
    var m :| j <= m < |order| && order[m] == w;
    assert order[j..][m - j] == w;
    assert v < g.Size() by {
      assert Below(g.next[w], g.Size());
    }
    assert w in g.prev[v];
    forall k | 0 <= k < |order| && order[k] == v
      ensures m < k
    {
      assert w in order[..k];
      var a :| 0 <= a < k && order[a] == w;
    }
  }

  /** What holds for vertex `w` while the vertices `order[i..]` have been visited (and,
      for a vertex in `rest`, only `order[i + 1..]` have pushed to it): a vertex never
      emitted keeps its seeded value, a visited one its settled value, and one yet to be
      visited the running minimum over its visited successors. */
  ghost predicate BackAt(g: Graph, d: seq<int>, L: int, es: seq<int>, order: seq<nat>, i: nat, rest: seq<nat>,
                         ls: seq<Time>, w: nat)
    requires Valid(g) && |d| == g.Size() && |es| == g.Size() && |ls| == g.Size() && i <= |order| && w < g.Size()
  {
    var j := if w in rest && i < |order| then i + 1 else i;
    if w !in order then ls[w] == Seeded(g, es, w)
    else if w in order[j..] then ls[w] == Settled(g, d, L, ls, w)
    else RunningMin(ls[w], Seeded(g, es, w), g.next[w], order[j..], ls, d[w])
  }

  /** The state of the backward pass when the vertices from position `i` on have been
      visited. */
  ghost predicate BackState(g: Graph, d: seq<int>, L: int, es: seq<int>, order: seq<nat>, i: nat, ls: seq<Time>)
    requires Valid(g) && |d| == g.Size() && |es| == g.Size()
  {
    && EmitOrder(g, order) && i <= |order| && |ls| == g.Size()
    && forall w :: 0 <= w < g.Size() ==> BackAt(g, d, L, es, order, i, [], ls, w)
  }

  /** The latest start of the vertex `u` at position `j - 1` being visited, after its
      successors before position `k` of its successor list have been pulled (lines 99-104). */
  ghost predicate PullAt(g: Graph, d: seq<int>, L: int, order: seq<nat>, j: nat, k: nat, ls: seq<Time>)
    requires Valid(g) && |d| == g.Size() && |ls| == g.Size() && 1 <= j <= |order| && order[j - 1] < g.Size()
    requires k <= |g.next[order[j - 1]]|
  {
    var u := order[j - 1];
    if g.next[u] == [] then ls[u] == Finite(L)
    else RunningMin(ls[u], Infinity, g.next[u], order[j..] + g.next[u][..k], ls, d[u])
  }

  /** The state while the vertex at position `j - 1` pulls from its successors. */
  ghost predicate PullState(g: Graph, d: seq<int>, L: int, es: seq<int>, order: seq<nat>, j: nat, k: nat, ls: seq<Time>)
    requires Valid(g) && |d| == g.Size() && |es| == g.Size()
  {
    && EmitOrder(g, order) && 1 <= j <= |order| && |ls| == g.Size() && k <= |g.next[order[j - 1]]|
    && (forall w :: 0 <= w < g.Size() && w != order[j - 1] ==> BackAt(g, d, L, es, order, j, [], ls, w))
    && PullAt(g, d, L, order, j, k, ls)
  }

  /** The state while the vertex at position `i` pushes to its predecessors: those from
      position `k` of its predecessor list on are still waiting for the push. */
  ghost predicate PushState(g: Graph, d: seq<int>, L: int, es: seq<int>, order: seq<nat>, i: nat, k: nat, ls: seq<Time>)
    requires Valid(g) && |d| == g.Size() && |es| == g.Size()
  {
    && EmitOrder(g, order) && i < |order| && |ls| == g.Size() && k <= |g.prev[order[i]]|
    && forall w :: 0 <= w < g.Size() ==> BackAt(g, d, L, es, order, i, g.prev[order[i]][k..], ls, w)
  }

  /** Before the reverse loop every vertex holds its seeded latest start. */
  lemma BackStart(g: Graph, d: seq<int>, L: int, es: seq<int>, order: seq<nat>, ls: seq<Time>)
    requires Valid(g) && |d| == g.Size() && |es| == g.Size() && EmitOrder(g, order)
    requires |ls| == g.Size() && forall w :: 0 <= w < g.Size() ==> ls[w] == Seeded(g, es, w)
    ensures BackState(g, d, L, es, order, |order|, ls)
  {
    forall w | 0 <= w < g.Size()
      ensures BackAt(g, d, L, es, order, |order|, [], ls, w)
    {
    }
  }

  /** Lines 98-101: visiting the vertex at position `j - 1`; a sink is reset to the project
      length. */
  lemma PullStart(g: Graph, d: seq<int>, L: int, es: seq<int>, order: seq<nat>, j: nat, ls: seq<Time>)
    requires Valid(g) && |d| == g.Size() && |es| == g.Size() && 1 <= j
    requires BackState(g, d, L, es, order, j, ls)
    ensures order[j - 1] < g.Size()
    ensures var u := order[j - 1];
            PullState(g, d, L, es, order, j, 0, if g.next[u] == [] then ls[u := Finite(L)] else ls)
  {
    var u := order[j - 1];
    var ls' := if g.next[u] == [] then ls[u := Finite(L)] else ls;
    assert BackAt(g, d, L, es, order, j, [], ls, u);
    assert u in order[..j] && u !in order[j..] by {
      assert order[..j][j - 1] == u;
      DistinctSplit(order, j, u);
    }
    assert g.next[u][..0] == [];
    assert order[j..] + [] == order[j..];
    forall w | 0 <= w < g.Size() && w != u
      ensures BackAt(g, d, L, es, order, j, [], ls', w)
    {
      assert BackAt(g, d, L, es, order, j, [], ls, w);
      FrameAt(g, d, L, es, order, j, [], ls, ls', w, u);
    }
  }

  /** Changing the latest start of a vertex `x` not yet visited leaves the bookkeeping of
      every other vertex as it was. */
  lemma FrameAt(g: Graph, d: seq<int>, L: int, es: seq<int>, order: seq<nat>, i: nat, rest: seq<nat>,
                ls: seq<Time>, ls': seq<Time>, w: nat, x: nat)
    requires Valid(g) && |d| == g.Size() && |es| == g.Size() && |ls| == g.Size() && |ls'| == g.Size()
    requires EmitOrder(g, order) && i <= |order| && w < g.Size() && w != x
    requires x in order[..i] && forall y :: 0 <= y < g.Size() && y != x ==> ls'[y] == ls[y]
    requires BackAt(g, d, L, es, order, i, rest, ls, w)
    ensures BackAt(g, d, L, es, order, i, rest, ls', w)
  {
    var j := if w in rest && i < |order| then i + 1 else i;
    var a :| 0 <= a < i && order[a] == x;
    assert x !in order[j..] by {
      DistinctSplit(order, i, x);
      if j == i + 1 {
        assert forall y :: y in order[j..] ==> y in order[i..] by {
          assert order[i..] == [order[i]] + order[j..];
        }
      }
    }
    if w in order {
      if w in order[j..] {
        forall v | v in g.next[w]
          ensures ls[v] == ls'[v]
        {
          SuccAfter(g, order, j, w, v);
          assert order[..j + 1][a] == x;
          assert v < g.Size() by {
            assert Below(g.next[w], g.Size());
          }
        }
        MinNextFrame(g.next[w], ls, ls', d[w]);
      } else {
        RunningMinFrame(ls[w], Seeded(g, es, w), g.next[w], order[j..], ls, ls', d[w]);
      }
    }
  }

  /** Line 103 for the successor at position `k` of the visited vertex's list. */
  lemma PullStep(g: Graph, d: seq<int>, L: int, es: seq<int>, order: seq<nat>, j: nat, k: nat, ls: seq<Time>)
    requires Valid(g) && |d| == g.Size() && |es| == g.Size()
    requires PullState(g, d, L, es, order, j, k, ls) && k < |g.next[order[j - 1]]|
    ensures g.next[order[j - 1]][k] < g.Size()
    ensures var u := order[j - 1];
            var v := g.next[u][k];
            PullState(g, d, L, es, order, j, k + 1, ls[u := Min(ls[u], Minus(ls[v], d[u]))])
  {
    var u := order[j - 1];
    var v := g.next[u][k];
    assert Below(g.next[u], g.Size());
    var ls' := ls[u := Min(ls[u], Minus(ls[v], d[u]))];
    assert u in order[..j] && u in order[j - 1..] by {
      assert order[..j][j - 1] == u;
      assert order[j - 1..][0] == u;
    }
    SuccAfter(g, order, j - 1, u, v);
    assert u !in g.next[u] by {
      if u in g.next[u] {
        SuccAfter(g, order, j - 1, u, u);
      }
    }
    forall w | 0 <= w < g.Size() && w != u
      ensures BackAt(g, d, L, es, order, j, [], ls', w)
    {
      FrameAt(g, d, L, es, order, j, [], ls, ls', w, u);
    }
    var done := order[j..] + g.next[u][..k];
    RunningMinStep(ls[u], Infinity, g.next[u], done, ls, d[u], v);
    assert done + [v] == order[j..] + g.next[u][..k + 1];
    RunningMinFrame(ls'[u], Infinity, g.next[u], done + [v], ls, ls', d[u]);
  }

  /** Once the visited vertex has pulled from all its successors, it is settled, and the
      vertices that are not its predecessors count it as visited. */
  lemma PullDone(g: Graph, d: seq<int>, L: int, es: seq<int>, order: seq<nat>, j: nat, ls: seq<Time>)
    requires Valid(g) && |d| == g.Size() && |es| == g.Size()
    requires EmitOrder(g, order) && 1 <= j <= |order|
    requires PullState(g, d, L, es, order, j, |g.next[order[j - 1]]|, ls)
    ensures PushState(g, d, L, es, order, j - 1, 0, ls)
  {
    var i, u := j - 1, order[j - 1];
    assert order[j - 1..] == [u] + order[j..];
    assert u !in order[j..] by {
      assert order[..j][j - 1] == u;
      DistinctSplit(order, j, u);
    }
    assert u !in order[..i] by {
      forall a | 0 <= a < i
        ensures order[..i][a] != u
      {
      }
    }
    assert u !in g.prev[u];
    assert g.prev[u][0..] == g.prev[u];
    assert g.next[u][..|g.next[u]|] == g.next[u];
    forall w | 0 <= w < g.Size()
      ensures BackAt(g, d, L, es, order, i, g.prev[u], ls, w)
    {
      if w == u {
        if g.next[u] != [] {
          RunningMinComplete(ls[u], g.next[u], order[j..] + g.next[u], ls, d[u]);
        }
      } else {
        assert BackAt(g, d, L, es, order, j, [], ls, w);
      }
      if w != u && w !in g.prev[u] && w in order && w !in order[j - 1..] {
        assert w !in order[j..];
        assert u !in g.next[w];
        forall v | v in g.next[w]
          ensures v in order[j..] <==> v in order[j - 1..]
        {
        }
        RunningMinSame(ls[w], Seeded(g, es, w), g.next[w], order[j..], order[j - 1..], ls, d[w]);
      }
    }
  }

  /** Line 106 for the predecessor at position `k` of the visited vertex's list. */
  lemma PushStep(g: Graph, d: seq<int>, L: int, es: seq<int>, order: seq<nat>, i: nat, k: nat, ls: seq<Time>)
    requires Valid(g) && |d| == g.Size() && |es| == g.Size()
    requires PushState(g, d, L, es, order, i, k, ls) && k < |g.prev[order[i]]|
    ensures order[i] < g.Size() && g.prev[order[i]][k] < g.Size()
    ensures var u := order[i];
            var p := g.prev[u][k];
            PushState(g, d, L, es, order, i, k + 1, ls[p := Min(ls[p], Minus(ls[u], d[p]))])
  {
    var u := order[i];
    var p := g.prev[u][k];
    assert Below(g.prev[u], g.Size());
    var ls' := ls[p := Min(ls[p], Minus(ls[u], d[p]))];
    var rest' := g.prev[u][k + 1..];
    PushOthers(g, d, L, es, order, i, k, ls, ls', rest');
    PushSelf(g, d, L, es, order, i, k, ls, ls');
    assert forall w :: 0 <= w < g.Size() ==> BackAt(g, d, L, es, order, i, rest', ls', w);
  }

  /** The push onto predecessor `p` leaves every other vertex's state as it was. */
  lemma PushOthers(g: Graph, d: seq<int>, L: int, es: seq<int>, order: seq<nat>, i: nat, k: nat,
                   ls: seq<Time>, ls': seq<Time>, rest': seq<nat>)
    requires Valid(g) && |d| == g.Size() && |es| == g.Size()
    requires PushState(g, d, L, es, order, i, k, ls) && k < |g.prev[order[i]]|
    requires var u := order[i];
             var p := g.prev[u][k];
             p < g.Size() && ls' == ls[p := Min(ls[p], Minus(ls[u], d[p]))] && rest' == g.prev[u][k + 1..]
    ensures forall w :: 0 <= w < g.Size() && w != g.prev[order[i]][k] ==>
              BackAt(g, d, L, es, order, i, rest', ls', w)
  {
    var u := order[i];
    var p := g.prev[u][k];
    assert p in g.prev[u];
    assert p in order[..i];
    assert forall w :: w in g.prev[u][k..] <==> w == p || w in g.prev[u][k + 1..] by {
      assert g.prev[u][k..] == [p] + g.prev[u][k + 1..];
    }
    var rest := g.prev[u][k..];
    forall w | 0 <= w < g.Size() && w != p
      ensures BackAt(g, d, L, es, order, i, rest', ls', w)
    {
      assert BackAt(g, d, L, es, order, i, rest, ls, w);
      assert BackAt(g, d, L, es, order, i, rest', ls, w);
      FrameAt(g, d, L, es, order, i, rest', ls, ls', w, p);
    }
  }

  /** The push onto predecessor `p` adds the visited vertex to the successors p has
      taken into account. */
  lemma PushSelf(g: Graph, d: seq<int>, L: int, es: seq<int>, order: seq<nat>, i: nat, k: nat,
                 ls: seq<Time>, ls': seq<Time>)
    requires Valid(g) && |d| == g.Size() && |es| == g.Size()
    requires PushState(g, d, L, es, order, i, k, ls) && k < |g.prev[order[i]]|
    requires var u := order[i];
             var p := g.prev[u][k];
             p < g.Size() && ls' == ls[p := Min(ls[p], Minus(ls[u], d[p]))]
    ensures BackAt(g, d, L, es, order, i, g.prev[order[i]][k + 1..], ls', g.prev[order[i]][k])
  {
    var u := order[i];
    var p := g.prev[u][k];
    assert p in g.prev[u];
    assert p in order[..i];
    assert p !in g.prev[u][k + 1..] by {
      forall a | k + 1 <= a < |g.prev[u]|
        ensures g.prev[u][a] != p
      {
      }
    }
    assert BackAt(g, d, L, es, order, i, g.prev[u][k..], ls, p);
    assert order[i..] == [u] + order[i + 1..];
    DistinctSplit(order, i, p);
    assert u in g.next[p];
    RunningMinStep(ls[p], Seeded(g, es, p), g.next[p], order[i + 1..], ls, d[p], u);
    RunningMinSame(ls'[p], Seeded(g, es, p), g.next[p], order[i + 1..] + [u], order[i..], ls, d[p]);
    RunningMinFrame(ls'[p], Seeded(g, es, p), g.next[p], order[i..], ls, ls', d[p]);
  }

  /** After the last push the vertex at position `i` counts as visited for every vertex. */
  lemma PushDone(g: Graph, d: seq<int>, L: int, es: seq<int>, order: seq<nat>, i: nat, ls: seq<Time>)
    requires Valid(g) && |d| == g.Size() && |es| == g.Size()
    requires EmitOrder(g, order) && i < |order|
    requires PushState(g, d, L, es, order, i, |g.prev[order[i]]|, ls)
    ensures BackState(g, d, L, es, order, i, ls)
  {
    assert g.prev[order[i]][|g.prev[order[i]]|..] == [];
  }

  /** When the whole order has been visited in reverse. */
  lemma BackEnd(g: Graph, d: seq<int>, L: int, es: seq<int>, order: seq<nat>, ls: seq<Time>)
    requires Valid(g) && |d| == g.Size() && |es| == g.Size()
    requires BackState(g, d, L, es, order, 0, ls)
    ensures forall w :: 0 <= w < g.Size() && w !in order ==> ls[w] == Seeded(g, es, w)
    ensures forall u :: 0 <= u < g.Size() && u in order ==> LatestOk(g, d, L, ls, u)
  {
    assert order[0..] == order;
    forall w | 0 <= w < g.Size()
      ensures w !in order ==> ls[w] == Seeded(g, es, w)
      ensures w in order ==> LatestOk(g, d, L, ls, w)
    {
      assert BackAt(g, d, L, es, order, 0, [], ls, w);
    }
  }

  /** `std::min` into one cell of the latest-start array (lines 103 and 106). */
  method Lower(latest: array<Time>, x: nat, t: Time)
    requires x < latest.Length
    modifies latest
    ensures var ls := old(latest[..]); latest[..] == ls[x := Min(ls[x], t)]
  {
    latest[x] := Min(latest[x], t);
  }

  /** Lines 98-104 for the vertex at position `j - 1`: a sink takes the project length,
      then the vertex pulls from every successor. */
  method Pull(g: Graph, d: seq<int>, L: int, ghost es: seq<int>, order: seq<nat>, j: nat, latest: array<Time>)
    requires Valid(g) && |d| == g.Size() && |es| == g.Size() && latest.Length == g.Size() && 1 <= j
    requires BackState(g, d, L, es, order, j, latest[..])
    modifies latest
    ensures PushState(g, d, L, es, order, j - 1, 0, latest[..])
  {
    PullStart(g, d, L, es, order, j, latest[..]);
    var u := order[j - 1];
    ghost var ls := latest[..];
    if g.next[u] == [] {
      latest[u] := Finite(L);
      ls := ls[u := Finite(L)];
    }
    for k := 0 to |g.next[u]|
      invariant latest[..] == ls
      invariant PullState(g, d, L, es, order, j, k, ls)
    {
      var v := g.next[u][k];
      PullStep(g, d, L, es, order, j, k, ls);
      assert latest[v] == ls[v];
      Lower(latest, u, Minus(latest[v], d[u]));
      ls := ls[u := Min(ls[u], Minus(ls[v], d[u]))];
    }
    PullDone(g, d, L, es, order, j, ls);
  }

  /** Lines 105-107 for the vertex at position `i`: every predecessor's latest start is
      lowered to this vertex's latest start less the predecessor's duration. */
  method Push(g: Graph, d: seq<int>, L: int, ghost es: seq<int>, order: seq<nat>, i: nat, latest: array<Time>)
    requires Valid(g) && |d| == g.Size() && |es| == g.Size() && latest.Length == g.Size()
    requires PushState(g, d, L, es, order, i, 0, latest[..])
    modifies latest
    ensures BackState(g, d, L, es, order, i, latest[..])
  {
    var u := order[i];
    ghost var ls := latest[..];
    for k := 0 to |g.prev[u]|
      invariant latest[..] == ls
      invariant PushState(g, d, L, es, order, i, k, ls)
    {
      var p := g.prev[u][k];
      PushStep(g, d, L, es, order, i, k, ls);
      assert latest[u] == ls[u];
      Lower(latest, p, Minus(latest[u], d[p]));
      ls := ls[p := Min(ls[p], Minus(ls[u], d[p]))];
    }
    PushDone(g, d, L, es, order, i, ls);
  }

  /** Lines 88-94: the running maximum of the sinks' earliest starts, which ends as the
      project length, while each sink takes the maximum so far as its latest start. */
  method SeedSinks(g: Graph, es: seq<int>) returns (L: int, latest: array<Time>)
    requires |es| == g.Size()
    ensures fresh(latest) && latest.Length == g.Size()
    ensures L == SinkMax(g, es, g.Size())
    ensures forall w :: 0 <= w < g.Size() ==> latest[w] == Seeded(g, es, w)
  {
    var n := g.Size();
    latest := new Time[n](_ => Infinity);
    L := 0;
    for i := 0 to n
      invariant L == SinkMax(g, es, i)
      invariant forall w :: 0 <= w < n ==> latest[w] == if w < i then Seeded(g, es, w) else Infinity
    {
      if g.next[i] == [] {
        L := Max(L, es[i]);
        latest[i] := Finite(L);
      }
    }
  }

  /** Lines 97-107 for the vertex at position `j - 1`: it settles its own latest start,
      then passes it on to its predecessors. */
  method Visit(g: Graph, d: seq<int>, L: int, ghost es: seq<int>, order: seq<nat>, j: nat, latest: array<Time>)
    requires Valid(g) && |d| == g.Size() && |es| == g.Size() && latest.Length == g.Size() && 1 <= j
    requires BackState(g, d, L, es, order, j, latest[..])
    modifies latest
    ensures BackState(g, d, L, es, order, j - 1, latest[..])
  {
    Pull(g, d, L, es, order, j, latest);
    Push(g, d, L, es, order, j - 1, latest);
  }

  /** Lines 88-108. The project length is the running maximum of the sinks' earliest
      starts, each sink holding the maximum reached at it; then, over the order in
      reverse, each vertex is settled and pushes to its predecessors. A vertex never
      emitted keeps the value from the sink loop; an emitted one ends with its settled
      latest start. */
  method BackwardPass(g: Graph, d: seq<int>, order: seq<nat>, es: seq<int>) returns (L: int, ls: seq<Time>)
    requires Valid(g) && |d| == g.Size() && |es| == g.Size() && EmitOrder(g, order)
    ensures L == SinkMax(g, es, g.Size()) && |ls| == g.Size()
    ensures forall w :: 0 <= w < g.Size() && w !in order ==> ls[w] == Seeded(g, es, w)
    ensures forall u :: 0 <= u < g.Size() && u in order ==> LatestOk(g, d, L, ls, u)
  {
    var latest;
    L, latest := SeedSinks(g, es);
    BackStart(g, d, L, es, order, latest[..]);
    var j: nat := |order|;
    while j > 0
      invariant BackState(g, d, L, es, order, j, latest[..])
    {
      Visit(g, d, L, es, order, j, latest);
      j := j - 1;
    }
    ls := latest[..];
    BackEnd(g, d, L, es, order, ls);
  }
}
