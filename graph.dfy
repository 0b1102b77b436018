/** The precedence graph: the adjacency matrix turned into successor lists, predecessor lists
    and in-degree counts, as `readGraph` builds them. */
module Graphs {
  import opened Seqs

  /** An n×n adjacency matrix: entry m[i][j] == 1 is an edge i -> j ("task i must finish
      before task j starts"); every other value means no edge. */
  ghost predicate IsSquare(m: seq<seq<int>>)
  {
    forall i :: 0 <= i < |m| ==> |m[i]| == |m|
  }

  /** The columns j < k of row i that hold a 1, in increasing order. */
  ghost function SuccUpTo(m: seq<seq<int>>, i: nat, k: nat): seq<nat>
    requires IsSquare(m) && i < |m| && k <= |m|
  {
    if k == 0 then [] else SuccUpTo(m, i, k - 1) + (if m[i][k - 1] == 1 then [k - 1] else [])
  }

  /** The rows i < k of column j that hold a 1, in increasing order. */
  ghost function PredUpTo(m: seq<seq<int>>, j: nat, k: nat): seq<nat>
    requires IsSquare(m) && j < |m| && k <= |m|
  {
    if k == 0 then [] else PredUpTo(m, j, k - 1) + (if m[k - 1][j] == 1 then [k - 1] else [])
  }

  /** The number of 1s among the first k entries of column j. */
  ghost function ColumnOnes(m: seq<seq<int>>, j: nat, k: nat): nat
    requires IsSquare(m) && j < |m| && k <= |m|
  {
    if k == 0 then 0 else ColumnOnes(m, j, k - 1) + (if m[k - 1][j] == 1 then 1 else 0)
  }

  /** One vertex per task: `next[i]` are the vertices reachable by one edge from i
      (`nextVertices`), `prev[i]` the vertices with an edge into i (`prevVertices`), and
      `inDegree[i]` the number of those predecessors before the forward pass starts. */
  datatype Graph = Graph(next: seq<seq<nat>>, prev: seq<seq<nat>>, inDegree: seq<int>)
  {
    /** The number of vertices. */
    function Size(): nat
    {
      |next|
    }
  }

  /** The graph that the nested loops over the matrix produce. */
  ghost function GraphOf(m: seq<seq<int>>): (g: Graph)
    requires IsSquare(m)
  {
    var n := |m|;
    Graph(seq(n, i requires 0 <= i < n => SuccUpTo(m, i, n)),
          seq(n, j requires 0 <= j < n => PredUpTo(m, j, n)),
          seq(n, j requires 0 <= j < n => |PredUpTo(m, j, n)|))
  }

  /** What the rest of the schedule relies on: ids in range, ascending duplicate-free
      lists, `next` and `prev` mutually inverse, and each in-degree the length of the
      predecessor list. */
  ghost predicate Valid(g: Graph)
  {
    var n := |g.next|;
    && |g.prev| == n && |g.inDegree| == n
    && (forall i :: 0 <= i < n ==> Ascending(g.next[i]) && Below(g.next[i], n))
    && (forall i :: 0 <= i < n ==> Ascending(g.prev[i]) && Below(g.prev[i], n))
    && (forall i, j :: 0 <= i < n && 0 <= j < n ==> (j in g.next[i] <==> i in g.prev[j]))
    && (forall j :: 0 <= j < n ==> g.inDegree[j] == |g.prev[j]|)
  }

  lemma {:induction false} SuccUpToSpec(m: seq<seq<int>>, i: nat, k: nat)
    requires IsSquare(m) && i < |m| && k <= |m|
    ensures Ascending(SuccUpTo(m, i, k)) && Below(SuccUpTo(m, i, k), k)
    ensures forall x :: 0 <= x < k ==> (x in SuccUpTo(m, i, k) <==> m[i][x] == 1)
  {
    if k > 0 {
      SuccUpToSpec(m, i, k - 1);
      var s := SuccUpTo(m, i, k - 1);
      AscendingExtend(s, k - 1, m[i][k - 1] == 1);
      assert SuccUpTo(m, i, k) == s + (if m[i][k - 1] == 1 then [k - 1] else []);
      forall x | 0 <= x < k
        ensures x in SuccUpTo(m, i, k) <==> m[i][x] == 1
      {
        assert x in SuccUpTo(m, i, k) <==> x in s || (m[i][k - 1] == 1 && x == k - 1);
      }
    }
  }

  lemma {:induction false} PredUpToSpec(m: seq<seq<int>>, j: nat, k: nat)
    requires IsSquare(m) && j < |m| && k <= |m|
    ensures Ascending(PredUpTo(m, j, k)) && Below(PredUpTo(m, j, k), k)
    ensures forall x :: 0 <= x < k ==> (x in PredUpTo(m, j, k) <==> m[x][j] == 1)
    ensures |PredUpTo(m, j, k)| == ColumnOnes(m, j, k)
  {
    if k > 0 {
      PredUpToSpec(m, j, k - 1);
      var s := PredUpTo(m, j, k - 1);
      AscendingExtend(s, k - 1, m[k - 1][j] == 1);
      assert PredUpTo(m, j, k) == s + (if m[k - 1][j] == 1 then [k - 1] else []);
      forall x | 0 <= x < k
        ensures x in PredUpTo(m, j, k) <==> m[x][j] == 1
      {
        assert x in PredUpTo(m, j, k) <==> x in s || (m[k - 1][j] == 1 && x == k - 1);
      }
    }
  }

  /** The built graph is valid, has exactly the matrix's 1-entries as edges, and counts
      in each in-degree the 1s of the vertex's column. */
  lemma GraphOfSpec(m: seq<seq<int>>)
    requires IsSquare(m)
    ensures Valid(GraphOf(m)) && GraphOf(m).Size() == |m|
    ensures forall i, j :: 0 <= i < |m| && 0 <= j < |m| ==>
              (j in GraphOf(m).next[i] <==> m[i][j] == 1) && (i in GraphOf(m).prev[j] <==> m[i][j] == 1)
    ensures forall j :: 0 <= j < |m| ==> GraphOf(m).inDegree[j] == ColumnOnes(m, j, |m|)
  {
    var g, n := GraphOf(m), |m|;
    forall i | 0 <= i < n
      ensures Ascending(g.next[i]) && Below(g.next[i], n)
      ensures Ascending(g.prev[i]) && Below(g.prev[i], n)
      ensures forall x :: 0 <= x < n ==> (x in g.next[i] <==> m[i][x] == 1)
      ensures forall x :: 0 <= x < n ==> (x in g.prev[i] <==> m[x][i] == 1)
      ensures g.inDegree[i] == ColumnOnes(m, i, n)
    {
      SuccUpToSpec(m, i, n);
      PredUpToSpec(m, i, n);
    }
    assert Valid(g);
  }

  /** The adjacency built from the rows of `m` before row `i`: those rows' successor
      lists are complete, later rows have none yet, every predecessor list holds the rows
      before `i` with a 1 in its column, and each in-degree is its predecessor count. */
  ghost predicate Scanned(m: seq<seq<int>>, i: nat, next: seq<seq<nat>>, prev: seq<seq<nat>>, inDeg: seq<int>)
    requires IsSquare(m) && i <= |m|
  {
    var n := |m|;
    && |next| == n && |prev| == n && |inDeg| == n
    && (forall a :: 0 <= a < i ==> next[a] == SuccUpTo(m, a, n))
    && (forall a :: i <= a < n ==> next[a] == [])
    && (forall b :: 0 <= b < n ==> prev[b] == PredUpTo(m, b, i))
    && (forall b :: 0 <= b < n ==> inDeg[b] == |prev[b]|)
  }

  /** `readGraph` without its console reads: for every row i and column j, in that order,
      an entry equal to 1 appends j to i's successors, i to j's predecessors and counts
      one more in j's in-degree. */
  method BuildGraph(m: seq<seq<int>>) returns (g: Graph)
    requires IsSquare(m)
    ensures g == GraphOf(m)
  {
    var n := |m|;
    var next: seq<seq<nat>> := seq(n, _ => []);
    var prev: seq<seq<nat>> := seq(n, _ => []);
    var inDegree := new int[n](_ => 0);
    for i := 0 to n
      invariant Scanned(m, i, next, prev, inDegree[..])
    {
      next, prev := ScanRow(m, i, next, prev, inDegree);
    }
    g := Graph(next, prev, inDegree[..]);
    assert next == GraphOf(m).next;
    assert prev == GraphOf(m).prev;
    assert inDegree[..] == GraphOf(m).inDegree;
  }

  /** Lines 36-43 for row `i`: scanning its columns in order completes i's successor list
      and adds `i` to the predecessor list and the in-degree of each column holding a 1. */
  method ScanRow(m: seq<seq<int>>, i: nat, next: seq<seq<nat>>, prev: seq<seq<nat>>, inDegree: array<int>)
    returns (next': seq<seq<nat>>, prev': seq<seq<nat>>)
    requires IsSquare(m) && i < |m| && Scanned(m, i, next, prev, inDegree[..])
    modifies inDegree
    ensures Scanned(m, i + 1, next', prev', inDegree[..])
  {
    var n := |m|;
    next', prev' := next, prev;
    for j := 0 to n
      invariant |next'| == n && |prev'| == n && inDegree.Length == n
      invariant forall a :: 0 <= a < i ==> next'[a] == SuccUpTo(m, a, n)
      invariant next'[i] == SuccUpTo(m, i, j)
      invariant forall a :: i < a < n ==> next'[a] == []
      invariant forall b :: 0 <= b < j ==> prev'[b] == PredUpTo(m, b, i + 1)
      invariant forall b :: j <= b < n ==> prev'[b] == PredUpTo(m, b, i)
      invariant forall b :: 0 <= b < n ==> inDegree[b] == |prev'[b]|
    {
      if m[i][j] == 1 {
        next' := next'[i := next'[i] + [j]];
        inDegree[j] := inDegree[j] + 1;
        prev' := prev'[j := prev'[j] + [i]];
      }
    }
  }

  /** A vertex ranking under which every edge climbs. A graph has one exactly when it has
      no directed cycle. */
  ghost predicate IsTopoNumbering(g: Graph, rank: seq<nat>)
  {
    && |rank| == |g.next|
    && forall u, v :: 0 <= u < |g.next| && v in g.next[u] ==> v < |rank| && rank[u] < rank[v]
  }

  /** The edge relation has no directed cycle. */
  ghost predicate Acyclic(g: Graph)
  {
    exists rank :: IsTopoNumbering(g, rank)
  }

  /** A duplicate-free list of vertices in which every vertex comes after all of its
      predecessors: what the forward pass records as `topologicalOrder`. */
  ghost predicate EmitOrder(g: Graph, order: seq<nat>)
    requires Valid(g)
  {
    && Distinct(order)
    && Below(order, |g.next|)
    && forall k :: 0 <= k < |order| ==>
         order[k] < |g.next| && forall p :: p in g.prev[order[k]] ==> p in order[..k]
  }
}
