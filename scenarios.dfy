/** Small task graphs worked through the model: the results `findCriticalPath` reports
    for them follow from its contract alone. */
module Scenarios {
  import opened Seqs
  import opened Times
  import opened Graphs
  import opened Forward
  import opened Backward
  import opened Classification
  import opened CriticalPath

  /** A lone task of duration 5 and no edges. */
  const LoneMatrix: seq<seq<int>> := [[0]]
  const LoneDurations: seq<int> := [5]
  const LoneTasks: Graph := Graph([[]], [[]], [0])

  lemma LoneGraph()
    ensures IsSquare(LoneMatrix) && GraphOf(LoneMatrix) == LoneTasks
  {
    assert SuccUpTo(LoneMatrix, 0, 1) == [] && PredUpTo(LoneMatrix, 0, 1) == [];
  }

  /** The lone task is emitted, starts at 0 and is the only sink, so the length is 0. */
  lemma LoneTimes(g: Graph, order: seq<nat>, es: seq<int>, ls: seq<Time>, L: int)
    requires g == LoneTasks && Valid(g) && EmitOrder(g, order) && |es| == 1 && |ls| == 1
    requires |order| == 1 <==> Acyclic(g)
    requires g.inDegree[0] == 0 ==> es[0] == 0
    requires L == SinkMax(g, es, 1)
    requires 0 in order ==> LatestOk(g, LoneDurations, L, ls, 0)
    ensures order == [0] && es == [0] && L == 0 && ls == [Finite(0)]
  {
    assert IsTopoNumbering(g, [0]);
    assert order[0] < 1;
  }

  /** The classification of the lone task: critical, no slack. */
  lemma LoneCritical(critical: seq<nat>, slack: seq<Time>)
    requires Ascending(critical) && Below(critical, 1) && |slack| == 1
    requires 0 in critical <==> IsCritical([0], [Finite(0)], 0)
    requires slack[0] == Minus(Finite(0), 0)
    ensures critical == [0] && slack == [Finite(0)]
  {
    AscendingUnique(critical, [0]);
  }

  /** The project length is the largest earliest start over the sinks, so it is 0 for a
      lone task, not its duration of 5; that one task is critical. */
  method LoneTask() returns (s: Schedule)
    ensures s.order == [0] && s.earliest == [0] && s.latest == [Finite(0)]
    ensures s.length == 0 && s.critical == [0] && s.slack == [Finite(0)]
  {
    LoneGraph();
    s := FindCriticalPath(LoneMatrix, LoneDurations);
    LoneTimes(s.graph, s.order, s.earliest, s.latest, s.length);
    LoneCritical(s.critical, s.slack);
  }

  /** The chain: task 0 (duration 3) before task 1 (duration 4). */
  const ChainMatrix: seq<seq<int>> := [[0, 1], [0, 0]]
  const ChainDurations: seq<int> := [3, 4]
  const ChainTasks: Graph := Graph([[1], []], [[], [0]], [0, 1])

  lemma ChainGraph()
    ensures IsSquare(ChainMatrix) && GraphOf(ChainMatrix) == ChainTasks
  {
    var m := ChainMatrix;
    assert SuccUpTo(m, 0, 2) == [1] && SuccUpTo(m, 1, 2) == [];
    assert PredUpTo(m, 0, 2) == [] && PredUpTo(m, 1, 2) == [0];
  }

  /** The chain has no cycle, so the forward pass emits both tasks. */
  lemma ChainComplete(g: Graph, order: seq<nat>)
    requires g == ChainTasks && Valid(g)
    requires |order| == 2 <==> Acyclic(g)
    ensures |order| == 2
  {
    assert IsTopoNumbering(g, [0, 1]);
  }

  /** The only order the forward pass can emit for the chain. */
  lemma ChainOrder(g: Graph, order: seq<nat>)
    requires g == ChainTasks && Valid(g) && EmitOrder(g, order) && |order| == 2
    requires |Sources(g)| <= |order| && order[..|Sources(g)|] == Sources(g)
    ensures order == [0, 1]
  {
    assert Sources(g) == SourcesUpTo([0, 1], 2) == [0];
    assert order[0] == 0;
  }

  /** The earliest starts and the length of the chain follow from the forward recurrence. */
  lemma ChainEarliest(g: Graph, es: seq<int>)
    requires g == ChainTasks && Valid(g) && |es| == 2
    requires EarliestOk(g, ChainDurations, es, 0) && EarliestOk(g, ChainDurations, es, 1)
    ensures es == [0, 3] && SinkMax(g, es, 2) == 3
  {
    assert MaxFinish([0], es, ChainDurations) == Max(MaxFinish([], es, ChainDurations), es[0] + 3);
    assert SinkMax(g, es, 1) == 0;
  }

  /** The latest starts of the chain follow from the backward recurrence, given the
      length 3. */
  lemma ChainLatest(g: Graph, ls: seq<Time>)
    requires g == ChainTasks && Valid(g) && |ls| == 2
    requires LatestOk(g, ChainDurations, 3, ls, 0) && LatestOk(g, ChainDurations, 3, ls, 1)
    ensures ls == [Finite(0), Finite(3)]
  {
    assert ls[1] == Finite(3);
    assert MinNext([1], ls, 3) == Min(Finite(0), MinNext([], ls, 3));
  }

  /** The classification of the chain: both tasks critical, no slack. */
  lemma ChainCritical(critical: seq<nat>, slack: seq<Time>)
    requires Ascending(critical) && Below(critical, 2) && |slack| == 2
    requires forall i :: 0 <= i < 2 ==> (i in critical <==> IsCritical([0, 3], [Finite(0), Finite(3)], i))
    requires forall i :: 0 <= i < 2 ==> slack[i] == Minus([Finite(0), Finite(3)][i], [0, 3][i])
    ensures critical == [0, 1] && slack == [Finite(0), Finite(0)]
  {
    assert IsCritical([0, 3], [Finite(0), Finite(3)], 0) && IsCritical([0, 3], [Finite(0), Finite(3)], 1);
    AscendingUnique(critical, [0, 1]);
  }

  /** The length of the chain is the earliest start of its only sink, 3, not the 7 it
      takes to finish both tasks; both tasks are critical with no slack. */
  method Chain() returns (s: Schedule)
    ensures s.order == [0, 1] && s.earliest == [0, 3] && s.latest == [Finite(0), Finite(3)]
    ensures s.length == 3 && s.critical == [0, 1] && s.slack == [Finite(0), Finite(0)]
  {
    ChainGraph();
    s := FindCriticalPath(ChainMatrix, ChainDurations);
    ChainComplete(s.graph, s.order);
    ChainOrder(s.graph, s.order);
    assert 0 in s.order && 1 in s.order;
    ChainEarliest(s.graph, s.earliest);
    ChainLatest(s.graph, s.latest);
    ChainCritical(s.critical, s.slack);
  }

  /** The chain's edge 0 -> 1 again, now with a negative duration for task 0, which the
      program accepts. */
  const LeadDurations: seq<int> := [-5, 0]

  /** With durations -5 and 0 both tasks start at 0 and the length is 0, but task 0 may
      start as late as 5, so it is not critical: every critical chain then starts at
      task 1, which has a predecessor. */
  lemma NegativeLead(g: Graph, es: seq<int>, ls: seq<Time>)
    requires g == ChainTasks && Valid(g) && |es| == 2 && |ls| == 2
    requires EarliestOk(g, LeadDurations, es, 0) && EarliestOk(g, LeadDurations, es, 1)
    requires LatestOk(g, LeadDurations, SinkMax(g, es, 2), ls, 0)
    requires LatestOk(g, LeadDurations, SinkMax(g, es, 2), ls, 1)
    ensures es == [0, 0] && SinkMax(g, es, 2) == 0 && ls == [Finite(5), Finite(0)]
    ensures forall path :: CriticalChain(g, LeadDurations, es, ls, path) ==> g.prev[path[0]] != []
  {
    assert MaxFinish([0], es, LeadDurations) == Max(MaxFinish([], es, LeadDurations), es[0] - 5);
    assert SinkMax(g, es, 1) == 0;
    assert ls[1] == Finite(0);
    assert MinNext([1], ls, -5) == Min(Finite(5), MinNext([], ls, -5));
    forall path | CriticalChain(g, LeadDurations, es, ls, path)
      ensures g.prev[path[0]] != []
    {
      assert IsCritical(es, ls, path[0]);
    }
  }

  /** The diamond: 0 -> 1, 0 -> 2, 1 -> 3, 2 -> 3, with durations 2, 5, 1, 3. */
  const DiamondMatrix: seq<seq<int>> := [[0, 1, 1, 0], [0, 0, 0, 1], [0, 0, 0, 1], [0, 0, 0, 0]]
  const DiamondDurations: seq<int> := [2, 5, 1, 3]
  const DiamondTasks: Graph := Graph([[1, 2], [3], [3], []], [[], [0], [0], [1, 2]], [0, 1, 1, 2])

  lemma DiamondNext()
    ensures IsSquare(DiamondMatrix) && GraphOf(DiamondMatrix).next == DiamondTasks.next
  {
    var s := GraphOf(DiamondMatrix).next;
    forall i | 0 <= i < 4
      ensures s[i] == DiamondTasks.next[i]
    {
      DiamondRow(i);
    }
  }

  /** Row `i` of the diamond's matrix lists the successors of `i`. */
  lemma DiamondRow(i: nat)
    requires i < 4
    ensures IsSquare(DiamondMatrix) && SuccUpTo(DiamondMatrix, i, 4) == DiamondTasks.next[i]
  {
    var m := DiamondMatrix;
    if i == 0 {
      assert SuccUpTo(m, 0, 4) == [1, 2];
    } else if i == 1 {
      assert SuccUpTo(m, 1, 4) == [3];
    } else if i == 2 {
      assert SuccUpTo(m, 2, 4) == [3];
    } else {
      assert SuccUpTo(m, 3, 4) == [];
    }
  }

  lemma DiamondPrev()
    ensures IsSquare(DiamondMatrix) && GraphOf(DiamondMatrix).prev == DiamondTasks.prev
  {
    var p := GraphOf(DiamondMatrix).prev;
    forall j | 0 <= j < 4
      ensures p[j] == DiamondTasks.prev[j]
    {
      DiamondColumn(j);
    }
  }

  /** Column `j` of the diamond's matrix lists the predecessors of `j`. */
  lemma DiamondColumn(j: nat)
    requires j < 4
    ensures IsSquare(DiamondMatrix) && PredUpTo(DiamondMatrix, j, 4) == DiamondTasks.prev[j]
  {
    var m := DiamondMatrix;
    if j == 0 {
      assert PredUpTo(m, 0, 4) == [];
    } else if j == 1 {
      assert PredUpTo(m, 1, 4) == [0];
    } else if j == 2 {
      assert PredUpTo(m, 2, 4) == [0];
    } else {
      assert PredUpTo(m, 3, 4) == [1, 2];
    }
  }

  lemma DiamondGraph()
    ensures IsSquare(DiamondMatrix) && GraphOf(DiamondMatrix) == DiamondTasks
  {
    DiamondNext();
    DiamondPrev();
    var g := GraphOf(DiamondMatrix);
    assert forall j :: 0 <= j < 4 ==> g.inDegree[j] == |g.prev[j]|;
    assert g.inDegree == [0, 1, 1, 2];
  }

  /** Taking the source 0 of the diamond first: relaxing its successors queues 1 and then
      2, leaves task 3 one predecessor short, and raises tasks 1 and 2 to 0's finish time. */
  lemma DiamondFirstRelax(queue: seq<nat>, inDeg: seq<int>, es: seq<int>)
    requires queue == [] + Readied(DiamondTasks.next[0], DiamondTasks.inDegree)
    requires inDeg == Decremented(DiamondTasks.inDegree, DiamondTasks.next[0])
    requires es == RaisedTo([0, 0, 0, 0], DiamondTasks.next[0], 0, DiamondDurations[0])
    ensures queue == [1, 2] && inDeg == [0, 0, 0, 2] && es == [0, 2, 2, 0]
  {
  }

  /** The diamond has no cycle, so the forward pass emits all four tasks. */
  lemma DiamondComplete(g: Graph, order: seq<nat>)
    requires g == DiamondTasks && Valid(g) && EmitOrder(g, order)
    requires |order| == 4 <==> Acyclic(g)
    ensures |order| == 4 && forall v :: 0 <= v < 4 ==> v in order
  {
    assert IsTopoNumbering(g, [0, 1, 1, 2]);
    Pigeonhole(order, 4);
  }

  /** What the forward pass must emit first and last for the diamond; 1 and 2 may come in
      either order as far as the contract goes. */
  lemma DiamondOrder(g: Graph, order: seq<nat>)
    requires g == DiamondTasks && Valid(g) && EmitOrder(g, order)
    requires |Sources(g)| <= |order| && order[..|Sources(g)|] == Sources(g)
    requires |order| == 4 && forall v :: 0 <= v < 4 ==> v in order
    ensures order[0] == 0 && order[3] == 3
  {
    assert Sources(g) == SourcesUpTo([0, 1, 1, 2], 4) == [0];
    assert order[0] == 0;
    assert 3 in order;
    var k :| 0 <= k < 4 && order[k] == 3;
    assert 1 in order[..k] && 2 in order[..k];
  }

  /** The earliest starts and the length of the diamond follow from the forward
      recurrence. */
  lemma DiamondEarliest(g: Graph, es: seq<int>)
    requires g == DiamondTasks && Valid(g) && |es| == 4
    requires forall v :: 0 <= v < 4 ==> EarliestOk(g, DiamondDurations, es, v)
    ensures es == [0, 2, 2, 7] && SinkMax(g, es, 4) == 7
  {
    var d := DiamondDurations;
    assert EarliestOk(g, d, es, 0) && EarliestOk(g, d, es, 1);
    assert EarliestOk(g, d, es, 2) && EarliestOk(g, d, es, 3);
    assert es[0] == 0;
    assert MaxFinish([0], es, d) == Max(MaxFinish([], es, d), es[0] + 2);
    assert es[1] == 2 && es[2] == 2;
    assert [1, 2][1..] == [2];
    assert MaxFinish([2], es, d) == Max(MaxFinish([], es, d), es[2] + 1);
    assert MaxFinish([1, 2], es, d) == Max(MaxFinish([2], es, d), es[1] + 5);
    assert SinkMax(g, es, 1) == 0;
    assert SinkMax(g, es, 3) == 0;
  }

  /** The latest starts of the diamond follow from the backward recurrence, given the
      length 7. */
  lemma DiamondLatest(g: Graph, ls: seq<Time>)
    requires g == DiamondTasks && Valid(g) && |ls| == 4
    requires forall u :: 0 <= u < 4 ==> LatestOk(g, DiamondDurations, 7, ls, u)
    ensures ls == [Finite(0), Finite(2), Finite(6), Finite(7)]
  {
    var d := DiamondDurations;
    assert LatestOk(g, d, 7, ls, 3) && LatestOk(g, d, 7, ls, 2);
    assert LatestOk(g, d, 7, ls, 1) && LatestOk(g, d, 7, ls, 0);
    assert ls[3] == Finite(7);
    assert MinNext([3], ls, 5) == Min(Finite(2), MinNext([], ls, 5));
    assert MinNext([3], ls, 1) == Min(Finite(6), MinNext([], ls, 1));
    assert ls[1] == Finite(2) && ls[2] == Finite(6);
    assert [1, 2][1..] == [2];
    assert MinNext([2], ls, 2) == Min(Finite(4), MinNext([], ls, 2));
    assert MinNext([1, 2], ls, 2) == Min(Finite(0), MinNext([2], ls, 2));
  }

  /** The classification of the diamond: 0, 1 and 3 critical, task 2 with a slack of 4. */
  lemma DiamondCritical(critical: seq<nat>, slack: seq<Time>)
    requires Ascending(critical) && Below(critical, 4) && |slack| == 4
    requires forall i :: 0 <= i < 4 ==>
               (i in critical <==> IsCritical([0, 2, 2, 7], [Finite(0), Finite(2), Finite(6), Finite(7)], i))
    requires forall i :: 0 <= i < 4 ==>
               slack[i] == Minus([Finite(0), Finite(2), Finite(6), Finite(7)][i], [0, 2, 2, 7][i])
    ensures critical == [0, 1, 3] && slack == [Finite(0), Finite(0), Finite(4), Finite(0)]
  {
    var es, ls := [0, 2, 2, 7], [Finite(0), Finite(2), Finite(6), Finite(7)];
    assert IsCritical(es, ls, 0) && IsCritical(es, ls, 1) && !IsCritical(es, ls, 2) && IsCritical(es, ls, 3);
    AscendingUnique(critical, [0, 1, 3]);
  }

  /** The length of the diamond is 7, the earliest start of the sink, not the 10 it takes
      to finish task 3; the path 0, 1, 3 is critical and task 2 has a slack of 4. */
  method Diamond() returns (s: Schedule)
    ensures |s.order| == 4 && s.order[0] == 0 && s.order[3] == 3
    ensures s.earliest == [0, 2, 2, 7] && s.latest == [Finite(0), Finite(2), Finite(6), Finite(7)]
    ensures s.length == 7 && s.critical == [0, 1, 3]
    ensures s.slack == [Finite(0), Finite(0), Finite(4), Finite(0)]
  {
    DiamondGraph();
    s := FindCriticalPath(DiamondMatrix, DiamondDurations);
    DiamondComplete(s.graph, s.order);
    DiamondOrder(s.graph, s.order);
    DiamondEarliest(s.graph, s.earliest);
    DiamondLatest(s.graph, s.latest);
    DiamondCritical(s.critical, s.slack);
  }
}
