/** The classification step of `findCriticalPath`: the critical path is the list of
    vertices whose earliest and latest starts agree, and every other vertex records the
    difference as its slack. */
module Classification {
  import opened Seqs
  import opened Times

  /** Vertex `i` lies on the critical path: its latest start equals its earliest start. */
  predicate IsCritical(es: seq<int>, ls: seq<Time>, i: nat)
    requires i < |es| && i < |ls|
  {
    ls[i] == Finite(es[i])
  }

  /** Lines 110-120. `slackTimes` starts as n zeros and a vertex off the critical path
      gets latest start less earliest start; a critical vertex keeps 0, which is what
      that difference is for it. */
  method Classify(es: seq<int>, ls: seq<Time>) returns (critical: seq<nat>, slack: seq<Time>)
    requires |ls| == |es|
    ensures Ascending(critical) && Below(critical, |es|)
    ensures forall i :: 0 <= i < |es| ==> (i in critical <==> IsCritical(es, ls, i))
    ensures |slack| == |es|
    ensures forall i :: 0 <= i < |es| ==> slack[i] == Minus(ls[i], es[i])
    ensures forall i :: 0 <= i < |es| ==> (slack[i] == Finite(0) <==> i in critical)
  {
    var n := |es|;
    var slackTimes := new Time[n](_ => Finite(0));
    critical := [];
    for i := 0 to n
      invariant Ascending(critical) && Below(critical, i)
      invariant forall x :: 0 <= x < i ==> (x in critical <==> IsCritical(es, ls, x))
      invariant forall x :: 0 <= x < n ==> slackTimes[x] == if x < i then Minus(ls[x], es[x]) else Finite(0)
    {
      if ls[i] == Finite(es[i]) {
        critical := critical + [i];
      } else {
        slackTimes[i] := Minus(ls[i], es[i]);
      }
    }
    slack := slackTimes[..];
  }
}
