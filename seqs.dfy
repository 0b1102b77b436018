/** Facts about sequences of node ids used by every phase of the schedule. */
module Seqs {

  /** Strictly increasing: sorted and free of duplicates. */
  ghost predicate Ascending(s: seq<nat>)
  {
    forall a, b :: 0 <= a < b < |s| ==> s[a] < s[b]
  }

  /** No id occurs twice. */
  ghost predicate Distinct(s: seq<nat>)
  {
    forall a, b :: 0 <= a < b < |s| ==> s[a] != s[b]
  }

  /** Every entry is a valid node id of a graph with `n` nodes. */
  ghost predicate Below(s: seq<nat>, n: nat)
  {
    forall k :: 0 <= k < |s| ==> s[k] < n
  }

  /** Position of the first occurrence of `x` in `s`. */
  ghost function IndexOf(s: seq<nat>, x: nat): (k: nat)
    requires x in s
    ensures k < |s| && s[k] == x
    ensures forall j :: 0 <= j < k ==> s[j] != x
  {
    if s[0] == x then 0 else 1 + IndexOf(s[1..], x)
  }

  lemma AscendingIsDistinct(s: seq<nat>)
    requires Ascending(s)
    ensures Distinct(s)
  {
  }

  /** The first entry of an ascending list is its least element. */
  lemma AscendingHead(s: seq<nat>, x: nat)
    requires Ascending(s) && x in s
    ensures s[0] <= x
    ensures x != s[0] ==> x in s[1..]
  {
    var k :| 0 <= k < |s| && s[k] == x;
    if k > 0 {
      assert s[1..][k - 1] == x;
    }
  }

  /** Appending the next id, or nothing, to an ascending list of ids below it keeps it
      ascending and adds exactly that id. */
  lemma AscendingExtend(s: seq<nat>, k: nat, add: bool)
    requires Ascending(s) && Below(s, k)
    ensures var t := s + (if add then [k] else []);
      Ascending(t) && Below(t, k + 1) && forall x :: x in t <==> x in s || (add && x == k)
  {
    assert forall a :: 0 <= a < |s| ==> s[a] in s;
  }

  /** An ascending list is determined by the ids it contains. */
  lemma {:induction false} AscendingUnique(a: seq<nat>, b: seq<nat>)
    requires Ascending(a) && Ascending(b)
    requires forall x :: x in a <==> x in b
    ensures a == b
  {
    if a != [] {
      assert a[0] in a;
    }
    if b != [] {
      assert b[0] in b;
    }
    if a != [] && b != [] {
      AscendingHead(a, b[0]);
      AscendingHead(b, a[0]);
      assert a[0] == b[0];
      forall x
        ensures x in a[1..] <==> x in b[1..]
      {
        if x in a[1..] {
          var k :| 0 <= k < |a[1..]| && a[1..][k] == x;
          assert a[0] < x;
          AscendingHead(b, x);
        }
        if x in b[1..] {
          var k :| 0 <= k < |b[1..]| && b[1..][k] == x;
          assert b[0] < x;
          AscendingHead(a, x);
        }
      }
      AscendingUnique(a[1..], b[1..]);
      assert a == [a[0]] + a[1..];
      assert b == [b[0]] + b[1..];
    }
  }

  /** `r` with every occurrence of `x` dropped. */
  ghost function Without(r: seq<nat>, x: nat): (t: seq<nat>)
    ensures forall y :: y in t <==> y in r && y != x
  {
    if r == [] then [] else (if r[0] == x then [] else [r[0]]) + Without(r[1..], x)
  }

  lemma {:induction false} WithoutDistinct(r: seq<nat>, x: nat)
    requires Distinct(r)
    ensures Distinct(Without(r, x))
    ensures |Without(r, x)| == if x in r then |r| - 1 else |r|
  {
    if r != [] {
      assert Distinct(r[1..]);
      WithoutDistinct(r[1..], x);
      assert r[0] !in r[1..];
      if r[0] == x {
        assert x !in r[1..];
      }
    }
  }

  /** A duplicate-free list drawn from a duplicate-free list `r` is no longer than `r`,
      and when it is as long it holds every entry of `r`. */
  lemma {:induction false} Inclusion(s: seq<nat>, r: seq<nat>)
    requires Distinct(s) && Distinct(r)
    requires forall x :: x in s ==> x in r
    ensures |s| <= |r|
    ensures |s| == |r| ==> forall y :: y in r ==> y in s
  {
    if s != [] {
      var r' := Without(r, s[0]);
      WithoutDistinct(r, s[0]);
      assert Distinct(s[1..]);
      forall x | x in s[1..]
        ensures x in r'
      {
        assert s[0] !in s[1..];
      }
      Inclusion(s[1..], r');
      assert s == [s[0]] + s[1..];
    }
  }

  /** The ids 0, 1, ..., n - 1 in order. */
  ghost function Range(n: nat): (r: seq<nat>)
    ensures |r| == n
    ensures forall k :: 0 <= k < n ==> r[k] == k
  {
    seq(n, k requires 0 <= k => k)
  }

  /** A duplicate-free list of ids below `n` has at most `n` entries; with exactly `n`
      it holds every id, and with fewer it misses one. */
  lemma Pigeonhole(s: seq<nat>, n: nat)
    requires Distinct(s) && Below(s, n)
    ensures |s| <= n
    ensures |s| == n ==> forall v :: 0 <= v < n ==> v in s
    ensures |s| < n ==> exists v :: 0 <= v < n && v !in s
  {
    var r := Range(n);
    forall x | x in s
      ensures x in r
    {
      assert r[x] == x;
    }
    Inclusion(s, r);
    if |s| == n {
      forall v | 0 <= v < n
        ensures v in s
      {
        assert r[v] == v;
      }
    }
    if |s| < n {
      if forall v :: 0 <= v < n ==> v in s {
        Inclusion(r, s);
      }
    }
  }

  /** Two duplicate-free lists with no id in common concatenate to a duplicate-free list. */
  lemma DistinctConcat(a: seq<nat>, b: seq<nat>)
    requires Distinct(a) && Distinct(b)
    requires forall x :: x in b ==> x !in a
    ensures Distinct(a + b)
  {
    forall i, j | 0 <= i < j < |a + b|
      ensures (a + b)[i] != (a + b)[j]
    {
      if i < |a| && |a| <= j {
        assert (a + b)[j] == b[j - |a|] && b[j - |a|] in b;
      }
    }
  }

  /** In a duplicate-free list no id lies both before and at or after position `i`. */
  lemma DistinctSplit(s: seq<nat>, i: nat, x: nat)
    requires Distinct(s) && i <= |s|
    requires x in s[..i]
    ensures x !in s[i..]
  {
    var a :| 0 <= a < i && s[a] == x;
    forall b | 0 <= b < |s| - i
      ensures s[i..][b] != x
    {
      assert s[i..][b] == s[i + b];
    }
  }
}
