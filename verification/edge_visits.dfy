/**
 The sequence of (node, neighbour) pairs the watertightness scan visits, and
 the counting facts about it: how many visits have a given multiplicity, and
 why every such count is even when the adjacency is symmetric.
 */
module EdgeVisits {
  import opened Mesh
  import opened SurfacePart

  /** The pairs visited for local node i: the node with each of its n2n neighbours, in n2n order. */
  function Row(p: Part, i: nat): (row: seq<Edge>)
    requires Indexed(p) && i < |p.nodes|
    ensures |row| == |p.n2n[i]|
  {
    seq(|p.n2n[i]|, k requires 0 <= k < |p.n2n[i]| => Edge(p.nodes[i], p.nodes[p.n2n[i][k]]))
  }

  /** The pairs visited for local nodes 0 .. i-1. */
  function VisitsUpTo(p: Part, i: nat): seq<Edge>
    requires Indexed(p) && i <= |p.nodes|
  {
    if i == 0 then [] else VisitsUpTo(p, i - 1) + Row(p, i - 1)
  }

  /** All pairs the scan visits, in visiting order. */
  function Visits(p: Part): seq<Edge>
    requires Indexed(p)
  {
    VisitsUpTo(p, |p.nodes|)
  }

  /** Number of entries in the adjacency lists of local nodes 0 .. i-1. */
  function Degrees(p: Part, i: nat): nat
    requires Indexed(p) && i <= |p.nodes|
  {
    if i == 0 then 0 else Degrees(p, i - 1) + |p.n2n[i - 1]|
  }

  /** Number of pairs in `es` whose multiplicity is n. */
  function CountMult(g: Grid, p: Part, es: seq<Edge>, n: nat): nat
  {
    if |es| == 0 then 0
    else CountMult(g, p, es[..|es| - 1], n) + (if Mult(g, p, es[|es| - 1]) == n then 1 else 0)
  }

  /** Cell c is shared by some pair of `es` whose multiplicity is not 2. */
  ghost predicate IsBadCell(g: Grid, p: Part, es: seq<Edge>, c: nat)
  {
    exists e :: e in es && Mult(g, p, e) != 2 && c in EdgeCells(g.cells, p.cells, e)
  }

  function Sum(s: seq<nat>): nat
  {
    if |s| == 0 then 0 else s[0] + Sum(s[1..])
  }

  ghost predicate DistinctEdges(es: seq<Edge>)
  {
    forall s, t :: 0 <= s < t < |es| ==> es[s] != es[t]
  }

  // ---------------------------------------------------------------------------
  // Counting
  // ---------------------------------------------------------------------------

  /** Incrementing one bucket raises the total by one. */
  lemma {:induction false} SumIncrement(s: seq<nat>, n: nat)
    requires n < |s|
    ensures Sum(s[n := s[n] + 1]) == Sum(s) + 1
  {
    if n > 0 {
      assert s[n := s[n] + 1][1..] == s[1..][n - 1 := s[n] + 1];
      SumIncrement(s[1..], n - 1);
    } else {
      assert s[n := s[n] + 1][1..] == s[1..];
    }
  }

  /** Appending a pair adds one to the count of its own multiplicity and to no other. */
  lemma CountMultAppend(g: Grid, p: Part, es: seq<Edge>, e: Edge, n: nat)
    ensures CountMult(g, p, es + [e], n) == CountMult(g, p, es, n) + (if Mult(g, p, e) == n then 1 else 0)
  {
  }

  /** A count is positive exactly when some pair has that multiplicity. */
  lemma {:induction false} CountPositiveIff(g: Grid, p: Part, es: seq<Edge>, n: nat)
    ensures CountMult(g, p, es, n) > 0 <==> exists e :: e in es && Mult(g, p, e) == n
  {
    if |es| > 0 {
      var init := es[..|es| - 1];
      CountPositiveIff(g, p, init, n);
      assert es == init + [es[|es| - 1]];
    }
  }

  /** The buckets 0 .. 999 add up to the number of pairs when every multiplicity is below 1000. */
  lemma {:induction false} CountsSumToLength(g: Grid, p: Part, es: seq<Edge>, hist: seq<nat>)
    requires |hist| == 1000
    requires forall n :: 0 <= n < 1000 ==> hist[n] == CountMult(g, p, es, n)
    requires forall e :: e in es ==> Mult(g, p, e) < 1000
    ensures Sum(hist) == |es|
  {
    if |es| == 0 {
      ZeroSum(hist);
    } else {
      var init := es[..|es| - 1];
      var last := es[|es| - 1];
      var m := Mult(g, p, last);
      assert last in es;
      var prev := hist[m := hist[m] - 1];
      forall n | 0 <= n < 1000
        ensures prev[n] == CountMult(g, p, init, n)
      {
      }
      forall e | e in init
        ensures Mult(g, p, e) < 1000
      {
        assert e in es;
      }
      CountsSumToLength(g, p, init, prev);
      assert prev[m := prev[m] + 1] == hist;
      SumIncrement(prev, m);
    }
  }

  lemma {:induction false} ZeroSum(s: seq<nat>)
    requires forall n :: 0 <= n < |s| ==> s[n] == 0
    ensures Sum(s) == 0
  {
    if |s| > 0 {
      ZeroSum(s[1..]);
    }
  }

  /** In a duplicate-free list the count of a multiplicity is the size of the set of pairs having it. */
  lemma {:induction false} CountIsCard(g: Grid, p: Part, es: seq<Edge>, n: nat)
    requires DistinctEdges(es)
    ensures CountMult(g, p, es, n) == |set e | e in es && Mult(g, p, e) == n|
  {
    if |es| > 0 {
      var init := es[..|es| - 1];
      var last := es[|es| - 1];
      assert DistinctEdges(init) by {
        forall s, t | 0 <= s < t < |init|
          ensures init[s] != init[t]
        {
          assert init[s] == es[s] && init[t] == es[t];
        }
      }
      assert last !in init by {
        forall s | 0 <= s < |init|
          ensures init[s] != last
        {
          assert init[s] == es[s];
        }
      }
      CountIsCard(g, p, init, n);
      assert es == init + [last];
      AppendToMultSet(g, p, init, last, n);
    }
  }

  /** Appending a pair not yet listed adds it to the set of its own multiplicity and changes no other set. */
  lemma AppendToMultSet(g: Grid, p: Part, init: seq<Edge>, last: Edge, n: nat)
    requires last !in init
    ensures var before := set e | e in init && Mult(g, p, e) == n;
            var after := set e | e in init + [last] && Mult(g, p, e) == n;
            |after| == |before| + (if Mult(g, p, last) == n then 1 else 0)
  {
    var before := set e | e in init && Mult(g, p, e) == n;
    var after := set e | e in init + [last] && Mult(g, p, e) == n;
    if Mult(g, p, last) == n {
      assert after == before + {last};
    } else {
      assert after == before;
    }
  }

  // ---------------------------------------------------------------------------
  // Shape of the visit sequence
  // ---------------------------------------------------------------------------

  /** The visits of local nodes 0 .. i-1 are, in total, their adjacency lists' length. */
  lemma {:induction false} VisitsLength(p: Part, i: nat)
    requires Indexed(p) && i <= |p.nodes|
    ensures |VisitsUpTo(p, i)| == Degrees(p, i)
  {
    if i > 0 {
      VisitsLength(p, i - 1);
    }
  }

  /** Visiting more nodes only extends the sequence. */
  lemma {:induction false} VisitsPrefix(p: Part, i: nat, j: nat)
    requires Indexed(p) && i <= j <= |p.nodes|
    ensures VisitsUpTo(p, i) <= VisitsUpTo(p, j)
    decreases j - i
  {
    if i < j {
      VisitsPrefix(p, i, j - 1);
    }
  }

  /** A pair is visited exactly when it joins a node to one of its n2n neighbours. */
  lemma {:induction false} InVisitsUpTo(p: Part, i: nat, e: Edge)
    requires Indexed(p) && i <= |p.nodes|
    ensures e in VisitsUpTo(p, i) <==>
              exists l, j :: 0 <= l < i && j in p.n2n[l] && e == Edge(p.nodes[l], p.nodes[j])
  {
    if i > 0 {
      InVisitsUpTo(p, i - 1, e);
      var row := Row(p, i - 1);
      if e in row {
        var k :| 0 <= k < |row| && row[k] == e;
        assert p.n2n[i - 1][k] in p.n2n[i - 1];
      }
      if exists j :: j in p.n2n[i - 1] && e == Edge(p.nodes[i - 1], p.nodes[j]) {
        var j :| j in p.n2n[i - 1] && e == Edge(p.nodes[i - 1], p.nodes[j]);
        var k :| 0 <= k < |p.n2n[i - 1]| && p.n2n[i - 1][k] == j;
        assert row[k] == e;
      }
    }
  }

  /** With distinct nodes and duplicate-free adjacency lists no pair is visited twice. */
  lemma {:induction false} VisitsDistinct(p: Part, i: nat)
    requires Indexed(p) && i <= |p.nodes|
    requires Distinct(p.nodes)
    requires forall l :: 0 <= l < |p.n2n| ==> Distinct(p.n2n[l])
    ensures DistinctEdges(VisitsUpTo(p, i))
  {
    if i > 0 {
      VisitsDistinct(p, i - 1);
      var pre := VisitsUpTo(p, i - 1);
      var row := Row(p, i - 1);
      assert VisitsUpTo(p, i) == pre + row;
      forall s | 0 <= s < |pre|
        ensures pre[s].a != p.nodes[i - 1]
      {
        InVisitsUpTo(p, i - 1, pre[s]);
      }
      forall s, t | 0 <= s < t < |pre + row|
        ensures (pre + row)[s] != (pre + row)[t]
      {
        if t < |pre| {
        } else if s < |pre| {
          assert (pre + row)[t].a == p.nodes[i - 1];
        } else {
          assert p.n2n[i - 1][s - |pre|] != p.n2n[i - 1][t - |pre|];
        }
      }
    }
  }

  /** The scan meets every visited pair again with its ends swapped, and never as its own swap. */
  lemma VisitsSwapClosed(g: Grid, p: Part, e: Edge)
    requires Indexed(p) && InverseMaps(p) && AdjacentN2N(g, p)
    requires e in Visits(p)
    ensures Swap(e) in Visits(p) && Swap(e) != e
    ensures Mult(g, p, e) >= 1
  {
    InVisitsUpTo(p, |p.nodes|, e);
    var l, j :| 0 <= l < |p.nodes| && j in p.n2n[l] && e == Edge(p.nodes[l], p.nodes[j]);
    var jn: nat := j;
    assert jn < |p.nodes| && jn != l && l in p.n2n[jn] && EdgeCells(g.cells, p.cells, e) != {};
    assert Swap(e) == Edge(p.nodes[jn], p.nodes[l]);
    InVisitsUpTo(p, |p.nodes|, Swap(e));
  }

  /** A finite set closed under a fixed-point-free swap has an even number of elements. */
  lemma {:induction false} SwapClosedEven(s: set<Edge>)
    requires forall e :: e in s ==> Swap(e) in s && Swap(e) != e
    ensures |s| % 2 == 0
    decreases |s|
  {
    if s != {} {
      var e :| e in s;
      var rest := s - {e, Swap(e)};
      forall x | x in rest
        ensures Swap(x) in rest && Swap(x) != x
      {
        assert Swap(Swap(x)) == x;
        assert Swap(e) != x;
      }
      SwapClosedEven(rest);
      assert s == rest + {e, Swap(e)};
    }
  }

  /**
   Each undirected edge is visited once from each end, so every multiplicity
   bucket of a surface part counts an even number of visits.
   */
  lemma BucketsEven(g: Grid, p: Part, n: nat)
    requires IsSurfacePart(g, p)
    ensures CountMult(g, p, Visits(p), n) % 2 == 0
  {
    var vs := Visits(p);
    VisitsDistinct(p, |p.nodes|);
    CountIsCard(g, p, vs, n);
    var s := set e | e in vs && Mult(g, p, e) == n;
    forall e | e in s
      ensures Swap(e) in s && Swap(e) != e
    {
      VisitsSwapClosed(g, p, e);
      EdgeCellsSymmetric(g, p, e);
    }
    SwapClosedEven(s);
  }

  /** Every visited pair shares at least one cell, so bucket 0 stays empty. */
  lemma NoUnsharedPairs(g: Grid, p: Part)
    requires IsSurfacePart(g, p)
    ensures forall e :: e in Visits(p) ==> Mult(g, p, e) >= 1
    ensures CountMult(g, p, Visits(p), 0) == 0
  {
    forall e | e in Visits(p)
      ensures Mult(g, p, e) >= 1
    {
      VisitsSwapClosed(g, p, e);
    }
    CountPositiveIff(g, p, Visits(p), 0);
  }
}
