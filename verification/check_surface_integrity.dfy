/**
 Surface watertightness check: over the part made of all surface cells, every
 (node, n2n neighbour) pair is visited, the number N of part cells sharing
 that edge is counted into a 1000-bucket histogram, the smallest and largest
 N are tracked, and the cells of every edge not shared by exactly two cells
 are collected. The surface is reported watertight when the smallest and the
 largest N are both 2.
 */
module CheckSurfaceIntegrity {
  import opened Mesh
  import opened SurfacePart
  import opened EdgeVisits

  /** Number of histogram buckets; a multiplicity at or above it is a fatal error. */
  const Buckets: nat := 1000

  /** The smallest and largest multiplicity, kept as members of the check between calls. */
  datatype Bounds = Bounds(nmin: int, nmax: int)

  /**
   What one scan leaves behind: the verdict, the bounds, the histogram, the
   bad cells, and whether any pair was visited at all (false means the
   bounds were not written by this scan).
   */
  datatype Report = Report(watertight: bool, bounds: Bounds, hist: seq<nat>, bad: set<nat>, scanned: bool)

  /** A run either finishes or stops at the fatal multiplicity check. */
  datatype Outcome = Finished(report: Report) | MultiplicityOverflow

  function Min(a: int, b: int): int { if a <= b then a else b }
  function Max(a: int, b: int): int { if a >= b then a else b }

  /** The bounds after visiting `done`: untouched while nothing was visited, else least and greatest multiplicity. */
  ghost predicate BoundsState(g: Grid, p: Part, stale: Bounds, done: seq<Edge>, first: bool, nmin: int, nmax: int)
  {
    && (first <==> |done| == 0)
    && (first ==> nmin == stale.nmin && nmax == stale.nmax)
    && (forall e :: e in done ==> nmin <= Mult(g, p, e) <= nmax && Mult(g, p, e) < Buckets)
    && (!first ==> && (exists e :: e in done && Mult(g, p, e) == nmin)
                   && (exists e :: e in done && Mult(g, p, e) == nmax))
  }

  /** The histogram after visiting `done`: bucket n counts the visits of multiplicity n. */
  ghost predicate HistState(g: Grid, p: Part, done: seq<Edge>, hist: seq<nat>)
  {
    && |hist| == Buckets
    && (forall n :: 0 <= n < Buckets ==> hist[n] == CountMult(g, p, done, n))
  }

  /** The bad cells after visiting `done`. */
  ghost predicate BadState(g: Grid, p: Part, done: seq<Edge>, bad: set<nat>)
  {
    forall c :: c in bad <==> IsBadCell(g, p, done, c)
  }

  lemma BoundsStep(g: Grid, p: Part, stale: Bounds, done: seq<Edge>, e: Edge, first: bool, nmin: int, nmax: int)
    requires BoundsState(g, p, stale, done, first, nmin, nmax)
    requires Mult(g, p, e) < Buckets
    ensures var n := Mult(g, p, e);
            BoundsState(g, p, stale, done + [e], false,
                        if first then n else Min(nmin, n), if first then n else Max(nmax, n))
  {
  }

  lemma HistStep(g: Grid, p: Part, done: seq<Edge>, e: Edge, hist: seq<nat>)
    requires HistState(g, p, done, hist)
    requires Mult(g, p, e) < Buckets
    ensures HistState(g, p, done + [e], hist[Mult(g, p, e) := hist[Mult(g, p, e)] + 1])
  {
  }

  lemma BadStep(g: Grid, p: Part, done: seq<Edge>, e: Edge, bad: set<nat>)
    requires BadState(g, p, done, bad)
    ensures var shared := EdgeCells(g.cells, p.cells, e);
            BadState(g, p, done + [e], if |shared| != 2 then bad + shared else bad)
  {
  }

  /** The visit under the cursor is part of the whole visit sequence. */
  lemma CursorInVisits(p: Part, i: nat, k: nat)
    requires Indexed(p) && i < |p.nodes| && k < |Row(p, i)|
    ensures Row(p, i)[k] in Visits(p)
  {
    VisitsPrefix(p, i + 1, |p.nodes|);
    assert VisitsUpTo(p, i + 1) == VisitsUpTo(p, i) + Row(p, i);
    assert Row(p, i)[k] == VisitsUpTo(p, i + 1)[|VisitsUpTo(p, i)| + k];
  }

  /** Advancing the cursor within a row appends the visited pair. */
  lemma CursorStep(pre: seq<Edge>, row: seq<Edge>, k: nat)
    requires k < |row|
    ensures pre + row[..k + 1] == (pre + row[..k]) + [row[k]]
  {
  }

  /** Finishing a row completes the visits of one more node. */
  lemma RowDone(p: Part, i: nat)
    requires Indexed(p) && i < |p.nodes|
    ensures VisitsUpTo(p, i) + Row(p, i)[..|Row(p, i)|] == VisitsUpTo(p, i + 1)
  {
  }

  /** The running values of the scan: the `first` flag, the bounds, the histogram and the bad cells. */
  datatype Tally = Tally(first: bool, nmin: int, nmax: int, hist: seq<nat>, bad: set<nat>)

  /** The tally is the one the scan has after visiting exactly the pairs `done`. */
  ghost predicate Reflects(g: Grid, p: Part, stale: Bounds, done: seq<Edge>, t: Tally)
  {
    && BoundsState(g, p, stale, done, t.first, t.nmin, t.nmax)
    && HistState(g, p, done, t.hist)
    && BadState(g, p, done, t.bad)
  }

  /** The tally after one more visit of multiplicity n whose sharing set is `shared`. */
  function Advance(t: Tally, n: nat, shared: set<nat>): (u: Tally)
    requires n < |t.hist|
    ensures !u.first && |u.hist| == |t.hist|
    ensures u.nmin <= n <= u.nmax && (u.nmin == n || u.nmin == t.nmin) && (u.nmax == n || u.nmax == t.nmax)
    ensures !t.first ==> u.nmin <= t.nmin && t.nmax <= u.nmax
    ensures u.hist[n] == t.hist[n] + 1 && forall m :: 0 <= m < |t.hist| && m != n ==> u.hist[m] == t.hist[m]
    ensures t.bad <= u.bad && (u.bad == t.bad <==> |shared| == 2 || shared <= t.bad)
  {
    Tally(false,
          if t.first then n else Min(t.nmin, n),
          if t.first then n else Max(t.nmax, n),
          t.hist[n := t.hist[n] + 1],
          if |shared| != 2 then t.bad + shared else t.bad)
  }

  /** One visit keeps the tally in step with the visited pairs. */
  lemma TallyStep(g: Grid, p: Part, stale: Bounds, done: seq<Edge>, e: Edge, t: Tally)
    requires Reflects(g, p, stale, done, t)
    requires Mult(g, p, e) < Buckets
    ensures Reflects(g, p, stale, done + [e], Advance(t, Mult(g, p, e), EdgeCells(g.cells, p.cells, e)))
  {
    BoundsStep(g, p, stale, done, e, t.first, t.nmin, t.nmax);
    HistStep(g, p, done, e, t.hist);
    BadStep(g, p, done, e, t.bad);
  }

  /** Visits one node's n2n neighbours, in order, updating the tally; stops at the fatal multiplicity check. */
  method ScanRow(g: Grid, p: Part, stale: Bounds, i: nat, t: Tally) returns (t': Tally, overflow: bool)
    requires Indexed(p) && InverseMaps(p) && i < |p.nodes|
    requires Reflects(g, p, stale, VisitsUpTo(p, i), t)
    ensures overflow ==> exists e :: e in Visits(p) && Mult(g, p, e) >= Buckets
    ensures !overflow ==> Reflects(g, p, stale, VisitsUpTo(p, i + 1), t')
  {
    var a := p.nodes[i];
    var row := p.n2n[p.g2l[a]];
    assert row == p.n2n[i];
    ghost var pre := VisitsUpTo(p, i);
    ghost var visits := Row(p, i);
    t' := t;
    overflow := false;
    var k := 0;
    assert pre + visits[..0] == pre;
    while k < |row|
      invariant 0 <= k <= |row|
      invariant Reflects(g, p, stale, pre + visits[..k], t')
    {
      var b := p.nodes[row[k]];
      var edgeCells := EdgeCells(g.cells, p.cells, Edge(a, b));
      var n := |edgeCells|;
      assert Edge(a, b) == visits[k];
      if n >= Buckets {
        CursorInVisits(p, i, k);
        overflow := true;
        return;
      }
      TallyStep(g, p, stale, pre + visits[..k], Edge(a, b), t');
      t' := Advance(t', n, edgeCells);
      CursorStep(pre, visits, k);
      k := k + 1;
    }
    RowDone(p, i);
  }

  /** What a tally reflecting all visits says about the surface. */
  lemma ScanComplete(g: Grid, p: Part, stale: Bounds, t: Tally)
    requires IsSurfacePart(g, p)
    requires Reflects(g, p, stale, Visits(p), t)
    ensures forall e :: e in Visits(p) ==> Mult(g, p, e) < Buckets
    ensures !t.first <==> |Visits(p)| > 0
    ensures |Visits(p)| == 0 ==> Bounds(t.nmin, t.nmax) == stale
    ensures forall e :: e in Visits(p) ==> t.nmin <= Mult(g, p, e) <= t.nmax
    ensures |Visits(p)| > 0 ==>
              && (exists e :: e in Visits(p) && Mult(g, p, e) == t.nmin)
              && (exists e :: e in Visits(p) && Mult(g, p, e) == t.nmax)
              && t.nmin >= 1
    ensures |t.hist| == Buckets
    ensures forall n :: 0 <= n < Buckets ==> t.hist[n] == CountMult(g, p, Visits(p), n)
    ensures Sum(t.hist) == |Visits(p)| == Degrees(p, |p.nodes|)
    ensures forall n :: 0 <= n < Buckets ==> t.hist[n] % 2 == 0
    ensures t.hist[0] == 0
    ensures forall c :: c in t.bad <==> IsBadCell(g, p, Visits(p), c)
  {
    NoUnsharedPairs(g, p);
    CountsSumToLength(g, p, Visits(p), t.hist);
    VisitsLength(p, |p.nodes|);
    forall n | 0 <= n < Buckets
      ensures t.hist[n] % 2 == 0
    {
      BucketsEven(g, p, n);
    }
    if !t.first {
      var e :| e in Visits(p) && Mult(g, p, e) == t.nmin;
    }
  }

  /**
   The contract of the check as written, for the bounds `stale` its members
   held on entry.
   */
  ghost predicate Meets(g: Grid, p: Part, stale: Bounds, r: Outcome)
    requires Indexed(p)
  {
    // the fatal check fires exactly when some edge is shared by 1000 or more cells
    && (r.MultiplicityOverflow? <==> exists e :: e in Visits(p) && Mult(g, p, e) >= Buckets)
    && (r.Finished? ==> (r.report.scanned <==> |Visits(p)| > 0))
    // the verdict is read from the bounds, whatever wrote them
    && (r.Finished? ==> (r.report.watertight <==> r.report.bounds == Bounds(2, 2)))
    && (r.Finished? && |Visits(p)| == 0 ==> r.report.bounds == stale)
    // otherwise the bounds are the least and greatest multiplicity of a visited pair
    && (r.Finished? ==> forall e :: e in Visits(p) ==>
          r.report.bounds.nmin <= Mult(g, p, e) <= r.report.bounds.nmax)
    && (r.Finished? && |Visits(p)| > 0 ==>
          && (exists e :: e in Visits(p) && Mult(g, p, e) == r.report.bounds.nmin)
          && (exists e :: e in Visits(p) && Mult(g, p, e) == r.report.bounds.nmax)
          && r.report.bounds.nmin >= 1)
    // bucket n counts the visits of multiplicity n; every visit lands in exactly one bucket
    && (r.Finished? ==> |r.report.hist| == Buckets)
    && (r.Finished? ==> forall n :: 0 <= n < Buckets ==> r.report.hist[n] == CountMult(g, p, Visits(p), n))
    && (r.Finished? ==> Sum(r.report.hist) == |Visits(p)| == Degrees(p, |p.nodes|))
    // each undirected edge is visited from both ends
    && (r.Finished? ==> forall n :: 0 <= n < Buckets ==> r.report.hist[n] % 2 == 0)
    && (r.Finished? ==> r.report.hist[0] == 0)
    // a cell is bad exactly when it shares an edge whose sharing set is not of size 2
    && (r.Finished? ==> forall c :: c in r.report.bad <==> IsBadCell(g, p, Visits(p), c))
  }

  /**
   The check as written. `stale` holds the bounds left by the previous call;
   when the surface has no edges this call never overwrites them and the
   verdict is read from them.
   */
  method IsWaterTight(g: Grid, p: Part, stale: Bounds) returns (r: Outcome)
    requires IsSurfacePart(g, p)
    ensures Meets(g, p, stale, r)
  {
    var t, overflow := ScanAll(g, p, stale);
    if overflow {
      r := MultiplicityOverflow;
      OverflowMeets(g, p, stale);
    } else {
      r := Finished(Report(t.nmin == 2 && t.nmax == 2, Bounds(t.nmin, t.nmax), t.hist, t.bad, !t.first));
      FinishedMeets(g, p, stale, t);
    }
  }

  /** The node loop of the check: every local node's row in turn, from a reset histogram and bad-cell set. */
  method ScanAll(g: Grid, p: Part, stale: Bounds) returns (t: Tally, overflow: bool)
    requires Indexed(p) && InverseMaps(p)
    ensures overflow ==> exists e :: e in Visits(p) && Mult(g, p, e) >= Buckets
    ensures !overflow ==> Reflects(g, p, stale, Visits(p), t)
  {
    t := Tally(true, stale.nmin, stale.nmax, seq(Buckets, _ => 0), {});
    StartReflects(g, p, stale);
    ghost var done: seq<Edge> := [];
    var i := 0;
    while i < |p.nodes|
      invariant 0 <= i <= |p.nodes|
      invariant done == VisitsUpTo(p, i)
      invariant Reflects(g, p, stale, done, t)
    {
      t, overflow := ScanRow(g, p, stale, i, t);
      if overflow {
        return;
      }
      i := i + 1;
      done := VisitsUpTo(p, i);
    }
    overflow := false;
  }

  /** Before anything is visited the histogram and the bad cells are empty and the bounds are the stale ones. */
  lemma StartReflects(g: Grid, p: Part, stale: Bounds)
    ensures Reflects(g, p, stale, [], Tally(true, stale.nmin, stale.nmax, seq(Buckets, _ => 0), {}))
  {
  }

  /** Stopping at the fatal check meets the contract when some visited pair is shared by 1000 or more cells. */
  lemma OverflowMeets(g: Grid, p: Part, stale: Bounds)
    requires Indexed(p)
    requires exists e :: e in Visits(p) && Mult(g, p, e) >= Buckets
    ensures Meets(g, p, stale, MultiplicityOverflow)
  {
  }

  /** The report built from a tally of all visits meets the contract. */
  lemma FinishedMeets(g: Grid, p: Part, stale: Bounds, t: Tally)
    requires IsSurfacePart(g, p)
    requires Reflects(g, p, stale, Visits(p), t)
    ensures Meets(g, p, stale, Finished(Report(t.nmin == 2 && t.nmax == 2, Bounds(t.nmin, t.nmax), t.hist, t.bad, !t.first)))
  {
    ScanComplete(g, p, stale, t);
  }

  /** Both bounds are 2 after a scan that visited something exactly when every visited pair has multiplicity 2. */
  lemma VerdictAllTwo(g: Grid, p: Part, stale: Bounds, r: Outcome)
    requires Indexed(p) && Meets(g, p, stale, r)
    ensures (r.Finished? && r.report.scanned && r.report.watertight)
            <==> |Visits(p)| > 0 && forall e :: e in Visits(p) ==> Mult(g, p, e) == 2
  {
  }

  /** Every visited pair has multiplicity 2 exactly when bucket 2 is the only non-empty bucket. */
  lemma VerdictHistogram(g: Grid, p: Part, stale: Bounds, r: Outcome)
    requires Indexed(p) && Meets(g, p, stale, r) && r.Finished?
    ensures (|Visits(p)| > 0 && forall e :: e in Visits(p) ==> Mult(g, p, e) == 2)
            <==> (r.report.hist[2] > 0 && forall n :: 0 <= n < Buckets && n != 2 ==> r.report.hist[n] == 0)
  {
    var vs := Visits(p);
    CountPositiveIff(g, p, vs, 2);
    if |vs| > 0 && forall e :: e in vs ==> Mult(g, p, e) == 2 {
      assert vs[0] in vs;
      forall n | 0 <= n < Buckets && n != 2
        ensures r.report.hist[n] == 0
      {
        CountPositiveIff(g, p, vs, n);
      }
    }
    if r.report.hist[2] > 0 && forall n :: 0 <= n < Buckets && n != 2 ==> r.report.hist[n] == 0 {
      forall e | e in vs
        ensures Mult(g, p, e) == 2
      {
        var m := Mult(g, p, e);
        if m != 2 {
          CountPositiveIff(g, p, vs, m);
        }
      }
    }
  }

  /**
   The verdict with the empty-surface case made explicit: a surface without
   edges is not watertight, instead of reusing the bounds of an earlier call.
   */
  method IsWaterTightChecked(g: Grid, p: Part) returns (ok: bool, r: Outcome)
    requires IsSurfacePart(g, p)
    ensures Meets(g, p, Bounds(0, 0), r)
    ensures ok <==> |Visits(p)| > 0 && forall e :: e in Visits(p) ==> Mult(g, p, e) == 2
    ensures ok <==> && r.Finished?
                    && r.report.hist[2] > 0
                    && forall n :: 0 <= n < Buckets && n != 2 ==> r.report.hist[n] == 0
    ensures ok ==> r.Finished? && r.report.bad == {}
  {
    r := IsWaterTight(g, p, Bounds(0, 0));
    ok := r.Finished? && r.report.scanned && r.report.watertight;
    VerdictAllTwo(g, p, Bounds(0, 0), r);
    if r.Finished? {
      VerdictHistogram(g, p, Bounds(0, 0), r);
    }
  }

  /**
   The check as written on a mesh with no surface cells, right after a call
   that found a watertight surface: nothing is visited, the bounds of the
   earlier call are read again, and the empty surface is reported watertight.
   */
  method StaleBoundsExample() returns (r: Outcome)
    ensures r.Finished? && !r.report.scanned && r.report.watertight
  {
    var o := Vec3(0.0, 0.0, 0.0);
    var g := Grid([o, o, o, o], [Cell(Tetra, [0, 1, 2, 3], [])]);
    var p := Part([], map[], [], []);
    assert IsSurfacePart(g, p);
    r := IsWaterTight(g, p, Bounds(2, 2));
  }

  /** The two quads of the pillow surface: the same four nodes, in opposite orientations. */
  function PillowGrid(): Grid
  {
    Grid([Vec3(0.0, 0.0, 0.0), Vec3(1.0, 0.0, 0.0), Vec3(1.0, 1.0, 0.0), Vec3(0.0, 1.0, 0.0)],
         [Cell(Quad, [0, 1, 2, 3], []), Cell(Quad, [3, 2, 1, 0], [])])
  }

  /** The pillow's part index, with n2n listing the quads' edges and not their diagonals. */
  function PillowPart(): Part
  {
    Part([0, 1, 2, 3], map[0 := 0, 1 := 1, 2 := 2, 3 := 3], [[1, 3], [0, 2], [1, 3], [0, 2]], [0, 1])
  }

  /** The pillow's part index meets the part builders' contract, although its n2n omits the diagonals. */
  lemma PillowIsSurfacePart()
    ensures IsSurfacePart(PillowGrid(), PillowPart())
    ensures 2 !in PillowPart().n2n[0] && 0 in PillowGrid().cells[0].pts && 2 in PillowGrid().cells[0].pts
  {
    PillowIndex();
    PillowCells();
    PillowAdjacency();
  }

  /** Point ids in range, n2n entries in range, and g2l inverting the node list. */
  lemma PillowIndex()
    ensures WellFormed(PillowGrid()) && Indexed(PillowPart()) && InverseMaps(PillowPart())
  {
    PillowIndexed();
    var p := PillowPart();
    assert forall v :: v in p.g2l <==> v in p.nodes;
  }

  /** Both quads are surface cells, and the nodes are exactly the quads' points. */
  lemma PillowCells()
    ensures AllSurfaceCells(PillowGrid(), PillowPart()) && NodesOfCells(PillowGrid(), PillowPart())
  {
    var g, p := PillowGrid(), PillowPart();
    forall v: nat | v in p.nodes
      ensures exists c :: c in p.cells && 0 <= c < |g.cells| && v in g.cells[c].pts
    {
      assert v in g.cells[0].pts;
    }
  }

  /** Every n2n entry of the pillow is a local node. */
  lemma PillowIndexed()
    ensures Indexed(PillowPart())
  {
  }

  /** Each n2n entry is another node, listed back, that shares a quad. */
  lemma PillowAdjacency()
    ensures Indexed(PillowPart()) && AdjacentN2N(PillowGrid(), PillowPart())
  {
    var g, p := PillowGrid(), PillowPart();
    PillowIndexed();
    forall i, j: nat | 0 <= i < |p.n2n| && j in p.n2n[i]
      ensures j < |p.n2n| && j != i && i in p.n2n[j]
      ensures EdgeCells(g.cells, p.cells, Edge(p.nodes[i], p.nodes[j])) != {}
    {
      PillowEdgesShared(Edge(p.nodes[i], p.nodes[j]));
    }
  }

  /** Every edge between pillow nodes is shared by both quads. */
  lemma PillowEdgesShared(e: Edge)
    requires e.a < 4 && e.b < 4
    ensures Mult(PillowGrid(), PillowPart(), e) == 2
  {
    var g, p := PillowGrid(), PillowPart();
    assert e.a in g.cells[0].pts && e.b in g.cells[0].pts;
    assert e.a in g.cells[1].pts && e.b in g.cells[1].pts;
    assert EdgeCells(g.cells, p.cells, e) == {0, 1};
  }

  /**
   A closed surface of two quads whose n2n lists only the quad edges: every
   visited edge is shared by exactly two cells, and the check calls it watertight.
   */
  method PillowWatertight() returns (ok: bool, r: Outcome)
    ensures ok && r.Finished? && r.report.watertight && r.report.bad == {}
  {
    var g, p := PillowGrid(), PillowPart();
    PillowIsSurfacePart();
    assert Visits(p) != [] by {
      assert Row(p, 0)[0] in Visits(p) by {
        CursorInVisits(p, 0, 0);
      }
    }
    forall e | e in Visits(p)
      ensures Mult(g, p, e) == 2
    {
      InVisitsUpTo(p, |p.nodes|, e);
      PillowEdgesShared(e);
    }
    ok, r := IsWaterTightChecked(g, p);
  }

  /**
   The histogram and the bad-cell set are reset on entry and the bounds are
   rewritten whenever something is visited, so a second call on the same
   mesh, starting from the bounds the first call left, reports the same.
   */
  method CheckTwice(g: Grid, p: Part, stale: Bounds) returns (r1: Outcome, r2: Outcome)
    requires IsSurfacePart(g, p)
    ensures r1 == r2
  {
    r1 := IsWaterTight(g, p, stale);
    var left := if r1.Finished? then r1.report.bounds else stale;
    r2 := IsWaterTight(g, p, left);
    SameOutcome(g, p, stale, r1, r2);
  }

  /** Multiplicity counts depend only on the cells of the mesh, not on its coordinates. */
  lemma {:induction false} CountMultCellsOnly(g1: Grid, g2: Grid, p: Part, es: seq<Edge>, n: nat)
    requires g1.cells == g2.cells
    ensures CountMult(g1, p, es, n) == CountMult(g2, p, es, n)
  {
    if |es| > 0 {
      CountMultCellsOnly(g1, g2, p, es[..|es| - 1], n);
    }
  }

  /**
   The check's outcome does not depend on point coordinates, so the point and
   cell-volume diagnostics it prints cannot change it.
   */
  method CoordinatesIgnored(g1: Grid, g2: Grid, p: Part, stale: Bounds) returns (r1: Outcome, r2: Outcome)
    requires IsSurfacePart(g1, p) && IsSurfacePart(g2, p)
    requires g1.cells == g2.cells
    ensures r1 == r2
  {
    r1 := IsWaterTight(g1, p, stale);
    r2 := IsWaterTight(g2, p, stale);
    MeetsCellsOnly(g1, g2, p, stale, r2);
    SameOutcome(g1, p, stale, r1, r2);
  }

  /** Whether an outcome meets the check's contract depends on the mesh's cells only. */
  lemma MeetsCellsOnly(g1: Grid, g2: Grid, p: Part, stale: Bounds, r: Outcome)
    requires Indexed(p) && g1.cells == g2.cells
    requires Meets(g2, p, stale, r)
    ensures Meets(g1, p, stale, r)
  {
    forall n: nat
      ensures CountMult(g1, p, Visits(p), n) == CountMult(g2, p, Visits(p), n)
    {
      CountMultCellsOnly(g1, g2, p, Visits(p), n);
    }
    forall c
      ensures IsBadCell(g1, p, Visits(p), c) == IsBadCell(g2, p, Visits(p), c)
    {
    }
  }

  /** Two outcomes that meet the check's contract for the same mesh, part and stale bounds are equal. */
  lemma SameOutcome(g: Grid, p: Part, stale: Bounds, r1: Outcome, r2: Outcome)
    requires Indexed(p)
    requires Meets(g, p, stale, r1)
    requires Meets(g, p, stale, r2) || Meets(g, p, if r1.Finished? then r1.report.bounds else stale, r2)
    ensures r1 == r2
  {
  }
}
