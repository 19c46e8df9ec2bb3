/**
 Volume-cell extraction filter: selects the volume cells of a mesh by per-type
 switches and an optional half-space clip, then emits a compacted mesh that
 holds only the selected cells and the points they touch.
 */
module ExtractVolumeCells {
  import opened Mesh

  /** The filter's settings: clip switch, clip plane (origin `x`, normal `n`) and one switch per volume type. */
  datatype Config = Config(
    clip: bool,
    x: Vec3,
    n: Vec3,
    tetras: bool,
    pyramids: bool,
    wedges: bool,
    hexes: bool,
    polys: bool)

  // ---------------------------------------------------------------------------
  // Construction and setters
  // ---------------------------------------------------------------------------

  /**
   The constructor as written: it never assigns the polyhedron switch, so that
   switch holds whatever the object's memory held; `indeterminate` stands for it.
   */
  function NewAsWritten(indeterminate: bool): (c: Config)
    ensures !c.clip
    ensures c.x == Vec3(0.0, 0.0, 0.0) && c.n == Vec3(1.0, 0.0, 0.0)
    ensures c.tetras && c.pyramids && c.wedges && c.hexes
    ensures c.polys == indeterminate
  {
    SetN(SetX(SetClippingOff(Config(false, Vec3(0.0, 0.0, 0.0), Vec3(0.0, 0.0, 0.0),
                                    true, true, true, true, indeterminate)),
              Vec3(0.0, 0.0, 0.0)),
         Vec3(1.0, 0.0, 0.0))
  }

  /** The constructor with the polyhedron switch initialised like the other four type switches. */
  function New(): (c: Config)
    ensures !c.clip
    ensures c.x == Vec3(0.0, 0.0, 0.0) && c.n == Vec3(1.0, 0.0, 0.0)
    ensures c.tetras && c.pyramids && c.wedges && c.hexes && c.polys
  {
    NewAsWritten(true)
  }

  function SetX(c: Config, x: Vec3): (r: Config)
    ensures r.x == x && r.(x := c.x) == c
  {
    c.(x := x)
  }

  function SetN(c: Config, n: Vec3): (r: Config)
    ensures r.n == n && r.(n := c.n) == c
  {
    c.(n := n)
  }

  /** Component setters of the clip origin. */
  function Setx(c: Config, v: real): (r: Config)
    ensures r.x.x == v && r.x.y == c.x.y && r.x.z == c.x.z && r.(x := c.x) == c
  {
    c.(x := c.x.(x := v))
  }

  function Sety(c: Config, v: real): (r: Config)
    ensures r.x.y == v && r.x.x == c.x.x && r.x.z == c.x.z && r.(x := c.x) == c
  {
    c.(x := c.x.(y := v))
  }

  function Setz(c: Config, v: real): (r: Config)
    ensures r.x.z == v && r.x.x == c.x.x && r.x.y == c.x.y && r.(x := c.x) == c
  {
    c.(x := c.x.(z := v))
  }

  /** Component setters of the clip normal. */
  function Setnx(c: Config, v: real): (r: Config)
    ensures r.n.x == v && r.n.y == c.n.y && r.n.z == c.n.z && r.(n := c.n) == c
  {
    c.(n := c.n.(x := v))
  }

  function Setny(c: Config, v: real): (r: Config)
    ensures r.n.y == v && r.n.x == c.n.x && r.n.z == c.n.z && r.(n := c.n) == c
  {
    c.(n := c.n.(y := v))
  }

  function Setnz(c: Config, v: real): (r: Config)
    ensures r.n.z == v && r.n.x == c.n.x && r.n.y == c.n.y && r.(n := c.n) == c
  {
    c.(n := c.n.(z := v))
  }

  // Each switch setter only writes when the value changes (the C++ setter then
  // calls `Modified()`); the resulting settings are the same either way.

  function SetClippingOn(c: Config): (r: Config)
    ensures r.clip && r.(clip := c.clip) == c
  {
    if !c.clip then c.(clip := true) else c
  }

  function SetClippingOff(c: Config): (r: Config)
    ensures !r.clip && r.(clip := c.clip) == c
  {
    if c.clip then c.(clip := false) else c
  }

  function SetTetrasOn(c: Config): (r: Config)
    ensures r.tetras && r.(tetras := c.tetras) == c
  {
    if !c.tetras then c.(tetras := true) else c
  }

  function SetTetrasOff(c: Config): (r: Config)
    ensures !r.tetras && r.(tetras := c.tetras) == c
  {
    if c.tetras then c.(tetras := false) else c
  }

  function SetPyramidsOn(c: Config): (r: Config)
    ensures r.pyramids && r.(pyramids := c.pyramids) == c
  {
    if !c.pyramids then c.(pyramids := true) else c
  }

  function SetPyramidsOff(c: Config): (r: Config)
    ensures !r.pyramids && r.(pyramids := c.pyramids) == c
  {
    if c.pyramids then c.(pyramids := false) else c
  }

  function SetWedgesOn(c: Config): (r: Config)
    ensures r.wedges && r.(wedges := c.wedges) == c
  {
    if !c.wedges then c.(wedges := true) else c
  }

  function SetWedgesOff(c: Config): (r: Config)
    ensures !r.wedges && r.(wedges := c.wedges) == c
  {
    if c.wedges then c.(wedges := false) else c
  }

  function SetHexesOn(c: Config): (r: Config)
    ensures r.hexes && r.(hexes := c.hexes) == c
  {
    if !c.hexes then c.(hexes := true) else c
  }

  function SetHexesOff(c: Config): (r: Config)
    ensures !r.hexes && r.(hexes := c.hexes) == c
  {
    if c.hexes then c.(hexes := false) else c
  }

  function SetPolysOn(c: Config): (r: Config)
    ensures r.polys && r.(polys := c.polys) == c
  {
    if !c.polys then c.(polys := true) else c
  }

  function SetPolysOff(c: Config): (r: Config)
    ensures !r.polys && r.(polys := c.polys) == c
  {
    if c.polys then c.(polys := false) else c
  }

  /** Switches the four classic volume types on; the polyhedron switch is left alone. */
  function SetAllOn(c: Config): (r: Config)
    ensures r.tetras && r.pyramids && r.wedges && r.hexes
    ensures r.polys == c.polys
    ensures r.(tetras := c.tetras, pyramids := c.pyramids, wedges := c.wedges, hexes := c.hexes) == c
  {
    SetHexesOn(SetWedgesOn(SetPyramidsOn(SetTetrasOn(c))))
  }

  /** Switches the four classic volume types off; the polyhedron switch is left alone. */
  function SetAllOff(c: Config): (r: Config)
    ensures !r.tetras && !r.pyramids && !r.wedges && !r.hexes
    ensures r.polys == c.polys
    ensures r.(tetras := c.tetras, pyramids := c.pyramids, wedges := c.wedges, hexes := c.hexes) == c
  {
    SetHexesOff(SetWedgesOff(SetPyramidsOff(SetTetrasOff(c))))
  }

  /** Applying a switch setter twice has the effect of applying it once. */
  lemma SettersIdempotent(c: Config)
    ensures SetClippingOn(SetClippingOn(c)) == SetClippingOn(c)
    ensures SetClippingOff(SetClippingOff(c)) == SetClippingOff(c)
    ensures SetTetrasOn(SetTetrasOn(c)) == SetTetrasOn(c)
    ensures SetTetrasOff(SetTetrasOff(c)) == SetTetrasOff(c)
    ensures SetPyramidsOn(SetPyramidsOn(c)) == SetPyramidsOn(c)
    ensures SetPyramidsOff(SetPyramidsOff(c)) == SetPyramidsOff(c)
    ensures SetWedgesOn(SetWedgesOn(c)) == SetWedgesOn(c)
    ensures SetWedgesOff(SetWedgesOff(c)) == SetWedgesOff(c)
    ensures SetHexesOn(SetHexesOn(c)) == SetHexesOn(c)
    ensures SetHexesOff(SetHexesOff(c)) == SetHexesOff(c)
    ensures SetPolysOn(SetPolysOn(c)) == SetPolysOn(c)
    ensures SetPolysOff(SetPolysOff(c)) == SetPolysOff(c)
    ensures SetAllOn(SetAllOn(c)) == SetAllOn(c)
    ensures SetAllOff(SetAllOff(c)) == SetAllOff(c)
  {
  }

  // ---------------------------------------------------------------------------
  // Selection
  // ---------------------------------------------------------------------------

  /**
   Whether the type switches admit a cell type. The polyhedron switch only
   exists when the toolkit supports polyhedra; otherwise it is not consulted.
   */
  predicate TypeEnabled(c: Config, polyhedraSupported: bool, t: CellType)
  {
    match t
    case Tetra => c.tetras
    case Pyramid => c.pyramids
    case Wedge => c.wedges
    case Hexahedron => c.hexes
    case Polyhedron => !polyhedraSupported || c.polys
    case _ => true
  }

  /** No point of cell `id` lies strictly below the clip plane. */
  ghost predicate InsideClip(c: Config, g: Grid, id: nat)
    requires WellFormed(g) && id < |g.cells|
  {
    forall i :: 0 <= i < |g.cells[id].pts| ==> !BelowPlane(g.points[g.cells[id].pts[i]], c.x, c.n)
  }

  /** Reference definition of the selection: a volume cell of an enabled type, wholly above the plane when clipping. */
  ghost predicate Selected(c: Config, polyhedraSupported: bool, g: Grid, id: nat)
    requires WellFormed(g) && id < |g.cells|
  {
    && IsVolume(g.cells[id].kind)
    && TypeEnabled(c, polyhedraSupported, g.cells[id].kind)
    && (c.clip ==> InsideClip(c, g, id))
  }

  ghost function SelectedSet(c: Config, polyhedraSupported: bool, g: Grid): set<nat>
    requires WellFormed(g)
  {
    set id: nat | id < |g.cells| && Selected(c, polyhedraSupported, g, id)
  }

  /**
   The selection loop: every cell is tested in turn; a volume cell starts out
   selected, each disabled type switch may veto it, and with clipping on the
   first point found below the plane vetoes it.
   */
  method SelectCells(c: Config, polyhedraSupported: bool, g: Grid) returns (ex: set<nat>)
    requires WellFormed(g)
    ensures forall id: nat :: id in ex <==> id < |g.cells| && Selected(c, polyhedraSupported, g, id)
    ensures forall id :: id in ex ==> id < |g.cells| && IsVolume(g.cells[id].kind)
    ensures forall id :: id in ex ==> TypeEnabled(c, polyhedraSupported, g.cells[id].kind)
    ensures c.clip ==> forall id, i :: id in ex && 0 <= i < |g.cells[id].pts| ==>
                         !BelowPlane(g.points[g.cells[id].pts[i]], c.x, c.n)
  {
    ex := {};
    var id := 0;
    while id < |g.cells|
      invariant 0 <= id <= |g.cells|
      invariant forall k: nat :: k in ex <==> k < id && Selected(c, polyhedraSupported, g, k)
    {
      var cell := g.cells[id];
      if IsVolume(cell.kind) {
        var select := true;
        var t := cell.kind;
        if !c.tetras && t == Tetra {
          select := false;
        }
        if !c.pyramids && t == Pyramid {
          select := false;
        }
        if !c.wedges && t == Wedge {
          select := false;
        }
        if !c.hexes && t == Hexahedron {
          select := false;
        }
        if polyhedraSupported {
          if !c.polys && t == Polyhedron {
            select := false;
          }
        }
        assert select <==> TypeEnabled(c, polyhedraSupported, t);
        if c.clip && select {
          var i := 0;
          while i < |cell.pts|
            invariant 0 <= i <= |cell.pts|
            invariant select
            invariant forall j :: 0 <= j < i ==> !BelowPlane(g.points[cell.pts[j]], c.x, c.n)
          {
            if BelowPlane(g.points[cell.pts[i]], c.x, c.n) {
              select := false;
              break;
            }
            i := i + 1;
          }
        }
        assert select <==> Selected(c, polyhedraSupported, g, id);
        if select {
          ex := ex + {id};
        }
      }
      id := id + 1;
    }
  }

  /** Clipping only removes cells: with the same type switches, clipping on selects a subset of clipping off. */
  lemma ClipOnlyRemoves(c: Config, polyhedraSupported: bool, g: Grid)
    requires WellFormed(g)
    ensures SelectedSet(SetClippingOn(c), polyhedraSupported, g) <= SelectedSet(SetClippingOff(c), polyhedraSupported, g)
    ensures |SelectedSet(SetClippingOn(c), polyhedraSupported, g)| <= |SelectedSet(SetClippingOff(c), polyhedraSupported, g)|
  {
    SubsetCard(SelectedSet(SetClippingOn(c), polyhedraSupported, g), SelectedSet(SetClippingOff(c), polyhedraSupported, g));
  }

  lemma {:induction false} SubsetCard(a: set<nat>, b: set<nat>)
    requires a <= b
    ensures |a| <= |b|
    decreases |b|
  {
    if b != {} {
      var x :| x in b;
      SubsetCard(a - {x}, b - {x});
    }
  }

  /** Where polyhedra are not supported the polyhedron switch has no effect on the selection. */
  lemma PolysIgnoredWhenUnsupported(c: Config, g: Grid)
    requires WellFormed(g)
    ensures SelectedSet(SetPolysOn(c), false, g) == SelectedSet(SetPolysOff(c), false, g)
  {
  }

  /** Switching a type off removes every cell of that type from the selection. */
  lemma DisabledTypeNeverSelected(c: Config, polyhedraSupported: bool, g: Grid, id: nat)
    requires WellFormed(g) && id < |g.cells|
    ensures g.cells[id].kind == Tetra ==> id !in SelectedSet(SetTetrasOff(c), polyhedraSupported, g)
    ensures g.cells[id].kind == Pyramid ==> id !in SelectedSet(SetPyramidsOff(c), polyhedraSupported, g)
    ensures g.cells[id].kind == Wedge ==> id !in SelectedSet(SetWedgesOff(c), polyhedraSupported, g)
    ensures g.cells[id].kind == Hexahedron ==> id !in SelectedSet(SetHexesOff(c), polyhedraSupported, g)
    ensures g.cells[id].kind == Polyhedron && polyhedraSupported ==> id !in SelectedSet(SetPolysOff(c), polyhedraSupported, g)
  {
  }

  /** With the constructor's settings every volume cell is selected, polyhedra included. */
  lemma DefaultSelectsEveryVolumeCell(g: Grid, polyhedraSupported: bool)
    requires WellFormed(g)
    ensures SelectedSet(New(), polyhedraSupported, g) == set id: nat | id < |g.cells| && IsVolume(g.cells[id].kind)
  {
  }

  /**
   With the constructor as written the polyhedron switch is whatever the
   memory held: when that is false, a freshly constructed filter drops the
   polyhedron of a one-cell mesh although every type switch is meant to start on.
   */
  lemma UninitialisedPolysSwitchDropsPolyhedron()
    ensures var g := Grid([Vec3(0.0, 0.0, 0.0)], [Cell(Polyhedron, [0], [])]);
            && WellFormed(g)
            && 0 !in SelectedSet(NewAsWritten(false), true, g)
            && 0 in SelectedSet(New(), true, g)
  {
  }

  // ---------------------------------------------------------------------------
  // Compaction
  // ---------------------------------------------------------------------------

  /** Lists a set in some order, each element once; the order is not specified (hash-set iteration). */
  method Enumerate(s: set<nat>) returns (xs: seq<nat>)
    ensures Distinct(xs)
    ensures forall x :: x in xs <==> x in s
    ensures |xs| == |s|
  {
    xs := [];
    var rest := s;
    while rest != {}
      invariant forall x :: x in s <==> x in rest || x in xs
      invariant forall x :: x in rest ==> x !in xs
      invariant Distinct(xs)
      invariant |xs| + |rest| == |s|
      decreases |rest|
    {
      var x :| x in rest;
      xs := xs + [x];
      rest := rest - {x};
    }
  }

  /** Point `v` is used by one of the listed cells. */
  ghost predicate Touched(g: Grid, cells: seq<nat>, v: nat)
    requires forall k :: 0 <= k < |cells| ==> cells[k] < |g.cells|
  {
    exists k, i :: 0 <= k < |cells| && 0 <= i < |g.cells[cells[k]].pts| && g.cells[cells[k]].pts[i] == v
  }

  /** The points of the listed cells, each once. */
  method NodesFromCells(g: Grid, cells: seq<nat>) returns (nodes: seq<nat>)
    requires forall k :: 0 <= k < |cells| ==> cells[k] < |g.cells|
    ensures Distinct(nodes)
    ensures forall v: nat :: v in nodes <==> Touched(g, cells, v)
  {
    var touched := set k, i | 0 <= k < |cells| && 0 <= i < |g.cells[cells[k]].pts| :: g.cells[cells[k]].pts[i];
    nodes := Enumerate(touched);
  }

  /** The global-to-local map of a duplicate-free node list: the inverse of the list. */
  function NodeMapping(nodes: seq<nat>): (m: map<nat, nat>)
    requires Distinct(nodes)
    ensures forall v :: v in m <==> v in nodes
    ensures forall t :: 0 <= t < |nodes| ==> m[nodes[t]] == t
    ensures forall v :: v in m ==> m[v] < |nodes| && nodes[m[v]] == v
  {
    map t | 0 <= t < |nodes| :: nodes[t] := t
  }

  /** Copies the coordinates of every listed point into its compacted slot. */
  method CopyPoints(g: Grid, nodes: seq<nat>, m: map<nat, nat>) returns (pts: seq<Vec3>)
    requires Distinct(nodes)
    requires forall t :: 0 <= t < |nodes| ==> nodes[t] < |g.points|
    requires m == NodeMapping(nodes)
    ensures |pts| == |nodes|
    ensures forall v :: v in m ==> pts[m[v]] == g.points[v]
  {
    pts := seq(|nodes|, _ => Vec3(0.0, 0.0, 0.0));
    var t := 0;
    while t < |nodes|
      invariant 0 <= t <= |nodes|
      invariant |pts| == |nodes|
      invariant forall u :: 0 <= u < t ==> pts[u] == g.points[nodes[u]]
    {
      var v := nodes[t];
      pts := pts[m[v] := g.points[v]];
      t := t + 1;
    }
  }

  /** The point ids of a cell translated through the node mapping. */
  function Remap(pts: seq<nat>, m: map<nat, nat>): seq<nat>
    requires forall i :: 0 <= i < |pts| ==> pts[i] in m
  {
    seq(|pts|, i requires 0 <= i < |pts| => m[pts[i]])
  }

  /** Re-emits every listed cell with remapped points, its original type and its cell data. */
  method EmitCells(g: Grid, cells: seq<nat>, m: map<nat, nat>) returns (out: seq<Cell>)
    requires forall k :: 0 <= k < |cells| ==> cells[k] < |g.cells|
    requires forall k, i :: 0 <= k < |cells| && 0 <= i < |g.cells[cells[k]].pts| ==> g.cells[cells[k]].pts[i] in m
    ensures |out| == |cells|
    ensures forall k :: 0 <= k < |cells| ==>
              && out[k].kind == g.cells[cells[k]].kind
              && out[k].data == g.cells[cells[k]].data
              && |out[k].pts| == |g.cells[cells[k]].pts|
    ensures forall k, i :: 0 <= k < |cells| && 0 <= i < |out[k].pts| ==>
              out[k].pts[i] == m[g.cells[cells[k]].pts[i]]
  {
    out := [];
    var k := 0;
    while k < |cells|
      invariant 0 <= k <= |cells|
      invariant |out| == k
      invariant forall j :: 0 <= j < k ==>
                  && out[j].kind == g.cells[cells[j]].kind
                  && out[j].data == g.cells[cells[j]].data
                  && out[j].pts == Remap(g.cells[cells[j]].pts, m)
    {
      var cell := g.cells[cells[k]];
      out := out + [Cell(cell.kind, Remap(cell.pts, m), cell.data)];
      k := k + 1;
    }
  }

  /** Point `t` is used by at least one cell of the mesh. */
  ghost predicate Used(g: Grid, t: nat)
  {
    exists k, i :: 0 <= k < |g.cells| && 0 <= i < |g.cells[k].pts| && g.cells[k].pts[i] == t
  }

  /** Every point of the mesh is used by at least one of its cells. */
  ghost predicate NoOrphans(g: Grid)
  {
    forall t: nat :: t < |g.points| ==> Used(g, t)
  }

  /**
   The whole filter run. Besides the output mesh it returns the source ids of
   the output cells (`cells`, in the unspecified set order) and of the output
   points (`nodes`): output cell k is source cell cells[k], output point t is
   source point nodes[t].
   */
  method ExecuteEg(c: Config, polyhedraSupported: bool, g: Grid)
    returns (out: Grid, cells: seq<nat>, nodes: seq<nat>)
    requires WellFormed(g)
    // the output cells are exactly the selected cells, each once
    ensures Distinct(cells)
    ensures forall k :: 0 <= k < |cells| ==> cells[k] < |g.cells|
    ensures forall id: nat :: id in cells <==> id < |g.cells| && Selected(c, polyhedraSupported, g, id)
    ensures forall k :: 0 <= k < |cells| ==> IsVolume(g.cells[cells[k]].kind)
    // the output points are exactly the points those cells touch, each once
    ensures Distinct(nodes)
    ensures forall v: nat :: v in nodes <==> Touched(g, cells, v)
    ensures forall t :: 0 <= t < |nodes| ==> nodes[t] < |g.points|
    ensures |out.cells| == |cells| && |out.points| == |nodes|
    // no dangling connectivity, no orphan points
    ensures WellFormed(out)
    ensures NoOrphans(out)
    // coordinates, types and cell data are carried over
    ensures forall t :: 0 <= t < |nodes| ==> out.points[t] == g.points[nodes[t]]
    ensures forall k :: 0 <= k < |cells| ==>
              && out.cells[k].kind == g.cells[cells[k]].kind
              && out.cells[k].data == g.cells[cells[k]].data
              && |out.cells[k].pts| == |g.cells[cells[k]].pts|
    // each remapped point id leads back to the source cell's point at the same position
    ensures forall k, i :: 0 <= k < |cells| && 0 <= i < |out.cells[k].pts| ==>
              nodes[out.cells[k].pts[i]] == g.cells[cells[k]].pts[i]
  {
    var ex := SelectCells(c, polyhedraSupported, g);
    cells := Enumerate(ex);
    assert forall k :: 0 <= k < |cells| ==> cells[k] in ex;
    nodes := NodesFromCells(g, cells);
    var m := NodeMapping(nodes);
    TouchedPointsInRange(g, cells, nodes);
    CellPointsListed(g, cells, nodes);
    var pts := CopyPoints(g, nodes, m);
    var outCells := EmitCells(g, cells, m);
    out := Grid(pts, outCells);
    CompactedPointsUsed(g, cells, nodes, out);
  }

  /** Every point a listed cell touches is a point of the source mesh. */
  lemma TouchedPointsInRange(g: Grid, cells: seq<nat>, nodes: seq<nat>)
    requires WellFormed(g)
    requires forall k :: 0 <= k < |cells| ==> cells[k] < |g.cells|
    requires forall v: nat :: v in nodes <==> Touched(g, cells, v)
    ensures forall t :: 0 <= t < |nodes| ==> nodes[t] < |g.points|
  {
    forall t | 0 <= t < |nodes|
      ensures nodes[t] < |g.points|
    {
      assert Touched(g, cells, nodes[t]);
    }
  }

  /** Every point of every listed cell is in the node list. */
  lemma CellPointsListed(g: Grid, cells: seq<nat>, nodes: seq<nat>)
    requires forall k :: 0 <= k < |cells| ==> cells[k] < |g.cells|
    requires forall v: nat :: v in nodes <==> Touched(g, cells, v)
    ensures forall k, i :: 0 <= k < |cells| && 0 <= i < |g.cells[cells[k]].pts| ==> g.cells[cells[k]].pts[i] in nodes
  {
    forall k, i | 0 <= k < |cells| && 0 <= i < |g.cells[cells[k]].pts|
      ensures g.cells[cells[k]].pts[i] in nodes
    {
      assert Touched(g, cells, g.cells[cells[k]].pts[i]);
    }
  }

  /** Renumbering the listed cells through the node map leaves no output point unused. */
  lemma CompactedPointsUsed(g: Grid, cells: seq<nat>, nodes: seq<nat>, out: Grid)
    requires forall k :: 0 <= k < |cells| ==> cells[k] < |g.cells|
    requires Distinct(nodes)
    requires forall v: nat :: v in nodes <==> Touched(g, cells, v)
    requires |out.points| == |nodes| && |out.cells| == |cells|
    requires forall k :: 0 <= k < |cells| ==> |out.cells[k].pts| == |g.cells[cells[k]].pts|
    requires forall k, i :: 0 <= k < |cells| && 0 <= i < |out.cells[k].pts| ==> out.cells[k].pts[i] < |nodes|
    requires forall k, i :: 0 <= k < |cells| && 0 <= i < |out.cells[k].pts| ==>
               nodes[out.cells[k].pts[i]] == g.cells[cells[k]].pts[i]
    ensures NoOrphans(out)
  {
    forall t: nat | t < |out.points|
      ensures Used(out, t)
    {
      assert Touched(g, cells, nodes[t]);
      var k, i :| 0 <= k < |cells| && 0 <= i < |g.cells[cells[k]].pts| && g.cells[cells[k]].pts[i] == nodes[t];
      assert nodes[out.cells[k].pts[i]] == nodes[t];
    }
  }
}
