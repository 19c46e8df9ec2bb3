/**
 A part is a subset of the mesh's cells with a dense local numbering of the
 nodes they use. The part builders of the operation base class are not part
 of this model; what the watertightness check relies on is stated here as
 the contract `IsSurfacePart`, plus `EdgeCells`, the set of part cells that
 share an edge.
 */
module SurfacePart {
  import opened Mesh

  /**
   The part index: `nodes` maps local to global node ids, `g2l` is its
   inverse, `n2n[i]` lists the local neighbours of local node i, and `cells`
   lists the global ids of the part's cells.
   */
  datatype Part = Part(nodes: seq<nat>, g2l: map<nat, nat>, n2n: seq<seq<nat>>, cells: seq<nat>)

  /** A directed pair of global node ids. */
  datatype Edge = Edge(a: nat, b: nat)

  function Swap(e: Edge): Edge
  {
    Edge(e.b, e.a)
  }

  /** The part cells that contain both end points of `e`. */
  function EdgeCells(gcells: seq<Cell>, partCells: seq<nat>, e: Edge): set<nat>
  {
    set c: nat | c in partCells && c < |gcells| && e.a in gcells[c].pts && e.b in gcells[c].pts
  }

  /** The multiplicity of an edge: how many part cells share it. */
  function Mult(g: Grid, p: Part, e: Edge): nat
  {
    |EdgeCells(g.cells, p.cells, e)|
  }

  /** The sharing set does not depend on the direction of the edge. */
  lemma EdgeCellsSymmetric(g: Grid, p: Part, e: Edge)
    ensures EdgeCells(g.cells, p.cells, Swap(e)) == EdgeCells(g.cells, p.cells, e)
    ensures Mult(g, p, Swap(e)) == Mult(g, p, e)
  {
  }

  /** The shape every lookup of the scan needs: index maps of matching length and in-range entries. */
  ghost predicate Indexed(p: Part)
  {
    && |p.n2n| == |p.nodes|
    && (forall i, k :: 0 <= i < |p.n2n| && 0 <= k < |p.n2n[i]| ==> p.n2n[i][k] < |p.nodes|)
  }

  /** g2l is the inverse of the local-to-global node list. */
  ghost predicate InverseMaps(p: Part)
  {
    && Distinct(p.nodes)
    && (forall v :: v in p.g2l <==> v in p.nodes)
    && (forall i :: 0 <= i < |p.nodes| ==> p.g2l[p.nodes[i]] == i)
  }

  /** The part's cells are exactly the surface (non-volume) cells of the mesh, each listed once. */
  ghost predicate AllSurfaceCells(g: Grid, p: Part)
  {
    && Distinct(p.cells)
    && (forall c: nat :: c in p.cells <==> c < |g.cells| && !IsVolume(g.cells[c].kind))
  }

  /** The part's nodes are exactly the nodes its cells use. */
  ghost predicate NodesOfCells(g: Grid, p: Part)
  {
    forall v: nat :: v in p.nodes <==>
      exists c :: c in p.cells && 0 <= c < |g.cells| && v in g.cells[c].pts
  }

  /**
   n2n[i] lists, each once, other local nodes that share a part cell with
   local node i, and the relation is symmetric. A node that shares a cell
   with i need not be listed: the diagonal of a quad is not an edge.
   */
  ghost predicate AdjacentN2N(g: Grid, p: Part)
    requires Indexed(p)
  {
    && (forall i :: 0 <= i < |p.n2n| ==> Distinct(p.n2n[i]))
    && (forall i, j: nat :: 0 <= i < |p.n2n| && j in p.n2n[i] ==>
          && j < |p.n2n| && j != i && i in p.n2n[j]
          && EdgeCells(g.cells, p.cells, Edge(p.nodes[i], p.nodes[j])) != {})
  }

  /** The contract of the surface part the check builds before it scans. */
  ghost predicate IsSurfacePart(g: Grid, p: Part)
  {
    && WellFormed(g)
    && Indexed(p)
    && InverseMaps(p)
    && AllSurfaceCells(g, p)
    && NodesOfCells(g, p)
    && AdjacentN2N(g, p)
  }

  /** Node adjacency of a part is symmetric and irreflexive, and joins nodes that share a cell. */
  lemma N2NSymmetricIrreflexive(g: Grid, p: Part)
    requires Indexed(p) && AdjacentN2N(g, p)
    ensures forall i, j :: 0 <= i < |p.n2n| && j in p.n2n[i] ==> i in p.n2n[j]
    ensures forall i :: 0 <= i < |p.n2n| ==> i !in p.n2n[i]
    ensures forall i, j :: 0 <= i < |p.n2n| && j in p.n2n[i] ==> Mult(g, p, Edge(p.nodes[i], p.nodes[j])) >= 1
  {
  }
}
