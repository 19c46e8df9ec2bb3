/**
 The unstructured mesh both kernels work on: points with real coordinates,
 cells with a type tag, an ordered list of point ids and their per-cell
 attributes (boundary code and the like).
 */
module Mesh {

  /** A 3D vector. Coordinates are modelled as reals, not doubles. */
  datatype Vec3 = Vec3(x: real, y: real, z: real)

  function Sub(a: Vec3, b: Vec3): Vec3
  {
    Vec3(a.x - b.x, a.y - b.y, a.z - b.z)
  }

  function Dot(a: Vec3, b: Vec3): real
  {
    a.x * b.x + a.y * b.y + a.z * b.z
  }

  /** The cell-type tags a mesh can carry. */
  datatype CellType =
    | Line | Triangle | Quad | Polygon
    | Tetra | Pyramid | Wedge | Hexahedron | Polyhedron

  /** Volume cells enclose a 3D region; every other type is a surface or boundary cell. */
  predicate IsVolume(t: CellType)
  {
    t == Tetra || t == Pyramid || t == Wedge || t == Hexahedron || t == Polyhedron
  }

  /** A cell: type tag, point ids in their original order, and the cell's attribute values. */
  datatype Cell = Cell(kind: CellType, pts: seq<nat>, data: seq<int>)

  /** A mesh; the index of a point or cell in its sequence is its global id. */
  datatype Grid = Grid(points: seq<Vec3>, cells: seq<Cell>)

  /** Every point id used by a cell names an existing point. */
  ghost predicate WellFormed(g: Grid)
  {
    forall c, i :: 0 <= c < |g.cells| && 0 <= i < |g.cells[c].pts| ==> g.cells[c].pts[i] < |g.points|
  }

  /** `x` lies strictly on the negative side of the plane through `origin` with normal `normal`. */
  predicate BelowPlane(x: Vec3, origin: Vec3, normal: Vec3)
  {
    Dot(Sub(x, origin), normal) < 0.0
  }

  /** No duplicates in a sequence of ids. */
  ghost predicate Distinct(s: seq<nat>)
  {
    forall i, j :: 0 <= i < j < |s| ==> s[i] != s[j]
  }
}
