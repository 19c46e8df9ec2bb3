# enGrid mesh kernels in Dafny

This project models two sequential kernels of enGrid's mesh library. Both are
plain loops over an unstructured mesh of points and typed cells.

- **Volume-cell extraction** (`vtkEgExtractVolumeCells`). The filter keeps a
  clip switch, a clip plane (origin X, normal N) and one switch per volume
  type. `ExecuteEg` selects every volume cell whose type switch is on. With
  clipping on, it drops every cell that has a point strictly below the plane,
  that is with (x − X)·N < 0. It then builds a compacted mesh. The selected
  cells are listed in hash-set order. The points they touch are gathered, and
  a global-to-local node map is built. Coordinates are copied into the new
  numbering. Each cell is re-emitted with remapped point ids, its original
  type and its cell data.
- **Surface watertightness check** (`CheckSurfaceIntegrity::isWaterTight`).
  It builds the part made of all surface cells. For every node and every one
  of its n2n neighbours, it counts the part cells N that share that edge. It
  tracks the least and greatest N, counts each N into a 1000-bucket histogram
  and collects the cells of every edge whose sharing set does not have two
  cells. It answers "watertight" when the least and greatest N are both 2.

Modules:

- `Mesh` (mesh.dfy) holds points as real 3-vectors and cells as type, point
  ids and attribute values. It also defines `IsVolume`: tetra, pyramid,
  wedge, hexahedron or polyhedron.
- `ExtractVolumeCells` (extract_volume_cells.dfy) holds the filter settings,
  the constructor, all setters and `ExecuteEg`, split into its steps.
- `SurfacePart` (surface_part.dfy) holds the part index (l2g nodes, g2l map,
  n2n lists, part cells) and the contract of the part builders. That contract
  is `IsSurfacePart`: the part is all surface cells, the nodes are exactly
  their points, and n2n is a symmetric, irreflexive, duplicate-free
  adjacency between nodes that share a part cell. n2n need not list every
  such pair, so edge-only adjacency that leaves out the diagonals of quads
  and polygons meets it. It also defines the edge sharing set `EdgeCells`, the
  contract of `getEdgeCells`.
- `EdgeVisits` (edge_visits.dfy) defines the sequence of (node, neighbour)
  pairs the scan visits. It also holds the counting facts about that
  sequence.
- `CheckSurfaceIntegrity` (check_surface_integrity.dfy) holds the scan
  itself, its verdicts and the facts that relate several calls.

Three behaviours of the code that a reader might not expect; the model
follows the code in each:

- When the toolkit has no polyhedron support, the code never consults the
  polyhedron switch. So a cell that `isVolume` calls a polyhedron is
  selected whatever the switch says. One might expect such cells never to
  be selected. `TypeEnabled` follows the code, and
  `PolysIgnoredWhenUnsupported` states it.
- The scan visits every n2n neighbour of every node. Each undirected edge is
  therefore visited twice, once from each end, not once. The histogram
  counts visits, so each bucket is even (`EdgeVisits.BucketsEven`).
- With no edges, the code returns a verdict read from bounds it did not
  write (see Findings), where "not watertight" would be the natural answer.

Inputs that stand in for code outside these two files:

- `polyhedraSupported` stands in for the toolkit-version `#if`.
- `stale` stands in for the values of `m_Nmin`/`m_Nmax` when
  `isWaterTight` is entered.
- The part index is an input that must meet `IsSurfacePart`. The part
  builders of the operation base class are not part of this model.
- `Enumerate`, `NodesFromCells` and `NodeMapping` have bodies written for
  this model that meet the contracts of `qCopy` over a `QSet`,
  `getNodesFromCells` and `createNodeMapping`. The bodies of those helpers
  are not part of this model.

## Model

| member | source | states |
|---|---|---|
| ExtractVolumeCells.NewAsWritten | src/libengrid/vtkEgExtractVolumeCells.cxx:27-37 | a new filter has clipping off, X = (0,0,0), N = (1,0,0) and the tetra, pyramid, wedge and hexahedron switches on; the polyhedron switch is whatever the memory held |
| ExtractVolumeCells.New | src/libengrid/vtkEgExtractVolumeCells.cxx:27-37 | the same defaults with the polyhedron switch on as well (corrected constructor) |
| ExtractVolumeCells.SetX | src/libengrid/vtkEgExtractVolumeCells.cxx:39-43 | sets the clip origin and changes nothing else |
| ExtractVolumeCells.SetN | src/libengrid/vtkEgExtractVolumeCells.cxx:45-49 | sets the clip normal and changes nothing else |
| ExtractVolumeCells.SetClippingOn | src/libengrid/vtkEgExtractVolumeCells.cxx:51-57 | clipping is on afterwards; no other setting changes |
| ExtractVolumeCells.SetClippingOff | src/libengrid/vtkEgExtractVolumeCells.cxx:59-65 | clipping is off afterwards; no other setting changes |
| ExtractVolumeCells.SetAllOn | src/libengrid/vtkEgExtractVolumeCells.cxx:68-74 | the four classic type switches are on; the polyhedron switch, the clip switch and the plane are unchanged |
| ExtractVolumeCells.SetAllOff | src/libengrid/vtkEgExtractVolumeCells.cxx:76-82 | the four classic type switches are off; the polyhedron switch, the clip switch and the plane are unchanged |
| ExtractVolumeCells.SetTetrasOn | src/libengrid/vtkEgExtractVolumeCells.cxx:84-90 | the tetra switch is on; nothing else changes |
| ExtractVolumeCells.SetTetrasOff | src/libengrid/vtkEgExtractVolumeCells.cxx:92-98 | the tetra switch is off; nothing else changes |
| ExtractVolumeCells.SetPyramidsOn | src/libengrid/vtkEgExtractVolumeCells.cxx:100-106 | the pyramid switch is on; nothing else changes |
| ExtractVolumeCells.SetPyramidsOff | src/libengrid/vtkEgExtractVolumeCells.cxx:108-114 | the pyramid switch is off; nothing else changes |
| ExtractVolumeCells.SetWedgesOn | src/libengrid/vtkEgExtractVolumeCells.cxx:116-122 | the wedge switch is on; nothing else changes |
| ExtractVolumeCells.SetWedgesOff | src/libengrid/vtkEgExtractVolumeCells.cxx:124-130 | the wedge switch is off; nothing else changes |
| ExtractVolumeCells.SetHexesOn | src/libengrid/vtkEgExtractVolumeCells.cxx:132-138 | the hexahedron switch is on; nothing else changes |
| ExtractVolumeCells.SetHexesOff | src/libengrid/vtkEgExtractVolumeCells.cxx:140-146 | the hexahedron switch is off; nothing else changes |
| ExtractVolumeCells.SetPolysOn | src/libengrid/vtkEgExtractVolumeCells.cxx:148-154 | the polyhedron switch is on; nothing else changes |
| ExtractVolumeCells.SetPolysOff | src/libengrid/vtkEgExtractVolumeCells.cxx:156-162 | the polyhedron switch is off; nothing else changes |
| ExtractVolumeCells.SettersIdempotent | src/libengrid/vtkEgExtractVolumeCells.cxx:51-162 | applying any switch setter twice gives the same settings as applying it once |
| ExtractVolumeCells.Setx | src/libengrid/vtkEgExtractVolumeCells.cxx:164-168 | sets the x component of the clip origin; its other components and all other settings are unchanged |
| ExtractVolumeCells.Sety | src/libengrid/vtkEgExtractVolumeCells.cxx:170-174 | sets the y component of the clip origin; nothing else changes |
| ExtractVolumeCells.Setz | src/libengrid/vtkEgExtractVolumeCells.cxx:176-180 | sets the z component of the clip origin; nothing else changes |
| ExtractVolumeCells.Setnx | src/libengrid/vtkEgExtractVolumeCells.cxx:182-186 | sets the x component of the clip normal; nothing else changes |
| ExtractVolumeCells.Setny | src/libengrid/vtkEgExtractVolumeCells.cxx:188-192 | sets the y component of the clip normal; nothing else changes |
| ExtractVolumeCells.Setnz | src/libengrid/vtkEgExtractVolumeCells.cxx:194-198 | sets the z component of the clip normal; nothing else changes |
| ExtractVolumeCells.SelectCells | src/libengrid/vtkEgExtractVolumeCells.cxx:203-243 | a cell is selected iff it is a volume cell, its type switch admits it, and, with clipping on, none of its points is strictly below the plane; selected cells are volume cells of enabled types lying wholly on the kept side |
| ExtractVolumeCells.ClipOnlyRemoves | src/libengrid/vtkEgExtractVolumeCells.cxx:226-241 | with the same type switches, the cells selected with clipping on are a subset of those selected with clipping off, and no more numerous |
| ExtractVolumeCells.PolysIgnoredWhenUnsupported | src/libengrid/vtkEgExtractVolumeCells.cxx:220-225 | without polyhedron support the polyhedron switch does not change the selection |
| ExtractVolumeCells.DisabledTypeNeverSelected | src/libengrid/vtkEgExtractVolumeCells.cxx:207-225 | after switching a type off no cell of that type is selected; for polyhedra only when polyhedra are supported |
| ExtractVolumeCells.DefaultSelectsEveryVolumeCell | src/libengrid/vtkEgExtractVolumeCells.cxx:27-37 | a filter from the corrected constructor selects exactly the volume cells of the mesh |
| ExtractVolumeCells.UninitialisedPolysSwitchDropsPolyhedron | src/libengrid/vtkEgExtractVolumeCells.cxx:27-37 | a filter from the constructor as written, with the unassigned switch false, drops a polyhedron that the corrected constructor keeps |
| ExtractVolumeCells.Enumerate | src/libengrid/vtkEgExtractVolumeCells.cxx:244-245 | the cell list holds each selected cell exactly once, in some order, and nothing else |
| ExtractVolumeCells.NodesFromCells | src/libengrid/vtkEgExtractVolumeCells.cxx:248 | the node list is duplicate-free and holds exactly the points used by the listed cells |
| ExtractVolumeCells.NodeMapping | src/libengrid/vtkEgExtractVolumeCells.cxx:249 | the global-to-local map is defined exactly on the listed nodes and is the inverse of the node list in both directions |
| ExtractVolumeCells.CopyPoints | src/libengrid/vtkEgExtractVolumeCells.cxx:250-255 | the output has one point per listed node, and output point `_nodes[id]` holds the coordinates of input point `id` |
| ExtractVolumeCells.EmitCells | src/libengrid/vtkEgExtractVolumeCells.cxx:256-267 | one output cell per listed cell, with the source cell's type, cell data and point count, and with i-th point `_nodes[pts[i]]` |
| ExtractVolumeCells.ExecuteEg | src/libengrid/vtkEgExtractVolumeCells.cxx:201-268 | the output cells are exactly the selected cells, each once; the output points are exactly the points they touch, each once; every remapped id is in range and every output point is used; coordinates, types and cell data carry over; each output point id leads back to the source cell's point at the same position |
| SurfacePart.EdgeCellsSymmetric | src/libengrid/checksurfaceintegrity.cpp:74 | the cells sharing edge (a, b) are the cells sharing (b, a), so both directions have the same multiplicity |
| SurfacePart.N2NSymmetricIrreflexive | src/libengrid/checksurfaceintegrity.cpp:61 | under the part builders' contract, n2n adjacency is symmetric, no node is its own neighbour, and every listed pair is shared by at least one part cell |
| EdgeVisits.InVisitsUpTo | src/libengrid/checksurfaceintegrity.cpp:65-72 | the scan visits pair (a, b) iff a is a part node and b one of its n2n neighbours |
| EdgeVisits.VisitsDistinct | src/libengrid/checksurfaceintegrity.cpp:65-72 | with distinct nodes and duplicate-free n2n lists, no pair is visited twice |
| EdgeVisits.CountsSumToLength | src/libengrid/checksurfaceintegrity.cpp:86 | when each visit adds one to its own bucket, the buckets add up to the number of visits |
| EdgeVisits.CountPositiveIff | src/libengrid/checksurfaceintegrity.cpp:86 | a bucket is non-empty iff some visited pair has that multiplicity |
| EdgeVisits.CountIsCard | src/libengrid/checksurfaceintegrity.cpp:86 | over distinct visits, bucket n is the number of distinct pairs of multiplicity n |
| EdgeVisits.SwapClosedEven | src/libengrid/checksurfaceintegrity.cpp:71 | a finite set of pairs closed under swapping the ends, with no pair its own swap, has even size |
| EdgeVisits.BucketsEven | src/libengrid/checksurfaceintegrity.cpp:65-86 | on a surface part every undirected edge is visited from both ends, so every histogram bucket is even |
| EdgeVisits.NoUnsharedPairs | src/libengrid/checksurfaceintegrity.cpp:71-74 | every visited pair is shared by at least one part cell, so bucket 0 stays empty |
| CheckSurfaceIntegrity.BoundsStep | src/libengrid/checksurfaceintegrity.cpp:75-82 | after a visit the first visit sets both bounds, later ones widen them, and both stay attained by visited pairs |
| CheckSurfaceIntegrity.HistStep | src/libengrid/checksurfaceintegrity.cpp:86 | after a visit of multiplicity N, bucket N has grown by one and every other bucket is unchanged |
| CheckSurfaceIntegrity.BadStep | src/libengrid/checksurfaceintegrity.cpp:87-89 | after a visit, the bad cells are the cells of every visited edge whose sharing set does not have two cells |
| CheckSurfaceIntegrity.Advance | src/libengrid/checksurfaceintegrity.cpp:74-89 | one visit of multiplicity N clears `first`, leaves N between the bounds and each bound either N or its old value, only widens bounds already set, adds one to bucket N and nothing to any other, and only ever adds bad cells, leaving them unchanged exactly when the sharing set has two cells or is already included |
| CheckSurfaceIntegrity.TallyStep | src/libengrid/checksurfaceintegrity.cpp:74-89 | one visit below the fatal limit keeps bounds, histogram and bad cells in step with the visited pairs |
| CheckSurfaceIntegrity.StartReflects | src/libengrid/checksurfaceintegrity.cpp:56-64 | on entry the histogram is all zero, the bad-cell set empty and the bounds the ones left by the previous call, which is the tally of no visits |
| CheckSurfaceIntegrity.ScanRow | src/libengrid/checksurfaceintegrity.cpp:71-90 | after one node's neighbours, the running values match all pairs visited so far, or the fatal check has fired on a visited pair with N ≥ 1000 |
| CheckSurfaceIntegrity.ScanAll | src/libengrid/checksurfaceintegrity.cpp:65-91 | after all nodes, the running values match every visited pair, or the fatal check has fired on a visited pair with N ≥ 1000 |
| CheckSurfaceIntegrity.ScanComplete | src/libengrid/checksurfaceintegrity.cpp:64-91 | once all pairs are visited: the bounds are the least and greatest multiplicity, or the entry values when nothing was visited; the buckets count the visits and sum to the total n2n length; every bucket is even and bucket 0 is empty; the bad cells are exactly those of edges not shared by two cells |
| CheckSurfaceIntegrity.IsWaterTight | src/libengrid/checksurfaceintegrity.cpp:53-104 | the fatal error happens iff some edge has N ≥ 1000; otherwise the verdict is true iff both bounds equal 2, with the bounds, histogram and bad cells as in ScanComplete, and the entry bounds are kept when no pair is visited |
| CheckSurfaceIntegrity.VerdictAllTwo | src/libengrid/checksurfaceintegrity.cpp:99-103 | after a scan that visited something, the bounds are both 2 iff every visited edge is shared by exactly two cells |
| CheckSurfaceIntegrity.VerdictHistogram | src/libengrid/checksurfaceintegrity.cpp:83-86 | every visited edge has multiplicity 2 iff bucket 2 is the only non-empty bucket |
| CheckSurfaceIntegrity.IsWaterTightChecked | src/libengrid/checksurfaceintegrity.cpp:64-103 | the corrected verdict: true iff at least one edge is visited and every visited edge is shared by exactly two cells; equivalently bucket 2 is the only non-empty bucket; then there are no bad cells |
| CheckSurfaceIntegrity.StaleBoundsExample | src/libengrid/checksurfaceintegrity.cpp:99-103 | the check as written calls a mesh with no surface cells watertight when the previous call left both bounds at 2 |
| CheckSurfaceIntegrity.PillowIsSurfacePart | src/libengrid/checksurfaceintegrity.cpp:54-62 | a closed surface of two quads whose n2n lists only the quad edges, leaving out the diagonal pair (0, 2) although both nodes lie on quad 0, meets the part builders' contract |
| CheckSurfaceIntegrity.PillowEdgesShared | src/libengrid/checksurfaceintegrity.cpp:74 | on that surface every edge between its nodes is shared by both quads |
| CheckSurfaceIntegrity.PillowWatertight | src/libengrid/checksurfaceintegrity.cpp:64-103 | on that surface with edge-only n2n the check finishes, reports watertight and collects no bad cells |
| CheckSurfaceIntegrity.CheckTwice | src/libengrid/checksurfaceintegrity.cpp:55-57 | histogram and bad cells are reset on entry, so a second call on the same mesh, from the bounds the first left, gives the same outcome |
| CheckSurfaceIntegrity.SameOutcome | src/libengrid/checksurfaceintegrity.cpp:53-104 | the check's contract determines its outcome: two outcomes meeting it for the same input are equal |
| CheckSurfaceIntegrity.CoordinatesIgnored | src/libengrid/checksurfaceintegrity.cpp:65-97 | the modelled outcome depends on the mesh's cells only: two meshes with the same cells but different coordinates get the same outcome; the diagnostics at lines 66-70 and 93-97 only print |

## Left out

- Floating point: coordinates are reals, so the clip test is exact. `checkVector` (the NaN/Inf test) and `cellVA` (signed area or volume) only print diagnostics. They are not modelled; `CoordinatesIgnored` states that the modelled outcome depends on the mesh's cells only.
- Console and debug output: `CheckSurfaceIntegrity::operate` printing the non-empty buckets and the bad cells, and the `qDebug` messages in `isWaterTight`.
- The toolkit pipeline: `Modified()` and the modification time it bumps, `vtkStandardNewMacro`, `allocateGrid`, `InsertNextCell` and the `new[]`/`delete[]` buffer. The output mesh is an immutable value. The setters' "only write on change" guard affects only `Modified()`, so the model's settings are the same on both branches.
- The fatal `EG_BUG` abort itself: the model returns `MultiplicityOverflow` instead of ending the program.
- Integer widths: `vtkIdType` and `int` ids and counts are unbounded naturals. Meshes large enough to overflow them are not modelled.
- The part builders of the operation base class (`setAllSurfaceCells`, `getPartNodes`, `getPartLocalNodes`, `getPartN2N`, `getPartCells`) and `getEdgeCells`: only their contracts are modelled, as `IsSurfacePart` and `EdgeCells`. The n2n part of that contract asks only that listed neighbours share a cell and list each other back, not that every node sharing a cell is listed.
- ExtractVolumeCells.NodesFromCells: states the set of nodes and that it has no duplicates, but not their order, because the order `getNodesFromCells` produces is not part of this model.
- ExtractVolumeCells.Enumerate: states no order, because a `QSet` is iterated in an unspecified order.
- guimainwindow.h: the Qt main window, render pipeline, file dialogs and global busy lock are GUI and I/O plumbing.

## Findings

| source | as written | input that shows it | evidently intended | confidence | as-written member | corrected member |
|---|---|---|---|---|---|---|
| src/libengrid/vtkEgExtractVolumeCells.cxx:27-37 | the constructor assigns four type switches but never `m_ExtrPolys`, which `ExecuteEg` reads at line 222 | a fresh filter whose memory holds false for the switch, toolkit with polyhedra, mesh of one polyhedron: the polyhedron is not extracted (`UninitialisedPolysSwitchDropsPolyhedron`) | the polyhedron switch starts on like the other type switches, so a fresh filter extracts every volume cell (`DefaultSelectsEveryVolumeCell`) | not executed; medium | ExtractVolumeCells.NewAsWritten | ExtractVolumeCells.New |
| src/libengrid/checksurfaceintegrity.cpp:64-103 | when no pair is visited, `first` stays true, `m_Nmin`/`m_Nmax` keep the previous call's values, and the verdict at line 99 reads them | a mesh with no surface cells checked right after a watertight mesh is reported watertight (`StaleBoundsExample`) | a surface without edges is not watertight | not executed; high | CheckSurfaceIntegrity.IsWaterTight | CheckSurfaceIntegrity.IsWaterTightChecked |
