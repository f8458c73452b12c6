# Voxelisation and hexahedra-to-polyhedra conversion (cinolib), in Dafny

This project models two kernels of the cinolib geometry library and proves
properties of them.

**Voxelisation** (`include/cinolib/voxelize.cpp`). A regular grid of
`nx * ny * nz` voxels, addressed by a row-major serial index, gets one label
per voxel: BOUNDARY, INSIDE or OUTSIDE. There are two variants.

- *Surface mesh.* The labelling pass marks a voxel BOUNDARY when some mesh
  element meets its box, and UNKNOWN otherwise. The same pass records the last
  non-BOUNDARY voxel on the low shell (i, j or k equal to 0) as the flood seed.
  A breadth-first flood then spreads OUTSIDE from the seed through 6-neighbours,
  with BOUNDARY voxels acting as walls. A residual pass turns every voxel still
  UNKNOWN into INSIDE.
- *Implicit function.* Each voxel is classified from the signs of f at its 8
  corners. Three flags record whether some corner is positive, negative or
  zero; a NaN value sets none of them.

**Hexahedra to general polyhedra** (`meshes/hexmesh.h`). The input is a flat
list of hexahedra, 8 vertex ids each. The conversion produces:
- the list of unique quad faces, deduplicated on their sorted vertex ids;
- the 6 face ids of each hexahedron;
- a winding flag per face, true for the hexahedron that introduced the face.

The model also covers the constant face/edge tables of a hexahedron and the
`verts_per_*` / `num_*` accessors of the `Hexmesh` class.

Modules:
- `VoxelGrid` (grid.dfy): labels, dimensions, serial index, 6-neighbourhood.
- `Flood` (flood.dfy): the BFS flood and its reachability specification.
- `VoxelizeMesh` (voxelize_mesh.dfy): the surface-mesh voxelisation.
- `VoxelizeFunction` (voxelize_function.dfy): the implicit-function
  voxelisation.
- `FaceKey` (face_key.dfy): the sorted-id face key.
- `Hexmesh` (hexmesh.dfy): the tables and accessors.
- `HexToPolyhedra` (polyhedra.dfy): the conversion.

The face deduplication is proved for an arbitrary key function. The
conversion itself uses the sorted-id key, and `FaceKey.SameKeyIffSameVertices`
turns "same key" into "same vertex ids with the same multiplicities".

## Model

| member | source | states |
|---|---|---|
| VoxelGrid.Deserialize | include/cinolib/voxelize.cpp:68 | the serial index of a voxel decodes to coordinates inside the grid |
| VoxelGrid.DeserializeInverse | include/cinolib/voxelize.cpp:68 | encoding the decoded coordinates gives back the serial index |
| VoxelGrid.RoundTrip | include/cinolib/voxelize.cpp:95 | every in-grid coordinate triple encodes to an index below the grid size and decodes back to itself |
| VoxelGrid.N6 | include/cinolib/voxelize.cpp:96 | the neighbour list of a voxel has at most 6 entries, all inside the grid |
| VoxelGrid.N6Exact | include/cinolib/voxelize.cpp:96-98 | a voxel is in the neighbour list exactly when it differs from the visited voxel by one step along one axis |
| Flood.CountUnknownUpdate | include/cinolib/voxelize.cpp:100-103 | turning an UNKNOWN voxel OUTSIDE lowers the UNKNOWN count by one, which bounds the pushes and ends the loop |
| Flood.MarkUnknown | include/cinolib/voxelize.cpp:98-105 | visiting the neighbours turns exactly the UNKNOWN neighbours OUTSIDE and queues exactly them; no neighbour stays UNKNOWN; the UNKNOWN count falls by the number queued |
| Flood.VisitNeighbours | include/cinolib/voxelize.cpp:98-105 | the neighbour loop computes the same labels and queue as the reference MarkUnknown |
| Flood.MarkedReachable | include/cinolib/voxelize.cpp:98-104 | visiting a voxel reachable from the seed keeps every OUTSIDE voxel reachable from the seed through non-BOUNDARY voxels |
| Flood.VisitKeepsClosed | include/cinolib/voxelize.cpp:98-105 | if every OUTSIDE voxel outside the queue has no UNKNOWN neighbour before a visit, the same holds after it for the remaining queue plus the newly queued voxels |
| Flood.VisitKeepsQueue | include/cinolib/voxelize.cpp:91-103 | after a visit only UNKNOWN voxels have changed, to OUTSIDE; every queued voxel is OUTSIDE; OUTSIDE voxels stay OUTSIDE |
| Flood.VisitKeepsInvariant | include/cinolib/voxelize.cpp:89-106 | one iteration of the BFS loop preserves the loop invariant: queued voxels OUTSIDE, OUTSIDE voxels reachable, dequeued OUTSIDE voxels closed |
| Flood.ClosedIsComplete | include/cinolib/voxelize.cpp:89-106 | once no OUTSIDE voxel has an UNKNOWN neighbour (the queue is empty), every voxel reachable from the seed is OUTSIDE |
| Flood.FloodOutside | include/cinolib/voxelize.cpp:86-106 | the flood ends; a voxel is OUTSIDE exactly when it is 6-reachable from the seed through non-BOUNDARY voxels; every other voxel keeps its label, BOUNDARY included |
| VoxelizeMesh.BoundaryTest | include/cinolib/voxelize.cpp:70-78 | a voxel is flagged boundary exactly when some candidate element really intersects its box |
| VoxelizeMesh.LastSeed | include/cinolib/voxelize.cpp:80 | the seed is -1 exactly when no voxel is a non-BOUNDARY shell voxel; otherwise it is such a voxel and no later voxel is one |
| VoxelizeMesh.LabelCells | include/cinolib/voxelize.cpp:65-81 | the ascending labelling pass makes a voxel BOUNDARY exactly when it is intersected and UNKNOWN otherwise, and leaves the last written seed in flood_seed |
| VoxelizeMesh.MarkInside | include/cinolib/voxelize.cpp:110-116 | after the residual pass no voxel is UNKNOWN; former UNKNOWN voxels are INSIDE; all other labels are unchanged |
| VoxelizeMesh.Resolve | include/cinolib/voxelize.cpp:84-116 | flood plus residual pass give, per voxel: BOUNDARY if intersected, OUTSIDE if the flood ran and reaches it, INSIDE otherwise |
| VoxelizeMesh.VoxelizeAsWritten | include/cinolib/voxelize.cpp:65-116 | with the guard `flood_seed > 0`, no voxel is UNKNOWN, BOUNDARY means intersected, and a seed of -1 or 0 leaves no voxel OUTSIDE |
| VoxelizeMesh.Voxelize | include/cinolib/voxelize.cpp:65-116 | with the guard corrected to `>= 0`, the same labels with the flood run from every seed that exists |
| VoxelizeMesh.SeedZeroSkipsFlood | include/cinolib/voxelize.cpp:84 | on a 1x1x1 grid that no element touches, the only voxel is the seed at index 0, and it ends INSIDE as written but OUTSIDE with the corrected guard |
| VoxelizeMesh.SeedEndsOutside | include/cinolib/voxelize.cpp:80-86 | with the corrected guard, if any non-BOUNDARY shell voxel exists, a seed is found and it ends OUTSIDE |
| VoxelizeMesh.GuardsAgreeOffZero | include/cinolib/voxelize.cpp:84 | the two guards give the same grid whenever the seed is not 0 |
| VoxelizeFunction.ClassifyCorners | include/cinolib/voxelize.cpp:145-158 | the sign flags give OUTSIDE when some corner is positive and none negative or zero, INSIDE when some is negative and none positive or zero, BOUNDARY otherwise, never UNKNOWN; without NaN corners, OUTSIDE exactly when all 8 are positive and INSIDE exactly when all 8 are negative |
| VoxelizeFunction.OrderedSigns | include/cinolib/voxelize.cpp:152-158 | without NaN corners the flag rule is: OUTSIDE exactly when every corner is positive, INSIDE exactly when every corner is negative |
| VoxelizeFunction.NaNCornerIgnored | include/cinolib/voxelize.cpp:152-158 | a NaN corner sets no flag: seven positive corners and one NaN give OUTSIDE, eight NaN corners give BOUNDARY |
| VoxelizeFunction.Voxelize | include/cinolib/voxelize.cpp:142-159 | every voxel gets the corner-sign classification of its own corner values, and none is UNKNOWN |
| VoxelizeFunction.ZeroCornerIsBoundary | include/cinolib/voxelize.cpp:154-158 | a corner value exactly 0 makes the voxel BOUNDARY, whatever the other corners are |
| VoxelizeFunction.LabelDependsOnlyOnCorners | include/cinolib/voxelize.cpp:148-158 | two voxels with equal corner values get the same label, wherever they are |
| Hexmesh.HexaFacesWellFormed | meshes/hexmesh.h:48-56 | 6 face rows of 4 distinct local vertex ids, each below 8 |
| Hexmesh.HexaEdgesWellFormed | meshes/hexmesh.h:58-72 | 12 edge rows, each a pair of distinct local vertex ids below 8 |
| Hexmesh.SidesDistinct | meshes/hexmesh.h:48-56 | no directed side occurs twice among the face rows, so the faces are consistently oriented |
| Hexmesh.SidesAreEdges | meshes/hexmesh.h:48-72 | every side of a face row is an edge row, in one direction or the other |
| Hexmesh.EdgesWalkedBothWays | meshes/hexmesh.h:48-72 | every edge row is walked by one face row in its own direction and by another face row in the reverse direction |
| Hexmesh.VertsPerFace | meshes/hexmesh.h:146 | every face row has that many vertices |
| Hexmesh.VertsPerPoly | meshes/hexmesh.h:147 | the face rows use exactly the local vertex ids below that number, each on some face |
| Hexmesh.EdgesPerPoly | meshes/hexmesh.h:148 | equals the number of edge rows |
| Hexmesh.FacesPerPoly | meshes/hexmesh.h:149 | equals the number of face rows |
| Hexmesh.NumEdges | meshes/hexmesh.h:154 | the number of complete vertex pairs in the edge list |
| Hexmesh.NumFaces | meshes/hexmesh.h:155 | the number of complete quads in the face list, a trailing partial quad not counted |
| Hexmesh.NumPolys | meshes/hexmesh.h:156 | the number of complete hexahedra in the poly list, trailing ids not counted |
| Hexmesh.CountsOfFlattenedRecords | meshes/hexmesh.h:153-156 | n quads stored back to back give n faces, and n hexahedra give n polys |
| FaceKey.Insert | meshes/hexmesh.h:276 | inserting into a sorted list keeps it sorted and adds exactly the one element |
| FaceKey.Sort | meshes/hexmesh.h:275-276 | the key is sorted and is a permutation of the face's vertex ids |
| FaceKey.SortedUnique | meshes/hexmesh.h:275-277 | a sorted list is determined by its elements with their multiplicities |
| FaceKey.SameKeyIffSameVertices | meshes/hexmesh.h:275-277 | two faces have equal keys exactly when they have the same vertex ids with the same multiplicities |
| HexToPolyhedra.SlotFace | meshes/hexmesh.h:260-274 | in the nested loop order, face i of hexahedron h is visited as the (6h+i)-th face |
| HexToPolyhedra.AddFaceKeepsFreshIds | meshes/hexmesh.h:281-284 | a visit keeps every fresh id equal to the number of true flags before its slot, the map size when it was given |
| HexToPolyhedra.AddFaceKeepsInvariant | meshes/hexmesh.h:277-291 | one face visit keeps the map and face list in step, ids by key, and flags marking first occurrences |
| HexToPolyhedra.DedupFacesInvariant | meshes/hexmesh.h:277-291 | the invariant holds after any number of visits: faces.size() equals the map size, each key maps to the stored face with that key, and each fresh id counts the faces stored before it |
| HexToPolyhedra.DedupSameId | meshes/hexmesh.h:277-289 | two visited faces get the same id exactly when they have the same key |
| HexToPolyhedra.DedupWinding | meshes/hexmesh.h:279-290 | a flag is true exactly when no earlier face has the key; the fresh id is then the number of faces stored before the visit (`f_map.size()`) and indexes the face just stored |
| HexToPolyhedra.DedupIntroduced | meshes/hexmesh.h:279-290 | every stored face was introduced by a visit with flag true, and the true flags number the stored faces |
| HexToPolyhedra.DedupKeysDistinct | meshes/hexmesh.h:279-282 | distinct stored faces have distinct keys |
| HexToPolyhedra.AddFaceCounts | meshes/hexmesh.h:279-290 | a visit keeps the number of true flags equal to the number of stored faces |
| HexToPolyhedra.FlattenChunks | meshes/hexmesh.h:294-295 | concatenating the per-hexahedron runs gives back the flat visit order |
| HexToPolyhedra.Convert | meshes/hexmesh.h:257-296 | one face-id list and one flag list per complete hexahedron, 6 entries each, every id naming a stored face |
| HexToPolyhedra.FromHexahedra | meshes/hexmesh.h:248-297 | the same shape facts for the conversion keyed on sorted vertex ids |
| HexToPolyhedra.SlotOf | meshes/hexmesh.h:260-295 | entry i of hexahedron h in the output lists is the id and flag of the (6h+i)-th visit |
| HexToPolyhedra.SameIdIffSameKey | meshes/hexmesh.h:275-289 | two hexahedron faces get the same id exactly when they have the same key |
| HexToPolyhedra.SameIdIffSameVertices | meshes/hexmesh.h:275-289 | two hexahedron faces get the same id exactly when they have the same vertex ids, whatever their order |
| HexToPolyhedra.FirstSlotIsNew | meshes/hexmesh.h:260-279 | a visit is the first with its key exactly when no face of an earlier hexahedron, or earlier in the same hexahedron, has the key |
| HexToPolyhedra.WindingMarksNewFaces | meshes/hexmesh.h:279-290 | a winding flag is true exactly when no face visited before has the same key |
| HexToPolyhedra.NewFaceStoredAsMet | meshes/hexmesh.h:281-285 | a face with flag true is stored under its id in its own vertex order |
| HexToPolyhedra.FreshIdCountsNewFaces | meshes/hexmesh.h:279-285 | a face with flag true gets as id the number of true flags before it in visiting order, so the face list is in order of first appearance |
| HexToPolyhedra.FromHexahedraWinding | meshes/hexmesh.h:265-291 | a flag is true exactly when no face visited before has the same vertex ids, and that face is then stored as met |
| HexToPolyhedra.FacesAreUnique | meshes/hexmesh.h:275-283 | the stored faces have pairwise different vertex multisets (same ids with the same multiplicities) |
| HexToPolyhedra.EveryFaceIntroduced | meshes/hexmesh.h:279-286 | every stored face is named by some hexahedron face whose flag is true |
| HexToPolyhedra.FlagsCountFaces | meshes/hexmesh.h:279-290 | the number of true flags over all hexahedra equals the number of stored faces |
| HexToPolyhedra.TrailingIdsIgnored | meshes/hexmesh.h:257 | ids past the last complete hexahedron do not affect the result |
| HexToPolyhedra.PolyCountMatchesMesh | meshes/hexmesh.h:257 | the conversion yields as many polys as `num_polys` counts in the same id list |

## Left out

- Grid sizing: the bounding box, the voxel length and the `ceil` of floating-point ratios are not modelled. The dimensions are given as naturals.
- Voxel boxes and corner coordinates are not modelled. The surface-mesh variant gets, per voxel, the list of candidate elements and an exact intersection answer; the function variant gets the values of f at the 8 corners. Both are parameters.
- The octree build and query, and the box/triangle test, are foreign geometry code. They stand behind the `Geometry` parameter. The `dynamic_cast` to a triangle is assumed to succeed.
- `PARALLEL_FOR` is modelled as an ascending sequential loop. Under that order the unsynchronised `flood_seed` write leaves the last candidate written. Other interleavings are not modelled.
- `deserialize_3D_index` (serialize_index.h) and `voxel_n6`: their bodies are not shown. They are specified here as row-major decoding over `(dim[1], dim[2])` and as the in-grid face-adjacent voxels, listed in the order i-1, i+1, j-1, j+1, k-1, k+1. The flood result is stated as reachability, which does not depend on that order.
- The integer label constants of the voxel grid become the `Label` datatype.
- The source's `assert` that a dequeued voxel is OUTSIDE is a proved loop invariant here (`Flood.VisitKeepsQueue`), not a runtime check.
- Heap allocation (`new int[size]`), 32-bit index overflow of `size`, and allocation failure are not modelled. Indices are unbounded naturals.
- Clearing the output vectors before the conversion is implicit: the conversion returns fresh lists.
- `std::map` is a Dafny `map` from sorted key to id. `std::sort` is an insertion sort with the same result, a sorted permutation.
- Everything else in the `Hexmesh` class is not modelled: constructors, `load`/`save`, adjacency/normal/quality updates, colour setters, `export_surface`, `poly_subdivide`. Their bodies are in hexmesh.cpp or they are I/O and rendering code.
- VoxelizeFunction.ClassifyCorners: a `double` value of f is modelled as a `Sample`, an unbounded real or NaN. Only its comparisons with 0 matter, and an infinity compares like any real of its sign. Rounding in evaluating f is not modelled: the samples are given.
- Hexmesh.NumVerts: carries no contract beyond being the length of the vertex list, which is all `num_verts` does.

## Findings

| source | as written | input that shows it | evidently intended | confidence | as-written member | corrected member |
|---|---|---|---|---|---|---|
| include/cinolib/voxelize.cpp:84 | the flood runs only when `flood_seed > 0`, so a seed at serial index 0 (voxel (0,0,0)) is treated as "no seed" | a 1x1x1 grid that no element touches: voxel 0 is a non-BOUNDARY shell voxel and the seed, yet it ends INSIDE | `flood_seed >= 0` (the "no seed" value is -1), so the seed voxel and everything reachable from it become OUTSIDE | not executed | VoxelizeMesh.VoxelizeAsWritten, VoxelizeMesh.SeedZeroSkipsFlood | VoxelizeMesh.Voxelize, VoxelizeMesh.SeedEndsOutside |
