# Tagged deletion in BMesh

This project models the deletion engine of Blender's BMesh kernel,
`source/blender/bmesh/intern/bmesh_delete.c`, and proves properties of the
model in Dafny. An operator marks the elements it wants removed with one
operator flag. It then calls `BMO_remove_tagged_context(bm, oflag, type)`.
That function uses the deletion context `type` to decide which flagged
elements, and which elements around them, the kernel kills.

The project is in four files.

- `mesh_model.dfy` (module `MeshModel`) is the mesh as the engine sees it.
  - Vertices, edges with two endpoints, and faces whose boundary is a
    non-empty sequence of loops. A loop pairs a vertex with an edge
    at that vertex; the order of the loops around the face is not modelled.
  - One operator-flag store per element kind.
  - The consistency invariant `Valid`: no live element refers to a removed
    one.
  - The cascade of the kernel's kill primitives, as functions on sets. A
    killed edge takes the faces built on it with it. A killed vertex takes
    its edges and their faces.
- `delete_spec.dfy` (module `DeleteSpec`) describes every phase of the
  engine as a function on mesh values:
  - the three sweeps `bmo_remove_tagged_faces/edges/verts`;
  - the flag-flushing and marking loops of `DEL_EDGES` and `DEL_FACES`;
  - the six-way dispatch `AfterRemoveTagged`.
  It also holds the lemmas that say what each context removes.
- `bmesh_delete.dfy` (module `BMeshDelete`) is the engine itself.
  - Class `BMesh` holds the mesh in fields that the methods update in place.
  - Each loop of the C code becomes a `while` loop over a snapshot of the
    element set it walks. Each is proved to end in the state the matching
    `DeleteSpec` function describes, and to keep `Valid`.
  - The boundary walks `do { … } while ((l_iter = l_iter->next) != l_first)`
    become loops over the boundary sequence.
- `scenarios.dfy` (module `Scenarios`) applies the general lemmas to small
  meshes:
  - an isolated triangle under `DEL_EDGES`;
  - the hazard of passing `DEL_WIREVERT` as the operator flag;
  - two quads sharing an edge under `DEL_FACES`.

What the contexts do, as proved:

- `DEL_VERTS` kills the flagged vertices, with their edges and those
  edges' faces.
- `DEL_EDGESFACES` kills the flagged edges and the faces built on them.
  No vertex goes.
- `DEL_ONLYFACES` kills the flagged faces only. Every edge and vertex
  stays, even when it is left unused.
- `DEL_ONLYTAGGED` kills, in this order, the flagged faces, the flagged
  edges and the flagged vertices. No flag moves between element kinds.
- `DEL_EDGES` kills the flagged edges and their faces. A vertex goes
  exactly when no edge is left at it and it was flagged on entry or ended a
  flagged edge. This holds when `oflag` differs from the engine's private
  flag `DEL_WIREVERT` and no vertex carries `DEL_WIREVERT` on entry.
- `DEL_FACES` kills the flagged faces. Two kinds of element go with them:
  - the edges used by a flagged face, or flagged themselves, that no
    unflagged face uses;
  - the vertices in the same position that no surviving edge still
    reaches.
  Every vertex and edge on the boundary of an unflagged face survives.
- The `switch` has no `default` branch, so any other `type` leaves the
  mesh unchanged. That case is `OtherContext`.
- Every context keeps the mesh consistent and only removes elements.
  Survivors keep their endpoints and boundaries.

## Model

| member | source | states |
|---|---|---|
| BMeshDelete.BMesh.KillFace | source/blender/bmesh/intern/bmesh_delete.c:52 | `BM_face_kill` removes exactly that face and keeps the mesh consistent |
| BMeshDelete.BMesh.KillEdge | source/blender/bmesh/intern/bmesh_delete.c:64 | `BM_edge_kill` removes the edge and exactly the faces whose boundary uses it, and keeps the mesh consistent |
| BMeshDelete.BMesh.KillVert | source/blender/bmesh/intern/bmesh_delete.c:76 | `BM_vert_kill` removes the vertex, its incident edges and their faces, and keeps the mesh consistent |
| MeshModel.WithoutFaces | source/blender/bmesh/intern/bmesh_delete.c:52 | killing faces removes exactly those faces and changes nothing else |
| MeshModel.WithoutEdges | source/blender/bmesh/intern/bmesh_delete.c:64 | killing edges removes exactly those edges and exactly the faces with a loop on one of them; vertices and flags are unchanged |
| MeshModel.WithoutVerts | source/blender/bmesh/intern/bmesh_delete.c:76 | killing vertices removes exactly those vertices and exactly the edges ending at one, and exactly the faces using one of those edges; the surviving faces are unchanged; flags are unchanged |
| MeshModel.WithoutFacesValid | source/blender/bmesh/intern/bmesh_delete.c:52 | killing any set of faces leaves a consistent mesh |
| MeshModel.WithoutEdgesValid | source/blender/bmesh/intern/bmesh_delete.c:64 | killing any set of edges, with their faces, leaves a consistent mesh |
| MeshModel.WithoutVertsValid | source/blender/bmesh/intern/bmesh_delete.c:76 | killing any set of vertices, with their edges and faces, leaves a consistent mesh |
| MeshModel.WithoutFacesTwice | source/blender/bmesh/intern/bmesh_delete.c:50-54 | killing faces one batch after another equals killing their union, so the sweep's result does not depend on iteration order |
| MeshModel.WithoutEdgesTwice | source/blender/bmesh/intern/bmesh_delete.c:62-66 | the same for edges, cascade included |
| MeshModel.WithoutVertsTwice | source/blender/bmesh/intern/bmesh_delete.c:74-78 | the same for vertices, cascade included |
| MeshModel.FaceHasLiveEdge | source/blender/bmesh/intern/bmesh_delete.c:150-157 | the boundary of a live face of a consistent mesh uses at least one live edge, so the boundary walk has a first loop |
| DeleteSpec.SweepFaces | source/blender/bmesh/intern/bmesh_delete.c:45-55 | a face survives iff it was live and unflagged; survivors, edges, vertices and every flag store are unchanged |
| DeleteSpec.SweepEdges | source/blender/bmesh/intern/bmesh_delete.c:57-67 | an edge survives iff it was live and unflagged; a face survives iff its boundary uses no flagged edge; vertices and flags are unchanged |
| DeleteSpec.SweepVerts | source/blender/bmesh/intern/bmesh_delete.c:69-79 | a vertex survives iff it was live and unflagged; an edge survives iff neither endpoint was flagged; a face survives iff none of its edges had a flagged endpoint. This is the whole of `DEL_VERTS` (lines 100-105) |
| DeleteSpec.FlushEdgesToVerts | source/blender/bmesh/intern/bmesh_delete.c:108-114 | both endpoints of every flagged edge get the flag; no other vertex flag appears; every earlier vertex flag is kept; nothing else changes |
| DeleteSpec.MarkWireVerts | source/blender/bmesh/intern/bmesh_delete.c:116-120 | every live flagged vertex without an edge (`!v->e`) gets `DEL_WIREVERT`, no other vertex gets any new flag, and every earlier vertex flag is kept |
| DeleteSpec.MarkFaceBoundaries | source/blender/bmesh/intern/bmesh_delete.c:147-159 | every vertex and edge on the boundary of a flagged face gets the flag; every flag gained is `fl` on such a boundary vertex or edge; no flag is lost; the mesh is unchanged |
| DeleteSpec.UnmarkKeptFaceBoundaries | source/blender/bmesh/intern/bmesh_delete.c:160-172 | every vertex and edge on the boundary of an unflagged face loses the flag; every flag lost is `fl` on such a boundary vertex or edge; no flag is gained; the mesh is unchanged |
| DeleteSpec.UnmarkKeptEdgeVerts | source/blender/bmesh/intern/bmesh_delete.c:173-179 | both endpoints of every unflagged edge lose the flag; every flag lost is `fl` on such an endpoint; no flag is gained; the mesh is unchanged |
| DeleteSpec.FacesClosure | source/blender/bmesh/intern/bmesh_delete.c:147-179 | the three marking loops change only vertex and edge flags; what they leave is stated by `DeleteSpec.FacesClosureFlags` |
| DeleteSpec.AfterRemoveTagged | source/blender/bmesh/intern/bmesh_delete.c:99-189 | every context only removes elements, never touches face flags, touches edge flags only in `DEL_FACES`, and an unrecognised context changes nothing |
| DeleteSpec.RemoveTaggedValid | source/blender/bmesh/intern/bmesh_delete.c:89-190 | in every context, including an unrecognised one, a consistent mesh stays consistent |
| DeleteSpec.RemoveTaggedOnlyRemoves | source/blender/bmesh/intern/bmesh_delete.c:89-190 | in every context the surviving vertices, edges and faces are a subset of the original ones, with the same endpoints and boundaries |
| DeleteSpec.OnlyFacesEffect | source/blender/bmesh/intern/bmesh_delete.c:131-136 | `DEL_ONLYFACES` removes exactly the flagged faces and keeps every edge and vertex |
| DeleteSpec.EdgesFacesEffect | source/blender/bmesh/intern/bmesh_delete.c:125-130 | `DEL_EDGESFACES` removes exactly the flagged edges and the faces using one, and keeps every vertex |
| DeleteSpec.OnlyTaggedEffect | source/blender/bmesh/intern/bmesh_delete.c:137-144 | `DEL_ONLYTAGGED` leaves all flag stores unchanged. A vertex survives iff unflagged. An edge survives iff unflagged and not incident to a flagged vertex. A face survives iff unflagged and it uses neither kind of removed edge |
| DeleteSpec.LooseVertsHaveNoEdges | source/blender/bmesh/intern/bmesh_delete.c:117-121 | the loose vertices given `DEL_WIREVERT` have no incident edge, so killing them kills no edge or face |
| DeleteSpec.WireVertsAreLoose | source/blender/bmesh/intern/bmesh_delete.c:116-121 | with `oflag != DEL_WIREVERT` and no `DEL_WIREVERT` on entry, the vertices carrying `DEL_WIREVERT` after marking are exactly the loose flagged ones |
| DeleteSpec.EdgesSweepsLoose | source/blender/bmesh/intern/bmesh_delete.c:115-121 | under the same hypotheses, the final vertex sweep of `DEL_EDGES` removes exactly the loose flagged vertices and no edge or face |
| DeleteSpec.EdgesEffect | source/blender/bmesh/intern/bmesh_delete.c:106-124 | under the same hypotheses, `DEL_EDGES` removes exactly the flagged edges and the faces using one. A vertex survives iff an edge is left at it, or it was neither flagged nor an endpoint of a flagged edge |
| DeleteSpec.EdgesEndpointFate | source/blender/bmesh/intern/bmesh_delete.c:109-121 | an endpoint of a flagged edge is removed iff no edge is left at it afterwards |
| DeleteSpec.FacesClosureFlags | source/blender/bmesh/intern/bmesh_delete.c:147-179 | after the three marking loops of `DEL_FACES`, exactly the doomed edges and vertices carry the flag, and only vertex and edge flags changed. An edge is doomed when it is flagged or used by a flagged face, and no unflagged face uses it. A vertex is doomed when it is in the same position and is not an endpoint of a surviving edge |
| DeleteSpec.FacesEffect | source/blender/bmesh/intern/bmesh_delete.c:145-188 | `DEL_FACES` removes exactly the flagged faces, the doomed edges and the doomed vertices |
| DeleteSpec.FacesKeepsKeptBoundaries | source/blender/bmesh/intern/bmesh_delete.c:160-172 | under `DEL_FACES` every vertex and edge on the boundary of an unflagged face survives |
| DeleteSpec.FacesKeepsUnflaggedEdgeEnds | source/blender/bmesh/intern/bmesh_delete.c:173-179 | under `DEL_FACES` an edge left unflagged by the first two loops, such as a wire edge, survives with both endpoints |
| DeleteSpec.FacesRemovesExclusiveEdges | source/blender/bmesh/intern/bmesh_delete.c:147-183 | under `DEL_FACES` an edge of a flagged face that only flagged faces use is removed |
| DeleteSpec.FacesRemovesExclusiveVerts | source/blender/bmesh/intern/bmesh_delete.c:147-185 | under `DEL_FACES` a vertex of a flagged face is removed when only flagged faces use it and all its edges are removed |
| DeleteSpec.ExclusiveVertDoomed | source/blender/bmesh/intern/bmesh_delete.c:160-179 | such a vertex keeps the flag through both unmarking loops |
| BMeshDelete.BMesh.constructor | source/blender/bmesh/intern/bmesh_delete.c:89 | builds the mutable mesh from a consistent mesh value |
| BMeshDelete.BMesh.RemoveTaggedFaces | source/blender/bmesh/intern/bmesh_delete.c:45-55 | the mutable sweep ends in `SweepFaces` of the entry state and keeps the mesh consistent |
| BMeshDelete.BMesh.RemoveTaggedEdges | source/blender/bmesh/intern/bmesh_delete.c:57-67 | the mutable sweep ends in `SweepEdges` of the entry state and keeps the mesh consistent |
| BMeshDelete.BMesh.RemoveTaggedVerts | source/blender/bmesh/intern/bmesh_delete.c:69-79 | the mutable sweep ends in `SweepVerts` of the entry state and keeps the mesh consistent |
| BMeshDelete.BMesh.FlushEdgesToVerts | source/blender/bmesh/intern/bmesh_delete.c:108-114 | the flush loop ends in `DeleteSpec.FlushEdgesToVerts` of the entry state |
| BMeshDelete.BMesh.MarkWireVerts | source/blender/bmesh/intern/bmesh_delete.c:116-120 | the loose-vertex loop ends in `DeleteSpec.MarkWireVerts` of the entry state |
| BMeshDelete.BMesh.EnableBoundaryFlags | source/blender/bmesh/intern/bmesh_delete.c:150-157 | the boundary walk flags exactly the boundary's vertices and edges and changes nothing else |
| BMeshDelete.BMesh.DisableBoundaryFlags | source/blender/bmesh/intern/bmesh_delete.c:163-170 | the boundary walk unflags exactly the boundary's vertices and edges and changes nothing else |
| BMeshDelete.BMesh.MarkFaceBoundaries | source/blender/bmesh/intern/bmesh_delete.c:147-159 | the loop ends in `DeleteSpec.MarkFaceBoundaries` of the entry state |
| BMeshDelete.BMesh.UnmarkKeptFaceBoundaries | source/blender/bmesh/intern/bmesh_delete.c:160-172 | the loop ends in `DeleteSpec.UnmarkKeptFaceBoundaries` of the entry state |
| BMeshDelete.BMesh.UnmarkKeptEdgeVerts | source/blender/bmesh/intern/bmesh_delete.c:173-179 | the loop ends in `DeleteSpec.UnmarkKeptEdgeVerts` of the entry state |
| BMeshDelete.BMesh.RemoveTaggedContext | source/blender/bmesh/intern/bmesh_delete.c:89-190 | the engine ends in `AfterRemoveTagged` of the entry state and keeps the mesh consistent; an unrecognised context changes nothing |
| Scenarios.EdgesAllFlaggedEmpties | source/blender/bmesh/intern/bmesh_delete.c:106-124 | `DEL_EDGES` with every edge flagged, and no unflagged isolated vertex, empties the mesh |
| Scenarios.EdgesTriangleScenario | source/blender/bmesh/intern/bmesh_delete.c:106-124 | on an isolated triangle with all three edges flagged, `DEL_EDGES` removes all edges and all vertices |
| Scenarios.EdgesWireVertCollision | source/blender/bmesh/intern/bmesh_delete.c:81-87 | with `oflag == DEL_WIREVERT`, `DEL_EDGES` on a triangle with one flagged edge also removes the neighbouring edge and its vertex, the hazard the warning at line 87 is about |
| Scenarios.FacesDeletesOneOfTwo | source/blender/bmesh/intern/bmesh_delete.c:145-188 | on a mesh of two faces, one flagged, `DEL_FACES` leaves exactly the unflagged face with its own boundary edges and vertices |
| Scenarios.FacesTwoQuads | source/blender/bmesh/intern/bmesh_delete.c:145-188 | on two quads sharing an edge, with one flagged, `DEL_FACES` keeps the other quad, the shared edge and both shared vertices. It removes the three unshared edges and the two unshared vertices of the flagged quad |

## Left out

- Operator flags are modelled as independent identifiers. Each is one bit of the element's flag word. `oflag` is a single bit, and no bitmask of several bits is tested at once.
- The enum values of `DEL_VERTS` … `DEL_FACES` come from a header that is not part of this model. The context is a datatype, and `OtherContext` stands for every other integer.
- Kernel internals are left out: the loop and radial cycles, the disk cycles, memory release, and the upkeep of `v->e`. A face boundary is the sequence of its loops. `v->e` is set exactly when some live edge ends at the vertex (`HasEdge`).
- Iteration order of `BM_ITER_MESH` and `BM_ITER_MESH_MUTABLE` is not modelled. Each loop walks a snapshot of the element set in an arbitrary order, and the proofs show that the result does not depend on that order.
- The kill primitives do not clear the flags of the elements they remove. Those flags stay in the store and are never read again, because every loop walks live elements only.
- EdgesEffect: proved only when `oflag != DEL_WIREVERT` and no vertex carries `DEL_WIREVERT` on entry. Without these conditions the outcome is different, as `Scenarios.EdgesWireVertCollision` shows.
- EdgesSweepsLoose: the same two conditions.
- WireVertsAreLoose: the same two conditions.
- EdgesEndpointFate: the same two conditions.
- FacesKeepsKeptBoundaries, FacesRemovesExclusiveEdges and FacesRemovesExclusiveVerts describe single elements. `FacesEffect` is the complete description of `DEL_FACES`.
- `writeframeserver.c` and `BKE_writeframeserver.h` are not part of this model. They serve frames over a socket and have no part in deletion.
