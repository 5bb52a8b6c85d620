/**
 * The general properties of DeleteSpec applied to small meshes.
 */
module Scenarios {

  import opened MeshModel
  import opened DeleteSpec

  /** The caller's operator flag in these examples. */
  const OFLAG: FlagId := 1

  /** An isolated triangle: vertices 0, 1, 2, edges 0 = (0,1), 1 = (1,2), 2 = (2,0), no face, no vertex flag. */
  function Triangle(eflags: set<(Edge, FlagId)>): Mesh {
    Mesh({0, 1, 2}, map[0 := EdgeVerts(0, 1), 1 := EdgeVerts(1, 2), 2 := EdgeVerts(2, 0)], map[],
         {}, eflags, {})
  }

  lemma TriangleValid(m: Mesh)
    requires m == Triangle({(0, OFLAG), (1, OFLAG), (2, OFLAG)})
    ensures Valid(m)
    ensures forall v :: v in m.verts ==> (v, DEL_WIREVERT) !in m.vflags
  {
  }

  /**
   * DEL_EDGES with every edge flagged, on a mesh without isolated unflagged
   * vertices, empties the mesh: every edge goes, every face with it, and
   * every vertex loses its last edge.
   */
  lemma EdgesAllFlaggedEmpties(m: Mesh, fl: FlagId)
    requires Valid(m)
    requires fl != DEL_WIREVERT
    requires forall v :: v in m.verts ==> (v, DEL_WIREVERT) !in m.vflags
    requires forall e :: e in m.edges ==> (e, fl) in m.eflags
    requires forall v :: v in m.verts ==> (v, fl) in m.vflags || HasEdge(m, v)
    ensures var r := AfterRemoveTagged(m, fl, DelEdges);
      r.verts == {} && r.edges == map[] && r.faces == map[]
  {
    EdgesEffect(m, fl);
    AllFlaggedOutcome(m, fl, AfterRemoveTagged(m, fl, DelEdges));
  }

  /** The DEL_EDGES outcome, as EdgesEffect describes it, is empty when every edge is flagged. */
  lemma AllFlaggedOutcome(m: Mesh, fl: FlagId, r: Mesh)
    requires Valid(m)
    requires forall e :: e in m.edges ==> (e, fl) in m.eflags
    requires forall v :: v in m.verts ==> (v, fl) in m.vflags || HasEdge(m, v)
    requires forall e :: e in r.edges <==> e in m.edges && (e, fl) !in m.eflags
    requires forall f :: f in r.faces <==> f in m.faces && LoopEdges(m.faces[f]) !! FlaggedEdges(m, fl)
    requires forall v :: v in r.verts <==>
      v in m.verts && (HasEdge(r, v) || ((v, fl) !in m.vflags && v !in Endpoints(m, FlaggedEdges(m, fl))))
    ensures r.verts == {} && r.edges == map[] && r.faces == map[]
  {
    assert FlaggedEdges(m, fl) == m.edges.Keys;
    assert r.edges == map[];
    forall f | f in r.faces ensures false {
      FaceHasLiveEdge(m, f);
    }
    forall v | v in r.verts ensures false {
    }
  }

  /** DEL_EDGES on the isolated triangle with all three edges flagged removes all three edges and all three vertices. */
  lemma EdgesTriangleScenario()
    ensures var r := AfterRemoveTagged(Triangle({(0, OFLAG), (1, OFLAG), (2, OFLAG)}), OFLAG, DelEdges);
      r.verts == {} && r.edges == map[]
  {
    var m := Triangle({(0, OFLAG), (1, OFLAG), (2, OFLAG)});
    TriangleValid(m);
    assert HasEdge(m, 0) && HasEdge(m, 1) && HasEdge(m, 2) by {
      assert m.edges[0].v1 == 0 && m.edges[0].v2 == 1 && m.edges[1].v2 == 2;
    }
    EdgesAllFlaggedEmpties(m, OFLAG);
  }

  /**
   * The hazard the DEL_WIREVERT warning is about: when the caller's flag is
   * DEL_WIREVERT itself, DEL_EDGES on the triangle with only edge 0 flagged
   * removes vertex 1 although edge 1 still ends at it, and edge 1 with it.
   */
  lemma EdgesWireVertCollision()
    ensures var r := AfterRemoveTagged(Triangle({(0, DEL_WIREVERT)}), DEL_WIREVERT, DelEdges);
      1 !in r.verts && 1 !in r.edges
  {
    var m := Triangle({(0, DEL_WIREVERT)});
    var m0 := FlushEdgesToVerts(m, DEL_WIREVERT);
    assert 0 in FlaggedEdges(m, DEL_WIREVERT);
    assert (1, DEL_WIREVERT) in m0.vflags;
    var m1 := SweepEdges(m0, DEL_WIREVERT);
    var m2 := MarkWireVerts(m1, DEL_WIREVERT);
    assert 1 in FlaggedVerts(m2, DEL_WIREVERT);
  }

  /**
   * Two quadrilaterals sharing edge 1 = (1,2): face 0 runs 0-1-2-3 over
   * edges 0, 1, 2, 3; face 1 runs 2-1-4-5 over edges 1, 4, 5, 6. Only
   * face 1 is flagged.
   */
  function TwoQuads(): Mesh {
    Mesh({0, 1, 2, 3, 4, 5},
         map[0 := EdgeVerts(0, 1), 1 := EdgeVerts(1, 2), 2 := EdgeVerts(2, 3), 3 := EdgeVerts(3, 0),
             4 := EdgeVerts(1, 4), 5 := EdgeVerts(4, 5), 6 := EdgeVerts(5, 2)],
         map[0 := [Loop(0, 0), Loop(1, 1), Loop(2, 2), Loop(3, 3)],
             1 := [Loop(2, 1), Loop(1, 4), Loop(4, 5), Loop(5, 6)]],
         {}, {}, {(1, OFLAG)})
  }

  lemma TwoQuadsValid()
    ensures Valid(TwoQuads())
  {
    var m := TwoQuads();
    forall f, l | f in m.faces && l in m.faces[f] ensures LoopOk(m, l) {
    }
  }

  /** The corners of a quadrilateral boundary. */
  lemma QuadCorners(a: Loop, b: Loop, c: Loop, d: Loop)
    ensures LoopEdges([a, b, c, d]) == {a.e, b.e, c.e, d.e}
    ensures LoopVerts([a, b, c, d]) == {a.v, b.v, c.v, d.v}
  {
    var ls := [a, b, c, d];
    assert forall l :: l in ls <==> l == a || l == b || l == c || l == d;
  }

  /** The boundaries of the two quads, and the edges of face 0 end on face 0. */
  lemma TwoQuadsBoundaries()
    ensures var m := TwoQuads();
      && LoopEdges(m.faces[0]) == {0, 1, 2, 3} && LoopVerts(m.faces[0]) == {0, 1, 2, 3}
      && LoopEdges(m.faces[1]) == {1, 4, 5, 6} && LoopVerts(m.faces[1]) == {1, 2, 4, 5}
  {
    QuadCorners(Loop(0, 0), Loop(1, 1), Loop(2, 2), Loop(3, 3));
    QuadCorners(Loop(2, 1), Loop(1, 4), Loop(4, 5), Loop(5, 6));
  }

  /** The edges 0, 1, 2, 3 of the two quads end on the vertices 0, 1, 2, 3. */
  lemma TwoQuadsFace0Ends()
    ensures Endpoints(TwoQuads(), {0, 1, 2, 3}) <= {0, 1, 2, 3}
  {
    var m := TwoQuads();
    forall e | e in {0, 1, 2, 3} && e in m.edges ensures m.edges[e].v1 in {0, 1, 2, 3} && m.edges[e].v2 in {0, 1, 2, 3} {
    }
  }

  /** The hypotheses shared by the two-face lemmas below. */
  predicate TwoFaces(m: Mesh, fl: FlagId, kept: Face, gone: Face) {
    && Valid(m)
    && m.faces.Keys == {kept, gone} && (gone, fl) in m.fflags && (kept, fl) !in m.fflags
    && m.edges.Keys == LoopEdges(m.faces[kept]) + LoopEdges(m.faces[gone])
    && m.verts == LoopVerts(m.faces[kept]) + LoopVerts(m.faces[gone])
    && Endpoints(m, LoopEdges(m.faces[kept])) <= LoopVerts(m.faces[kept])
  }

  lemma TwoFacesBoundaries(m: Mesh, fl: FlagId, kept: Face, gone: Face)
    requires TwoFaces(m, fl, kept, gone)
    ensures KeptFaces(m, fl) == {kept} && FlaggedFaces(m, fl) == {gone}
    ensures kept in m.faces && forall f :: f in m.faces && f != kept ==> (f, fl) in m.fflags
    ensures BoundaryEdges(m, {kept}) == LoopEdges(m.faces[kept])
    ensures BoundaryVerts(m, {kept}) == LoopVerts(m.faces[kept])
    ensures BoundaryEdges(m, {gone}) == LoopEdges(m.faces[gone])
    ensures BoundaryVerts(m, {gone}) == LoopVerts(m.faces[gone])
  {
  }

  /** Two faces, one flagged: the edges left after DEL_FACES are exactly those of the unflagged face. */
  lemma FacesOneOfTwoEdges(m: Mesh, fl: FlagId, kept: Face, gone: Face)
    requires TwoFaces(m, fl, kept, gone)
    ensures m.edges.Keys - DoomedEdges(m, fl) == LoopEdges(m.faces[kept])
  {
    TwoFacesBoundaries(m, fl, kept, gone);
  }

  /** Two faces, one flagged: the vertices left after DEL_FACES are exactly those of the unflagged face. */
  lemma FacesOneOfTwoVerts(m: Mesh, fl: FlagId, kept: Face, gone: Face)
    requires TwoFaces(m, fl, kept, gone)
    ensures m.verts - DoomedVerts(m, fl) == LoopVerts(m.faces[kept])
  {
    TwoFacesBoundaries(m, fl, kept, gone);
    FacesOneOfTwoEdges(m, fl, kept, gone);
    var kv := LoopVerts(m.faces[kept]);
    forall v | v in m.verts && v !in kv ensures v in DoomedVerts(m, fl) {
      assert v !in Endpoints(m, m.edges.Keys - DoomedEdges(m, fl));
    }
  }

  /**
   * DEL_FACES on a mesh made of two faces, one flagged: what is left is
   * exactly the unflagged face with its own boundary edges and vertices.
   * Shared edges and vertices stay; those only the flagged face used go.
   */
  lemma FacesDeletesOneOfTwo(m: Mesh, fl: FlagId, kept: Face, gone: Face)
    requires TwoFaces(m, fl, kept, gone)
    ensures var r := AfterRemoveTagged(m, fl, DelFaces);
      && r.faces.Keys == {kept}
      && r.edges.Keys == LoopEdges(m.faces[kept])
      && r.verts == LoopVerts(m.faces[kept])
  {
    FacesEffect(m, fl);
    TwoFacesBoundaries(m, fl, kept, gone);
    FacesOneOfTwoEdges(m, fl, kept, gone);
    FacesOneOfTwoVerts(m, fl, kept, gone);
    OneOfTwoOutcome(m, fl, kept, AfterRemoveTagged(m, fl, DelFaces));
  }

  /** The DEL_FACES outcome, as FacesEffect describes it, gathered into the three key sets. */
  lemma OneOfTwoOutcome(m: Mesh, fl: FlagId, kept: Face, r: Mesh)
    requires kept in m.faces && (kept, fl) !in m.fflags
    requires forall f :: f in m.faces && f != kept ==> (f, fl) in m.fflags
    requires m.edges.Keys - DoomedEdges(m, fl) == LoopEdges(m.faces[kept])
    requires m.verts - DoomedVerts(m, fl) == LoopVerts(m.faces[kept])
    requires forall f :: f in r.faces <==> f in m.faces && (f, fl) !in m.fflags
    requires forall e :: e in r.edges <==> e in m.edges && e !in DoomedEdges(m, fl)
    requires forall v :: v in r.verts <==> v in m.verts && v !in DoomedVerts(m, fl)
    ensures r.faces.Keys == {kept} && r.edges.Keys == LoopEdges(m.faces[kept]) && r.verts == LoopVerts(m.faces[kept])
  {
  }

  /**
   * DEL_FACES on the two quads: face 1 goes, with its unshared edges 4, 5, 6
   * and its two unshared vertices 4, 5; face 0, the shared edge 1 and the
   * shared vertices 1, 2 stay.
   */
  lemma FacesTwoQuads()
    ensures var r := AfterRemoveTagged(TwoQuads(), OFLAG, DelFaces);
      r.faces.Keys == {0} && r.edges.Keys == {0, 1, 2, 3} && r.verts == {0, 1, 2, 3}
  {
    TwoQuadsValid();
    TwoQuadsBoundaries();
    TwoQuadsFace0Ends();
    FacesDeletesOneOfTwo(TwoQuads(), OFLAG, 0, 1);
  }
}
