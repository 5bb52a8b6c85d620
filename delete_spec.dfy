/**
 * What `BMO_remove_tagged_context` does to a mesh, phase by phase, as
 * functions on mesh values, and the properties of each deletion context.
 *
 * Every loop of the engine either tests one element kind's flags and
 * changes another kind's (so its iterations do not interfere), or kills
 * elements of one kind (and kills of one kind never remove another element
 * of the same kind). Each phase therefore has a set-level description that
 * does not depend on iteration order; the class in BMeshDelete proves its
 * loops against these functions.
 */
module DeleteSpec {

  import opened MeshModel

  /** The engine's private auxiliary flag, bit 10 of the operator-flag word. */
  const DEL_WIREVERT: FlagId := 1024

  /**
   * The deletion context. The six named values are the cases of the switch;
   * `OtherContext` stands for any other integer the caller may pass.
   */
  datatype DeleteContext =
    | DelVerts
    | DelEdges
    | DelEdgesFaces
    | DelOnlyFaces
    | DelOnlyTagged
    | DelFaces
    | OtherContext(code: int)

  // ---------------------------------------------------------------------
  // The three sweeps.
  // ---------------------------------------------------------------------

  /** The mesh after killing every live face that carries `fl`. */
  function SweepFaces(m: Mesh, fl: FlagId): (r: Mesh)
    ensures forall f :: f in r.faces <==> f in m.faces && (f, fl) !in m.fflags
    ensures forall f :: f in r.faces ==> r.faces[f] == m.faces[f]
    ensures r.verts == m.verts && r.edges == m.edges
    ensures r.vflags == m.vflags && r.eflags == m.eflags && r.fflags == m.fflags
  {
    WithoutFaces(m, FlaggedFaces(m, fl))
  }

  /** The mesh after killing every live edge that carries `fl`. */
  function SweepEdges(m: Mesh, fl: FlagId): (r: Mesh)
    ensures forall e :: e in r.edges <==> e in m.edges && (e, fl) !in m.eflags
    ensures forall e :: e in r.edges ==> r.edges[e] == m.edges[e]
    ensures forall f :: f in r.faces <==> f in m.faces && LoopEdges(m.faces[f]) !! FlaggedEdges(m, fl)
    ensures forall f :: f in r.faces ==> r.faces[f] == m.faces[f]
    ensures r.verts == m.verts
    ensures r.vflags == m.vflags && r.eflags == m.eflags && r.fflags == m.fflags
  {
    WithoutEdges(m, FlaggedEdges(m, fl))
  }

  /** The mesh after killing every live vertex that carries `fl`. */
  function SweepVerts(m: Mesh, fl: FlagId): (r: Mesh)
    ensures forall v :: v in r.verts <==> v in m.verts && (v, fl) !in m.vflags
    ensures forall e :: e in r.edges <==>
      e in m.edges && m.edges[e].v1 !in FlaggedVerts(m, fl) && m.edges[e].v2 !in FlaggedVerts(m, fl)
    ensures forall e :: e in r.edges ==> r.edges[e] == m.edges[e]
    ensures forall f :: f in r.faces <==>
      f in m.faces && LoopEdges(m.faces[f]) !! IncidentEdges(m, FlaggedVerts(m, fl))
    ensures forall f :: f in r.faces ==> r.faces[f] == m.faces[f]
    ensures r.vflags == m.vflags && r.eflags == m.eflags && r.fflags == m.fflags
  {
    WithoutVerts(m, FlaggedVerts(m, fl))
  }

  // ---------------------------------------------------------------------
  // The flag phases.
  // ---------------------------------------------------------------------

  /** DEL_EDGES, flush down to vertices: both endpoints of each flagged edge get `fl`. */
  function FlushEdgesToVerts(m: Mesh, fl: FlagId): (r: Mesh)
    ensures r == m.(vflags := r.vflags)
    ensures forall e :: e in m.edges && (e, fl) in m.eflags ==>
      (m.edges[e].v1, fl) in r.vflags && (m.edges[e].v2, fl) in r.vflags
    ensures forall v, g :: (v, g) in r.vflags ==>
      (v, g) in m.vflags || (g == fl && v in Endpoints(m, FlaggedEdges(m, fl)))
    ensures m.vflags <= r.vflags
  {
    m.(vflags := m.vflags + Tag(Endpoints(m, FlaggedEdges(m, fl)), fl))
  }

  /** Live vertices that carry `fl` and have no incident edge. */
  function LooseFlaggedVerts(m: Mesh, fl: FlagId): set<Vert> {
    set v | v in m.verts && (v, fl) in m.vflags && !HasEdge(m, v)
  }

  /** DEL_EDGES, loose vertices: every flagged vertex without an edge gets DEL_WIREVERT. */
  function MarkWireVerts(m: Mesh, fl: FlagId): (r: Mesh)
    ensures r == m.(vflags := r.vflags)
    ensures forall v :: v in m.verts && (v, fl) in m.vflags && !HasEdge(m, v) ==> (v, DEL_WIREVERT) in r.vflags
    ensures forall v, g :: (v, g) in r.vflags && (v, g) !in m.vflags ==>
      g == DEL_WIREVERT && v in m.verts && (v, fl) in m.vflags && !HasEdge(m, v)
    ensures m.vflags <= r.vflags
  {
    m.(vflags := m.vflags + Tag(LooseFlaggedVerts(m, fl), DEL_WIREVERT))
  }

  function KeptFaces(m: Mesh, fl: FlagId): set<Face> {
    m.faces.Keys - FlaggedFaces(m, fl)
  }

  /** DEL_FACES phase 1: every vertex and edge on the boundary of a flagged face gets `fl`. */
  function MarkFaceBoundaries(m: Mesh, fl: FlagId): (r: Mesh)
    ensures r == m.(vflags := r.vflags, eflags := r.eflags)
    ensures forall f, l :: f in m.faces && (f, fl) in m.fflags && l in m.faces[f] ==>
      (l.v, fl) in r.vflags && (l.e, fl) in r.eflags
    ensures m.vflags <= r.vflags && m.eflags <= r.eflags
    ensures forall v, g :: (v, g) in r.vflags && (v, g) !in m.vflags ==>
      g == fl && v in BoundaryVerts(m, FlaggedFaces(m, fl))
    ensures forall e, g :: (e, g) in r.eflags && (e, g) !in m.eflags ==>
      g == fl && e in BoundaryEdges(m, FlaggedFaces(m, fl))
  {
    var ff := FlaggedFaces(m, fl);
    BoundaryMembers(m, ff);
    TagMember(BoundaryVerts(m, ff), fl);
    TagMember(BoundaryEdges(m, ff), fl);
    m.(vflags := m.vflags + Tag(BoundaryVerts(m, ff), fl),
       eflags := m.eflags + Tag(BoundaryEdges(m, ff), fl))
  }

  /** DEL_FACES phase 2: every vertex and edge on the boundary of an unflagged face loses `fl`. */
  function UnmarkKeptFaceBoundaries(m: Mesh, fl: FlagId): (r: Mesh)
    ensures r == m.(vflags := r.vflags, eflags := r.eflags)
    ensures forall f, l :: f in m.faces && (f, fl) !in m.fflags && l in m.faces[f] ==>
      (l.v, fl) !in r.vflags && (l.e, fl) !in r.eflags
    ensures r.vflags <= m.vflags && r.eflags <= m.eflags
    ensures forall v, g :: (v, g) in m.vflags && (v, g) !in r.vflags ==>
      g == fl && v in BoundaryVerts(m, KeptFaces(m, fl))
    ensures forall e, g :: (e, g) in m.eflags && (e, g) !in r.eflags ==>
      g == fl && e in BoundaryEdges(m, KeptFaces(m, fl))
  {
    var kf := KeptFaces(m, fl);
    BoundaryMembers(m, kf);
    TagMember(BoundaryVerts(m, kf), fl);
    TagMember(BoundaryEdges(m, kf), fl);
    m.(vflags := m.vflags - Tag(BoundaryVerts(m, kf), fl),
       eflags := m.eflags - Tag(BoundaryEdges(m, kf), fl))
  }

  /** DEL_FACES phase 3: both endpoints of every unflagged edge lose `fl`. */
  function UnmarkKeptEdgeVerts(m: Mesh, fl: FlagId): (r: Mesh)
    ensures r == m.(vflags := r.vflags)
    ensures forall e :: e in m.edges && (e, fl) !in m.eflags ==>
      (m.edges[e].v1, fl) !in r.vflags && (m.edges[e].v2, fl) !in r.vflags
    ensures r.vflags <= m.vflags
    ensures forall v, g :: (v, g) in m.vflags && (v, g) !in r.vflags ==>
      g == fl && v in Endpoints(m, m.edges.Keys - FlaggedEdges(m, fl))
  {
    TagMember(Endpoints(m, m.edges.Keys - FlaggedEdges(m, fl)), fl);
    m.(vflags := m.vflags - Tag(Endpoints(m, m.edges.Keys - FlaggedEdges(m, fl)), fl))
  }

  /** DEL_FACES, the three flag phases in order. */
  function FacesClosure(m: Mesh, fl: FlagId): (r: Mesh)
    ensures r == m.(vflags := r.vflags, eflags := r.eflags)
  {
    UnmarkKeptEdgeVerts(UnmarkKeptFaceBoundaries(MarkFaceBoundaries(m, fl), fl), fl)
  }

  // ---------------------------------------------------------------------
  // The six-way dispatch.
  // ---------------------------------------------------------------------

  /** The mesh after `BMO_remove_tagged_context(bm, fl, ctx)`. */
  function AfterRemoveTagged(m: Mesh, fl: FlagId, ctx: DeleteContext): (r: Mesh)
    ensures r.verts <= m.verts && r.edges.Keys <= m.edges.Keys && r.faces.Keys <= m.faces.Keys
    ensures r.fflags == m.fflags && (!ctx.DelFaces? ==> r.eflags == m.eflags)
    ensures ctx.OtherContext? ==> r == m
  {
    match ctx
    case DelVerts => SweepVerts(m, fl)
    case DelEdges =>
      var m1 := SweepEdges(FlushEdgesToVerts(m, fl), fl);
      SweepVerts(MarkWireVerts(m1, fl), DEL_WIREVERT)
    case DelEdgesFaces => SweepEdges(m, fl)
    case DelOnlyFaces => SweepFaces(m, fl)
    case DelOnlyTagged => SweepVerts(SweepEdges(SweepFaces(m, fl), fl), fl)
    case DelFaces => SweepVerts(SweepEdges(SweepFaces(FacesClosure(m, fl), fl), fl), fl)
    case OtherContext(_) => m
  }

  // ---------------------------------------------------------------------
  // Properties.
  // ---------------------------------------------------------------------

  lemma SweepsValid(m: Mesh, fl: FlagId)
    requires Valid(m)
    ensures Valid(SweepFaces(m, fl)) && Valid(SweepEdges(m, fl)) && Valid(SweepVerts(m, fl))
  {
    WithoutFacesValid(m, FlaggedFaces(m, fl));
    WithoutEdgesValid(m, FlaggedEdges(m, fl));
    WithoutVertsValid(m, FlaggedVerts(m, fl));
  }

  /** Whatever the context, the engine leaves no live element referring to a removed one. */
  lemma RemoveTaggedValid(m: Mesh, fl: FlagId, ctx: DeleteContext)
    requires Valid(m)
    ensures Valid(AfterRemoveTagged(m, fl, ctx))
  {
    match ctx
    case DelVerts => SweepsValid(m, fl);
    case DelEdges =>
      var m0 := FlushEdgesToVerts(m, fl);
      ValidIgnoresFlags(m, m0);
      SweepsValid(m0, fl);
      var m1 := MarkWireVerts(SweepEdges(m0, fl), fl);
      ValidIgnoresFlags(SweepEdges(m0, fl), m1);
      SweepsValid(m1, DEL_WIREVERT);
    case DelEdgesFaces => SweepsValid(m, fl);
    case DelOnlyFaces => SweepsValid(m, fl);
    case DelOnlyTagged =>
      SweepsValid(m, fl);
      SweepsValid(SweepFaces(m, fl), fl);
      SweepsValid(SweepEdges(SweepFaces(m, fl), fl), fl);
    case DelFaces =>
      var m0 := FacesClosure(m, fl);
      ValidIgnoresFlags(m, m0);
      SweepsValid(m0, fl);
      SweepsValid(SweepFaces(m0, fl), fl);
      SweepsValid(SweepEdges(SweepFaces(m0, fl), fl), fl);
    case OtherContext(_) =>
  }

  /** Whatever the context, the engine only removes elements: survivors keep their endpoints and boundaries. */
  lemma RemoveTaggedOnlyRemoves(m: Mesh, fl: FlagId, ctx: DeleteContext)
    ensures var r := AfterRemoveTagged(m, fl, ctx);
      && r.verts <= m.verts
      && (forall e :: e in r.edges ==> e in m.edges && r.edges[e] == m.edges[e])
      && (forall f :: f in r.faces ==> f in m.faces && r.faces[f] == m.faces[f])
  {
    match ctx
    case DelEdges =>
      var m0 := FlushEdgesToVerts(m, fl);
      var m1 := MarkWireVerts(SweepEdges(m0, fl), fl);
      assert m1.verts == m.verts;
    case DelFaces =>
      var m0 := FacesClosure(m, fl);
      assert m0.verts == m.verts && m0.edges == m.edges && m0.faces == m.faces;
    case _ =>
  }

  /** DEL_ONLYFACES removes exactly the flagged faces; every edge and vertex stays, used or not. */
  lemma OnlyFacesEffect(m: Mesh, fl: FlagId)
    ensures var r := AfterRemoveTagged(m, fl, DelOnlyFaces);
      && r.verts == m.verts && r.edges == m.edges
      && (forall f :: f in r.faces <==> f in m.faces && (f, fl) !in m.fflags)
  {
  }

  /** DEL_EDGESFACES removes every flagged edge, never a vertex, and only the faces built on a flagged edge. */
  lemma EdgesFacesEffect(m: Mesh, fl: FlagId)
    ensures var r := AfterRemoveTagged(m, fl, DelEdgesFaces);
      && r.verts == m.verts
      && (forall e :: e in r.edges <==> e in m.edges && (e, fl) !in m.eflags)
      && (forall f :: f in r.faces <==> f in m.faces && LoopEdges(m.faces[f]) !! FlaggedEdges(m, fl))
  {
  }

  /** DEL_ONLYTAGGED: no flag moves between kinds; only the kill cascade adds removals. */
  lemma OnlyTaggedEffect(m: Mesh, fl: FlagId)
    ensures var r := AfterRemoveTagged(m, fl, DelOnlyTagged);
      && r.vflags == m.vflags && r.eflags == m.eflags && r.fflags == m.fflags
      && (forall v :: v in r.verts <==> v in m.verts && (v, fl) !in m.vflags)
      && (forall e :: e in r.edges <==>
            e in m.edges && (e, fl) !in m.eflags && e !in IncidentEdges(m, FlaggedVerts(m, fl)))
      && (forall f :: f in r.faces <==>
            f in m.faces && (f, fl) !in m.fflags &&
            LoopEdges(m.faces[f]) !! (FlaggedEdges(m, fl) + IncidentEdges(m, FlaggedVerts(m, fl))))
  {
    var m1 := SweepFaces(m, fl);
    var m2 := SweepEdges(m1, fl);
    var r := SweepVerts(m2, fl);
    assert FlaggedVerts(m2, fl) == FlaggedVerts(m, fl);
    forall e ensures e in r.edges <==>
      e in m.edges && (e, fl) !in m.eflags && e !in IncidentEdges(m, FlaggedVerts(m, fl))
    {
    }
    forall f ensures f in r.faces <==>
      f in m.faces && (f, fl) !in m.fflags &&
      LoopEdges(m.faces[f]) !! (FlaggedEdges(m, fl) + IncidentEdges(m, FlaggedVerts(m, fl)))
    {
      if f in m1.faces {
        assert FlaggedEdges(m1, fl) == FlaggedEdges(m, fl);
        assert IncidentEdges(m2, FlaggedVerts(m2, fl)) == IncidentEdges(m, FlaggedVerts(m, fl)) - FlaggedEdges(m, fl);
      }
    }
  }

  /** A vertex that is loose has no edge, so killing loose vertices kills no edge. */
  lemma LooseVertsHaveNoEdges(m: Mesh, fl: FlagId)
    ensures IncidentEdges(MarkWireVerts(m, fl), LooseFlaggedVerts(m, fl)) == {}
  {
    var loose := LooseFlaggedVerts(m, fl);
    forall e | e in m.edges ensures m.edges[e].v1 !in loose && m.edges[e].v2 !in loose {
      assert m.edges[e].v1 in Endpoints(m, m.edges.Keys);
      assert m.edges[e].v2 in Endpoints(m, m.edges.Keys);
    }
  }

  /**
   * DEL_EDGES: with DEL_WIREVERT distinct from `fl` and clear on entry, the
   * vertices carrying DEL_WIREVERT after marking are exactly the loose ones.
   */
  lemma WireVertsAreLoose(m: Mesh, fl: FlagId)
    requires fl != DEL_WIREVERT
    requires forall v :: v in m.verts ==> (v, DEL_WIREVERT) !in m.vflags
    ensures var m1 := SweepEdges(FlushEdgesToVerts(m, fl), fl);
      FlaggedVerts(MarkWireVerts(m1, fl), DEL_WIREVERT) == LooseFlaggedVerts(m1, fl)
  {
    var m1 := SweepEdges(FlushEdgesToVerts(m, fl), fl);
    TagMember(Endpoints(m, FlaggedEdges(m, fl)), fl);
    TagMember(LooseFlaggedVerts(m1, fl), DEL_WIREVERT);
  }

  /**
   * DEL_EDGES, with DEL_WIREVERT distinct from `fl` and clear on entry:
   * exactly the flagged edges go, with the faces built on them; a vertex
   * goes exactly when it carried `fl` on entry or ends a flagged edge, and
   * no edge is left at it.
   */
  lemma EdgesEffect(m: Mesh, fl: FlagId)
    requires Valid(m)
    requires fl != DEL_WIREVERT
    requires forall v :: v in m.verts ==> (v, DEL_WIREVERT) !in m.vflags
    ensures var r := AfterRemoveTagged(m, fl, DelEdges);
      && (forall e :: e in r.edges <==> e in m.edges && (e, fl) !in m.eflags)
      && (forall f :: f in r.faces <==> f in m.faces && LoopEdges(m.faces[f]) !! FlaggedEdges(m, fl))
      && (forall v :: v in r.verts <==>
            v in m.verts && (HasEdge(r, v) || ((v, fl) !in m.vflags && v !in Endpoints(m, FlaggedEdges(m, fl)))))
  {
    var m1 := SweepEdges(FlushEdgesToVerts(m, fl), fl);
    var r := AfterRemoveTagged(m, fl, DelEdges);
    EdgesSweepsLoose(m, fl);
    assert FlaggedEdges(FlushEdgesToVerts(m, fl), fl) == FlaggedEdges(m, fl);
    assert forall v :: HasEdge(r, v) <==> HasEdge(m1, v);
    forall v ensures v in r.verts <==>
      v in m.verts && (HasEdge(r, v) || ((v, fl) !in m.vflags && v !in Endpoints(m, FlaggedEdges(m, fl))))
    {
      assert (v, fl) in m1.vflags <==> (v, fl) in m.vflags || v in Endpoints(m, FlaggedEdges(m, fl));
    }
  }

  /**
   * DEL_EDGES, the vertex sweep: it removes exactly the loose flagged
   * vertices and, since they have no edge, no edge and no face.
   */
  lemma EdgesSweepsLoose(m: Mesh, fl: FlagId)
    requires fl != DEL_WIREVERT
    requires forall v :: v in m.verts ==> (v, DEL_WIREVERT) !in m.vflags
    ensures var m1 := SweepEdges(FlushEdgesToVerts(m, fl), fl);
      var r := AfterRemoveTagged(m, fl, DelEdges);
      && r.edges == m1.edges && r.faces == m1.faces
      && r.verts == m1.verts - LooseFlaggedVerts(m1, fl)
  {
    var m1 := SweepEdges(FlushEdgesToVerts(m, fl), fl);
    WireVertsAreLoose(m, fl);
    LooseVertsHaveNoEdges(m1, fl);
  }

  /** DEL_EDGES, one endpoint at a time: an endpoint of a flagged edge goes exactly when no edge is left at it. */
  lemma EdgesEndpointFate(m: Mesh, fl: FlagId, e: Edge, v: Vert)
    requires Valid(m)
    requires fl != DEL_WIREVERT
    requires forall v :: v in m.verts ==> (v, DEL_WIREVERT) !in m.vflags
    requires e in m.edges && (e, fl) in m.eflags && Incident(m.edges[e], v)
    ensures var r := AfterRemoveTagged(m, fl, DelEdges);
      e !in r.edges && (v in r.verts <==> HasEdge(r, v))
  {
    EdgesEffect(m, fl);
    assert e in FlaggedEdges(m, fl);
  }

  /** DEL_FACES: the edges the closure removes, described directly from the entry flags. */
  function DoomedEdges(m: Mesh, fl: FlagId): set<Edge> {
    set e | e in m.edges
      && ((e, fl) in m.eflags || e in BoundaryEdges(m, FlaggedFaces(m, fl)))
      && e !in BoundaryEdges(m, KeptFaces(m, fl))
  }

  /** DEL_FACES: the vertices the closure removes, described directly from the entry flags. */
  function DoomedVerts(m: Mesh, fl: FlagId): set<Vert> {
    set v | v in m.verts
      && ((v, fl) in m.vflags || v in BoundaryVerts(m, FlaggedFaces(m, fl)))
      && v !in BoundaryVerts(m, KeptFaces(m, fl))
      && v !in Endpoints(m, m.edges.Keys - DoomedEdges(m, fl))
  }

  /**
   * DEL_FACES, the three flag phases: they change only vertex and edge
   * flags, and leave `fl` on exactly the doomed edges and vertices.
   */
  lemma FacesClosureFlags(m: Mesh, fl: FlagId)
    ensures var c := FacesClosure(m, fl);
      && c.verts == m.verts && c.edges == m.edges && c.faces == m.faces && c.fflags == m.fflags
      && FlaggedEdges(c, fl) == DoomedEdges(m, fl)
      && FlaggedVerts(c, fl) == DoomedVerts(m, fl)
  {
    var c1 := MarkFaceBoundaries(m, fl);
    var c2 := UnmarkKeptFaceBoundaries(c1, fl);
    var c := UnmarkKeptEdgeVerts(c2, fl);
    var ff, kf := FlaggedFaces(m, fl), KeptFaces(m, fl);
    assert FlaggedFaces(c1, fl) == ff;
    assert KeptFaces(c1, fl) == kf;
    assert BoundaryEdges(c1, kf) == BoundaryEdges(m, kf);
    assert BoundaryVerts(c1, kf) == BoundaryVerts(m, kf);
    TagMember(BoundaryEdges(m, ff), fl);
    TagMember(BoundaryVerts(m, ff), fl);
    TagMember(BoundaryEdges(m, kf), fl);
    TagMember(BoundaryVerts(m, kf), fl);
    assert FlaggedEdges(c2, fl) == DoomedEdges(m, fl);
    assert Endpoints(c2, c2.edges.Keys - FlaggedEdges(c2, fl)) == Endpoints(m, m.edges.Keys - DoomedEdges(m, fl));
    TagMember(Endpoints(m, m.edges.Keys - DoomedEdges(m, fl)), fl);
    assert FlaggedEdges(c, fl) == DoomedEdges(m, fl);
  }

  /**
   * DEL_FACES: exactly the flagged faces go; an edge goes exactly when it
   * is doomed, a vertex exactly when it is doomed.
   */
  lemma FacesEffect(m: Mesh, fl: FlagId)
    requires Valid(m)
    ensures var r := AfterRemoveTagged(m, fl, DelFaces);
      && (forall f :: f in r.faces <==> f in m.faces && (f, fl) !in m.fflags)
      && (forall e :: e in r.edges <==> e in m.edges && e !in DoomedEdges(m, fl))
      && (forall v :: v in r.verts <==> v in m.verts && v !in DoomedVerts(m, fl))
  {
    var c := FacesClosure(m, fl);
    FacesClosureFlags(m, fl);
    var s1 := SweepFaces(c, fl);
    var s2 := SweepEdges(s1, fl);
    var de, dv := DoomedEdges(m, fl), DoomedVerts(m, fl);
    assert s2.faces == s1.faces && s2.edges == m.edges - de && FlaggedVerts(s2, fl) == dv by {
      assert FlaggedEdges(s1, fl) == de;
      forall f | f in s1.faces ensures LoopEdges(s1.faces[f]) !! de {
        BoundaryCovers(m, KeptFaces(m, fl), f);
      }
    }
    assert IncidentEdges(s2, dv) == {} by {
      forall e | e in s2.edges ensures m.edges[e].v1 !in dv && m.edges[e].v2 !in dv {
        assert m.edges[e].v1 in Endpoints(m, m.edges.Keys - de);
        assert m.edges[e].v2 in Endpoints(m, m.edges.Keys - de);
      }
    }
  }

  /** DEL_FACES: every vertex and edge on the boundary of an unflagged face survives. */
  lemma FacesKeepsKeptBoundaries(m: Mesh, fl: FlagId, f: Face, l: Loop)
    requires Valid(m)
    requires f in m.faces && (f, fl) !in m.fflags && l in m.faces[f]
    ensures var r := AfterRemoveTagged(m, fl, DelFaces);
      l.v in r.verts && l.e in r.edges
  {
    FacesEffect(m, fl);
    BoundaryMembers(m, KeptFaces(m, fl));
    assert LoopOk(m, l);
  }

  /**
   * DEL_FACES: an edge left unflagged by phase 2, wire edges with no face
   * included, survives together with both its endpoints.
   */
  lemma FacesKeepsUnflaggedEdgeEnds(m: Mesh, fl: FlagId, e: Edge)
    requires Valid(m)
    requires e in m.edges
    requires (e, fl) !in UnmarkKeptFaceBoundaries(MarkFaceBoundaries(m, fl), fl).eflags
    ensures var r := AfterRemoveTagged(m, fl, DelFaces);
      e in r.edges && m.edges[e].v1 in r.verts && m.edges[e].v2 in r.verts
  {
    FacesEffect(m, fl);
    FacesClosureFlags(m, fl);
    assert e !in DoomedEdges(m, fl);
    assert m.edges[e].v1 in Endpoints(m, m.edges.Keys - DoomedEdges(m, fl));
    assert m.edges[e].v2 in Endpoints(m, m.edges.Keys - DoomedEdges(m, fl));
  }

  /** DEL_FACES: an edge used by a flagged face and by no unflagged face is removed. */
  lemma FacesRemovesExclusiveEdges(m: Mesh, fl: FlagId, e: Edge, f: Face)
    requires Valid(m)
    requires f in m.faces && (f, fl) in m.fflags && e in LoopEdges(m.faces[f])
    requires forall g :: g in m.faces && e in LoopEdges(m.faces[g]) ==> (g, fl) in m.fflags
    ensures e !in AfterRemoveTagged(m, fl, DelFaces).edges
  {
    FacesEffect(m, fl);
    BoundaryCovers(m, FlaggedFaces(m, fl), f);
    assert e !in BoundaryEdges(m, KeptFaces(m, fl));
  }

  /**
   * DEL_FACES: a vertex on the boundary of a flagged face, on no unflagged
   * face, all of whose edges are removed, is removed.
   */
  lemma FacesRemovesExclusiveVerts(m: Mesh, fl: FlagId, v: Vert, f: Face)
    requires Valid(m)
    requires f in m.faces && (f, fl) in m.fflags && v in LoopVerts(m.faces[f])
    requires forall g :: g in m.faces && v in LoopVerts(m.faces[g]) ==> (g, fl) in m.fflags
    requires forall e :: e in m.edges && Incident(m.edges[e], v) ==> e !in AfterRemoveTagged(m, fl, DelFaces).edges
    ensures v !in AfterRemoveTagged(m, fl, DelFaces).verts
  {
    FacesEffect(m, fl);
    ExclusiveVertDoomed(m, fl, v, f, AfterRemoveTagged(m, fl, DelFaces));
  }

  /** The closure reasoning behind FacesRemovesExclusiveVerts, for any `r` whose edges are the undoomed ones. */
  lemma ExclusiveVertDoomed(m: Mesh, fl: FlagId, v: Vert, f: Face, r: Mesh)
    requires Valid(m)
    requires f in m.faces && (f, fl) in m.fflags && v in LoopVerts(m.faces[f])
    requires forall g :: g in m.faces && v in LoopVerts(m.faces[g]) ==> (g, fl) in m.fflags
    requires forall e :: e in r.edges <==> e in m.edges && e !in DoomedEdges(m, fl)
    requires forall e :: e in m.edges && Incident(m.edges[e], v) ==> e !in r.edges
    ensures v in DoomedVerts(m, fl)
  {
    assert v in m.verts by {
      var l :| l in m.faces[f] && l.v == v;
      assert LoopOk(m, l);
    }
    assert v in BoundaryVerts(m, FlaggedFaces(m, fl)) by {
      BoundaryCovers(m, FlaggedFaces(m, fl), f);
    }
    assert v !in Endpoints(m, m.edges.Keys - DoomedEdges(m, fl));
  }
}
