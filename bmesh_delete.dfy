/**
 * The deletion engine of bmesh_delete.c over a mutable mesh.
 *
 * `BMesh` holds the live element sets, the edge endpoints, the face
 * boundaries and the three per-kind flag stores as fields that the engine
 * updates in place. Every mesh-wide iteration walks a snapshot of the
 * element set it iterates; each loop is proved to end in the state that the
 * matching function of DeleteSpec describes.
 */
module BMeshDelete {

  import opened MeshModel
  import opened DeleteSpec

  class BMesh {
    var verts: set<Vert>
    var edges: map<Edge, EdgeVerts>
    var faces: map<Face, seq<Loop>>
    var vflags: set<(Vert, FlagId)>
    var eflags: set<(Edge, FlagId)>
    var fflags: set<(Face, FlagId)>

    function Model(): Mesh
      reads this
    {
      Mesh(verts, edges, faces, vflags, eflags, fflags)
    }

    ghost predicate Valid()
      reads this
    {
      MeshModel.Valid(Model())
    }

    constructor (m: Mesh)
      requires MeshModel.Valid(m)
      ensures Valid() && Model() == m
    {
      verts, edges, faces := m.verts, m.edges, m.faces;
      vflags, eflags, fflags := m.vflags, m.eflags, m.fflags;
    }

    // -------------------------------------------------------------------
    // Kernel kill primitives (BM_face_kill, BM_edge_kill, BM_vert_kill).
    // -------------------------------------------------------------------

    /** Removes the face only. */
    method KillFace(f: Face)
      requires Valid() && f in faces
      modifies this
      ensures Valid()
      ensures Model() == WithoutFaces(old(Model()), {f})
    {
      WithoutFacesValid(Model(), {f});
      faces := faces - {f};
    }

    /** Removes the edge and every face whose boundary uses it. */
    method KillEdge(e: Edge)
      requires Valid() && e in edges
      modifies this
      ensures Valid()
      ensures Model() == WithoutEdges(old(Model()), {e})
    {
      WithoutEdgesValid(Model(), {e});
      ghost var target := WithoutEdges(Model(), {e});
      faces := map f | f in faces && e !in LoopEdges(faces[f]) :: faces[f];
      edges := edges - {e};
      assert Model() == target;
    }

    /** Removes the vertex, its incident edges and the faces using those edges. */
    method KillVert(v: Vert)
      requires Valid() && v in verts
      modifies this
      ensures Valid()
      ensures Model() == WithoutVerts(old(Model()), {v})
    {
      WithoutVertsValid(Model(), {v});
      var doomed := set e | e in edges && Incident(edges[e], v);
      assert doomed == IncidentEdges(Model(), {v});
      faces := map f | f in faces && LoopEdges(faces[f]) !! doomed :: faces[f];
      edges := edges - doomed;
      verts := verts - {v};
    }

    // -------------------------------------------------------------------
    // The sweep helpers.
    // -------------------------------------------------------------------

    /** bmo_remove_tagged_faces: kills every face carrying `fl`. */
    method RemoveTaggedFaces(fl: FlagId)
      requires Valid()
      modifies this
      ensures Valid()
      ensures Model() == SweepFaces(old(Model()), fl)
    {
      ghost var m0 := Model();
      var todo := faces.Keys;
      ghost var killed: set<Face> := {};
      while todo != {}
        invariant todo <= m0.faces.Keys
        invariant killed == FlaggedFaces(m0, fl) - todo
        invariant Valid() && Model() == WithoutFaces(m0, killed)
        decreases todo
      {
        var f :| f in todo;
        DoneStep(FlaggedFaces(m0, fl), todo, f);
        if (f, fl) in fflags {
          KillFace(f);
          WithoutFacesTwice(m0, killed, {f});
          killed := killed + {f};
        }
        todo := todo - {f};
      }
      assert killed == FlaggedFaces(m0, fl);
    }

    /** bmo_remove_tagged_edges: kills every edge carrying `fl`. */
    method RemoveTaggedEdges(fl: FlagId)
      requires Valid()
      modifies this
      ensures Valid()
      ensures Model() == SweepEdges(old(Model()), fl)
    {
      ghost var m0 := Model();
      var todo := edges.Keys;
      ghost var killed: set<Edge> := {};
      while todo != {}
        invariant todo <= m0.edges.Keys
        invariant killed == FlaggedEdges(m0, fl) - todo
        invariant Valid() && Model() == WithoutEdges(m0, killed)
        decreases todo
      {
        var e :| e in todo;
        DoneStep(FlaggedEdges(m0, fl), todo, e);
        if (e, fl) in eflags {
          KillEdge(e);
          WithoutEdgesTwice(m0, killed, {e});
          killed := killed + {e};
        }
        todo := todo - {e};
      }
      assert killed == FlaggedEdges(m0, fl);
    }

    /** bmo_remove_tagged_verts: kills every vertex carrying `fl`. */
    method RemoveTaggedVerts(fl: FlagId)
      requires Valid()
      modifies this
      ensures Valid()
      ensures Model() == SweepVerts(old(Model()), fl)
    {
      ghost var m0 := Model();
      var todo := verts;
      ghost var killed: set<Vert> := {};
      while todo != {}
        invariant todo <= m0.verts
        invariant killed == FlaggedVerts(m0, fl) - todo
        invariant Valid() && Model() == WithoutVerts(m0, killed)
        decreases todo
      {
        var v :| v in todo;
        DoneStep(FlaggedVerts(m0, fl), todo, v);
        if (v, fl) in vflags {
          KillVert(v);
          WithoutVertsTwice(m0, killed, {v});
          killed := killed + {v};
        }
        todo := todo - {v};
      }
      assert killed == FlaggedVerts(m0, fl);
    }

    // -------------------------------------------------------------------
    // The flag phases of BMO_remove_tagged_context.
    // -------------------------------------------------------------------

    /** DEL_EDGES: flush the flag of every flagged edge down to both endpoints. */
    method FlushEdgesToVerts(fl: FlagId)
      requires Valid()
      modifies this
      ensures Valid()
      ensures Model() == DeleteSpec.FlushEdgesToVerts(old(Model()), fl)
    {
      ghost var m0 := Model();
      var todo := edges.Keys;
      while todo != {}
        invariant todo <= m0.edges.Keys
        invariant Model() == m0.(vflags := m0.vflags + Tag(Endpoints(m0, FlaggedEdges(m0, fl) - todo), fl))
        decreases todo
      {
        var e :| e in todo;
        ghost var done := FlaggedEdges(m0, fl) - todo;
        DoneStep(FlaggedEdges(m0, fl), todo, e);
        if (e, fl) in eflags {
          vflags := vflags + {(edges[e].v1, fl)};
          vflags := vflags + {(edges[e].v2, fl)};
          TagEndpointsStep(m0, done, e, fl);
        }
        todo := todo - {e};
      }
      assert FlaggedEdges(m0, fl) - todo == FlaggedEdges(m0, fl);
      ValidIgnoresFlags(m0, Model());
    }

    /** DEL_EDGES: give DEL_WIREVERT to every vertex that carries `fl` and has no edge left. */
    method MarkWireVerts(fl: FlagId)
      requires Valid()
      modifies this
      ensures Valid()
      ensures Model() == DeleteSpec.MarkWireVerts(old(Model()), fl)
    {
      ghost var m0 := Model();
      var todo := verts;
      while todo != {}
        invariant todo <= m0.verts
        invariant Model() == m0.(vflags := m0.vflags + Tag(LooseFlaggedVerts(m0, fl) - todo, DEL_WIREVERT))
        decreases todo
      {
        var v :| v in todo;
        ghost var done := LooseFlaggedVerts(m0, fl) - todo;
        DoneStep(LooseFlaggedVerts(m0, fl), todo, v);
        TagMember(done, DEL_WIREVERT);
        assert (v, fl) in vflags <==> (v, fl) in m0.vflags;
        // `v->e` is set exactly when some live edge ends at v.
        if (v, fl) in vflags && !HasEdge(Model(), v) {
          vflags := vflags + {(v, DEL_WIREVERT)};
          TagUnion(done, {v}, DEL_WIREVERT);
        }
        todo := todo - {v};
      }
      assert LooseFlaggedVerts(m0, fl) - todo == LooseFlaggedVerts(m0, fl);
      ValidIgnoresFlags(m0, Model());
    }

    /**
     * The do-while walk of one face boundary in DEL_FACES phase 1: flags the
     * vertex and the edge of every loop. A boundary is non-empty, so the walk
     * visits each of its loops exactly once.
     */
    method EnableBoundaryFlags(ls: seq<Loop>, fl: FlagId)
      modifies this
      ensures vflags == old(vflags) + Tag(LoopVerts(ls), fl)
      ensures eflags == old(eflags) + Tag(LoopEdges(ls), fl)
      ensures unchanged(this`verts, this`edges, this`faces, this`fflags)
    {
      var i := 0;
      while i < |ls|
        invariant 0 <= i <= |ls|
        invariant vflags == old(vflags) + Tag(LoopVerts(ls[..i]), fl)
        invariant eflags == old(eflags) + Tag(LoopEdges(ls[..i]), fl)
        invariant unchanged(this`verts, this`edges, this`faces, this`fflags)
      {
        vflags := vflags + {(ls[i].v, fl)};
        eflags := eflags + {(ls[i].e, fl)};
        LoopPrefixStep(ls, i);
        TagUnion(LoopVerts(ls[..i]), {ls[i].v}, fl);
        TagUnion(LoopEdges(ls[..i]), {ls[i].e}, fl);
        i := i + 1;
      }
      assert ls[..i] == ls;
    }

    /** The do-while walk of one face boundary in DEL_FACES phase 2: unflags the vertex and the edge of every loop. */
    method DisableBoundaryFlags(ls: seq<Loop>, fl: FlagId)
      modifies this
      ensures vflags == old(vflags) - Tag(LoopVerts(ls), fl)
      ensures eflags == old(eflags) - Tag(LoopEdges(ls), fl)
      ensures unchanged(this`verts, this`edges, this`faces, this`fflags)
    {
      var i := 0;
      while i < |ls|
        invariant 0 <= i <= |ls|
        invariant vflags == old(vflags) - Tag(LoopVerts(ls[..i]), fl)
        invariant eflags == old(eflags) - Tag(LoopEdges(ls[..i]), fl)
        invariant unchanged(this`verts, this`edges, this`faces, this`fflags)
      {
        vflags := vflags - {(ls[i].v, fl)};
        eflags := eflags - {(ls[i].e, fl)};
        LoopPrefixStep(ls, i);
        TagUnion(LoopVerts(ls[..i]), {ls[i].v}, fl);
        TagUnion(LoopEdges(ls[..i]), {ls[i].e}, fl);
        i := i + 1;
      }
      assert ls[..i] == ls;
    }

    /** DEL_FACES phase 1: flag every vertex and edge on the boundary of a flagged face. */
    method MarkFaceBoundaries(fl: FlagId)
      requires Valid()
      modifies this
      ensures Valid()
      ensures Model() == DeleteSpec.MarkFaceBoundaries(old(Model()), fl)
    {
      ghost var m0 := Model();
      ghost var ff := FlaggedFaces(m0, fl);
      var todo := faces.Keys;
      while todo != {}
        invariant todo <= m0.faces.Keys
        invariant Model() == m0.(vflags := m0.vflags + Tag(BoundaryVerts(m0, ff - todo), fl),
                                 eflags := m0.eflags + Tag(BoundaryEdges(m0, ff - todo), fl))
        decreases todo
      {
        var f :| f in todo;
        ghost var done := ff - todo;
        DoneStep(ff, todo, f);
        if (f, fl) in fflags {
          var ls := faces[f];
          EnableBoundaryFlags(ls, fl);
          BoundaryStep(m0, done, f);
          TagUnion(BoundaryVerts(m0, done), LoopVerts(ls), fl);
          TagUnion(BoundaryEdges(m0, done), LoopEdges(ls), fl);
        }
        todo := todo - {f};
      }
      assert ff - todo == ff;
      ValidIgnoresFlags(m0, Model());
    }

    /** DEL_FACES phase 2: unflag every vertex and edge on the boundary of an unflagged face. */
    method UnmarkKeptFaceBoundaries(fl: FlagId)
      requires Valid()
      modifies this
      ensures Valid()
      ensures Model() == DeleteSpec.UnmarkKeptFaceBoundaries(old(Model()), fl)
    {
      ghost var m0 := Model();
      ghost var kf := KeptFaces(m0, fl);
      var todo := faces.Keys;
      while todo != {}
        invariant todo <= m0.faces.Keys
        invariant Model() == m0.(vflags := m0.vflags - Tag(BoundaryVerts(m0, kf - todo), fl),
                                 eflags := m0.eflags - Tag(BoundaryEdges(m0, kf - todo), fl))
        decreases todo
      {
        var f :| f in todo;
        ghost var done := kf - todo;
        DoneStep(kf, todo, f);
        if (f, fl) !in fflags {
          var ls := faces[f];
          DisableBoundaryFlags(ls, fl);
          BoundaryStep(m0, done, f);
          TagUnion(BoundaryVerts(m0, done), LoopVerts(ls), fl);
          TagUnion(BoundaryEdges(m0, done), LoopEdges(ls), fl);
        }
        todo := todo - {f};
      }
      assert kf - todo == kf;
      ValidIgnoresFlags(m0, Model());
    }

    /** DEL_FACES phase 3: unflag both endpoints of every unflagged edge. */
    method UnmarkKeptEdgeVerts(fl: FlagId)
      requires Valid()
      modifies this
      ensures Valid()
      ensures Model() == DeleteSpec.UnmarkKeptEdgeVerts(old(Model()), fl)
    {
      ghost var m0 := Model();
      ghost var ke := m0.edges.Keys - FlaggedEdges(m0, fl);
      var todo := edges.Keys;
      while todo != {}
        invariant todo <= m0.edges.Keys
        invariant Model() == m0.(vflags := m0.vflags - Tag(Endpoints(m0, ke - todo), fl))
        decreases todo
      {
        var e :| e in todo;
        ghost var done := ke - todo;
        DoneStep(ke, todo, e);
        if (e, fl) !in eflags {
          vflags := vflags - {(edges[e].v1, fl)};
          vflags := vflags - {(edges[e].v2, fl)};
          TagEndpointsStep(m0, done, e, fl);
        }
        todo := todo - {e};
      }
      assert ke - todo == ke;
      ValidIgnoresFlags(m0, Model());
    }

    // -------------------------------------------------------------------
    // The entry point.
    // -------------------------------------------------------------------

    /**
     * BMO_remove_tagged_context: removes the closure of the elements
     * carrying `fl` that the context selects. An unrecognised context
     * changes nothing.
     */
    method RemoveTaggedContext(fl: FlagId, ctx: DeleteContext)
      requires Valid()
      modifies this
      ensures Valid()
      ensures Model() == AfterRemoveTagged(old(Model()), fl, ctx)
      ensures ctx.OtherContext? ==> Model() == old(Model())
    {
      match ctx
      case DelVerts =>
        RemoveTaggedVerts(fl);
      case DelEdges =>
        FlushEdgesToVerts(fl);
        RemoveTaggedEdges(fl);
        MarkWireVerts(fl);
        RemoveTaggedVerts(DEL_WIREVERT);
      case DelEdgesFaces =>
        RemoveTaggedEdges(fl);
      case DelOnlyFaces =>
        RemoveTaggedFaces(fl);
      case DelOnlyTagged =>
        RemoveTaggedFaces(fl);
        RemoveTaggedEdges(fl);
        RemoveTaggedVerts(fl);
      case DelFaces =>
        MarkFaceBoundaries(fl);
        UnmarkKeptFaceBoundaries(fl);
        UnmarkKeptEdgeVerts(fl);
        RemoveTaggedFaces(fl);
        RemoveTaggedEdges(fl);
        RemoveTaggedVerts(fl);
      case OtherContext(_) =>
    }
  }
}
