/**
 * The mesh kernel as the deletion engine sees it.
 *
 * A mesh holds vertices, edges (each with two endpoint vertices) and faces
 * (each with a non-empty boundary of loops; a loop pairs a boundary
 * vertex with a boundary edge at that vertex). Every element kind has its own
 * operator-flag store: the pair (element, flag) is present exactly when that
 * flag bit is enabled on the element.
 *
 * The kernel's kill primitives are described here by the elements they
 * remove: killing a face removes that face; killing an edge removes it and
 * every face whose boundary uses it; killing a vertex removes it, every edge
 * incident to it and every face using one of those edges.
 */
module MeshModel {

  type Vert = nat
  type Edge = nat
  type Face = nat

  /** An operator-flag identifier. */
  type FlagId = int

  datatype EdgeVerts = EdgeVerts(v1: Vert, v2: Vert)

  /** One corner of a face boundary: a vertex and an edge at that vertex. */
  datatype Loop = Loop(v: Vert, e: Edge)

  datatype Mesh = Mesh(
    verts: set<Vert>,
    edges: map<Edge, EdgeVerts>,
    faces: map<Face, seq<Loop>>,
    vflags: set<(Vert, FlagId)>,
    eflags: set<(Edge, FlagId)>,
    fflags: set<(Face, FlagId)>)

  predicate Incident(ev: EdgeVerts, v: Vert) {
    ev.v1 == v || ev.v2 == v
  }

  /** The vertices met by one walk around a face boundary. */
  function LoopVerts(ls: seq<Loop>): set<Vert> {
    set l | l in ls :: l.v
  }

  /** The edges met by one walk around a face boundary. */
  function LoopEdges(ls: seq<Loop>): set<Edge> {
    set l | l in ls :: l.e
  }

  /** A loop refers to a live edge that has the loop's vertex as an endpoint. */
  predicate LoopOk(m: Mesh, l: Loop) {
    l.e in m.edges && Incident(m.edges[l.e], l.v)
  }

  /** No live element refers to a removed one. */
  predicate Valid(m: Mesh) {
    && (forall e :: e in m.edges ==> m.edges[e].v1 in m.verts && m.edges[e].v2 in m.verts)
    && (forall f :: f in m.faces ==> m.faces[f] != [])
    && (forall f, l :: f in m.faces && l in m.faces[f] ==> LoopOk(m, l))
  }

  /** Endpoints of those edges of `es` that are live. */
  function Endpoints(m: Mesh, es: set<Edge>): set<Vert> {
    (set e | e in es && e in m.edges :: m.edges[e].v1) +
    (set e | e in es && e in m.edges :: m.edges[e].v2)
  }

  /** The vertex's representative edge is set: some live edge ends at it. */
  predicate HasEdge(m: Mesh, v: Vert) {
    v in Endpoints(m, m.edges.Keys)
  }

  /** Live edges with an endpoint in `dv`. */
  function IncidentEdges(m: Mesh, dv: set<Vert>): set<Edge> {
    set e | e in m.edges && (m.edges[e].v1 in dv || m.edges[e].v2 in dv)
  }

  /** Boundary vertices of the live faces of `fs`. */
  function BoundaryVerts(m: Mesh, fs: set<Face>): set<Vert> {
    set f, v | f in fs && f in m.faces && v in LoopVerts(m.faces[f]) :: v
  }

  /** Boundary edges of the live faces of `fs`. */
  function BoundaryEdges(m: Mesh, fs: set<Face>): set<Edge> {
    set f, e | f in fs && f in m.faces && e in LoopEdges(m.faces[f]) :: e
  }

  function FlaggedVerts(m: Mesh, fl: FlagId): set<Vert> {
    set v | v in m.verts && (v, fl) in m.vflags
  }

  function FlaggedEdges(m: Mesh, fl: FlagId): set<Edge> {
    set e | e in m.edges && (e, fl) in m.eflags
  }

  function FlaggedFaces(m: Mesh, fl: FlagId): set<Face> {
    set f | f in m.faces && (f, fl) in m.fflags
  }

  /** The flag-store entries that enable `fl` on every element of `xs`. */
  function Tag<T>(xs: set<T>, fl: FlagId): set<(T, FlagId)> {
    set x | x in xs :: (x, fl)
  }

  /** Every corner of a face of `fs` contributes its vertex and its edge to the boundary sets. */
  lemma BoundaryMembers(m: Mesh, fs: set<Face>)
    ensures forall f, l :: f in fs && f in m.faces && l in m.faces[f] ==>
      l.v in BoundaryVerts(m, fs) && l.e in BoundaryEdges(m, fs)
  {
    forall f, l | f in fs && f in m.faces && l in m.faces[f]
      ensures l.v in BoundaryVerts(m, fs) && l.e in BoundaryEdges(m, fs)
    {
      assert l.v in LoopVerts(m.faces[f]);
      assert l.e in LoopEdges(m.faces[f]);
    }
  }

  /** A face's own boundary is part of the boundary of any set of faces holding it. */
  lemma BoundaryCovers(m: Mesh, fs: set<Face>, f: Face)
    requires f in fs && f in m.faces
    ensures LoopVerts(m.faces[f]) <= BoundaryVerts(m, fs)
    ensures LoopEdges(m.faces[f]) <= BoundaryEdges(m, fs)
  {
  }

  lemma TagMember<T>(xs: set<T>, fl: FlagId)
    ensures forall x, g :: (x, g) in Tag(xs, fl) <==> x in xs && g == fl
  {
    forall x | x in xs ensures (x, fl) in Tag(xs, fl) {
    }
  }

  lemma TagUnion<T>(xs: set<T>, ys: set<T>, fl: FlagId)
    ensures Tag(xs + ys, fl) == Tag(xs, fl) + Tag(ys, fl)
  {
  }

  /** Walking one more corner of a boundary adds that corner's vertex and edge. */
  lemma LoopPrefixStep(ls: seq<Loop>, i: nat)
    requires i < |ls|
    ensures LoopVerts(ls[..i + 1]) == LoopVerts(ls[..i]) + {ls[i].v}
    ensures LoopEdges(ls[..i + 1]) == LoopEdges(ls[..i]) + {ls[i].e}
  {
    assert ls[..i + 1] == ls[..i] + [ls[i]];
  }

  lemma BoundaryStep(m: Mesh, fs: set<Face>, f: Face)
    requires f in m.faces
    ensures BoundaryVerts(m, fs + {f}) == BoundaryVerts(m, fs) + LoopVerts(m.faces[f])
    ensures BoundaryEdges(m, fs + {f}) == BoundaryEdges(m, fs) + LoopEdges(m.faces[f])
  {
  }

  lemma EndpointsStep(m: Mesh, es: set<Edge>, e: Edge)
    requires e in m.edges
    ensures Endpoints(m, es + {e}) == Endpoints(m, es) + {m.edges[e].v1, m.edges[e].v2}
  {
  }

  /** The boundary of a live face of a consistent mesh uses at least one live edge. */
  lemma FaceHasLiveEdge(m: Mesh, f: Face)
    requires Valid(m) && f in m.faces
    ensures LoopEdges(m.faces[f]) * m.edges.Keys != {}
  {
    var l := m.faces[f][0];
    assert LoopOk(m, l);
    assert l.e in LoopEdges(m.faces[f]) * m.edges.Keys;
  }

  /** Taking one more element out of a loop's to-do set adds it to the part of `all` already done, if it belongs there. */
  lemma DoneStep<T>(all: set<T>, todo: set<T>, x: T)
    requires x in todo
    ensures x in all ==> all - (todo - {x}) == (all - todo) + {x}
    ensures x !in all ==> all - (todo - {x}) == all - todo
  {
  }

  /** Tagging the endpoints of one more edge adds the tags of its two endpoints. */
  lemma TagEndpointsStep(m: Mesh, es: set<Edge>, e: Edge, fl: FlagId)
    requires e in m.edges
    ensures Tag(Endpoints(m, es + {e}), fl) == Tag(Endpoints(m, es), fl) + {(m.edges[e].v1, fl)} + {(m.edges[e].v2, fl)}
  {
    EndpointsStep(m, es, e);
    TagUnion(Endpoints(m, es), {m.edges[e].v1, m.edges[e].v2}, fl);
  }

  /** Consistency does not depend on the flag store. */
  lemma ValidIgnoresFlags(m: Mesh, m': Mesh)
    requires m'.verts == m.verts && m'.edges == m.edges && m'.faces == m.faces
    ensures Valid(m') <==> Valid(m)
  {
    assert forall l :: LoopOk(m', l) <==> LoopOk(m, l);
  }

  // ---------------------------------------------------------------------
  // The kill cascade of the kernel primitives, for a set of elements.
  // ---------------------------------------------------------------------

  /** The mesh after killing the faces `df`. */
  function WithoutFaces(m: Mesh, df: set<Face>): (r: Mesh)
    ensures r == m.(faces := r.faces)
    ensures forall f :: f in r.faces <==> f in m.faces && f !in df
    ensures forall f :: f in r.faces ==> r.faces[f] == m.faces[f]
  {
    m.(faces := m.faces - df)
  }

  /** The mesh after killing the edges `de`: their faces go with them. */
  function WithoutEdges(m: Mesh, de: set<Edge>): (r: Mesh)
    ensures r == m.(edges := r.edges, faces := r.faces)
    ensures forall e :: e in r.edges <==> e in m.edges && e !in de
    ensures forall e :: e in r.edges ==> r.edges[e] == m.edges[e]
    ensures forall f :: f in r.faces <==> f in m.faces && (forall l :: l in m.faces[f] ==> l.e !in de)
    ensures forall f :: f in r.faces ==> r.faces[f] == m.faces[f]
  {
    m.(edges := m.edges - de,
       faces := map f | f in m.faces && LoopEdges(m.faces[f]) !! de :: m.faces[f])
  }

  /** The mesh after killing the vertices `dv`: their edges and those edges' faces go with them. */
  function WithoutVerts(m: Mesh, dv: set<Vert>): (r: Mesh)
    ensures r == m.(verts := r.verts, edges := r.edges, faces := r.faces)
    ensures forall v :: v in r.verts <==> v in m.verts && v !in dv
    ensures forall e :: e in r.edges <==> e in m.edges && m.edges[e].v1 !in dv && m.edges[e].v2 !in dv
    ensures forall e :: e in r.edges ==> r.edges[e] == m.edges[e]
    ensures forall f :: f in r.faces <==> f in m.faces && LoopEdges(m.faces[f]) !! IncidentEdges(m, dv)
    ensures forall f :: f in r.faces ==> r.faces[f] == m.faces[f]
  {
    var r := WithoutEdges(m, IncidentEdges(m, dv));
    r.(verts := r.verts - dv)
  }

  lemma WithoutFacesValid(m: Mesh, df: set<Face>)
    requires Valid(m)
    ensures Valid(WithoutFaces(m, df))
  {
    var r := WithoutFaces(m, df);
    forall f, l | f in r.faces && l in r.faces[f] ensures LoopOk(r, l) {
      assert LoopOk(m, l);
    }
  }

  lemma WithoutEdgesValid(m: Mesh, de: set<Edge>)
    requires Valid(m)
    ensures Valid(WithoutEdges(m, de))
  {
    var r := WithoutEdges(m, de);
    forall f, l | f in r.faces && l in r.faces[f] ensures LoopOk(r, l) {
      assert LoopOk(m, l);
      assert l.e in LoopEdges(m.faces[f]);
    }
  }

  /** Killing vertices leaves a consistent mesh: a loop at a killed vertex uses an edge that was killed too. */
  lemma {:induction false} WithoutVertsValid(m: Mesh, dv: set<Vert>)
    requires Valid(m)
    ensures Valid(WithoutVerts(m, dv))
  {
    var de := IncidentEdges(m, dv);
    var r := WithoutVerts(m, dv);
    forall e | e in r.edges ensures r.edges[e].v1 in r.verts && r.edges[e].v2 in r.verts {
      assert e !in de;
    }
    forall f, l | f in r.faces && l in r.faces[f] ensures LoopOk(r, l) && l.v in r.verts {
      assert l.e in LoopEdges(m.faces[f]);
      assert LoopOk(m, l);
      assert l.e !in de;
    }
  }

  lemma WithoutFacesTwice(m: Mesh, a: set<Face>, b: set<Face>)
    ensures WithoutFaces(WithoutFaces(m, a), b) == WithoutFaces(m, a + b)
  {
  }

  lemma WithoutEdgesTwice(m: Mesh, a: set<Edge>, b: set<Edge>)
    ensures WithoutEdges(WithoutEdges(m, a), b) == WithoutEdges(m, a + b)
  {
    var r1 := WithoutEdges(WithoutEdges(m, a), b);
    var r2 := WithoutEdges(m, a + b);
    assert r1.faces == r2.faces;
    assert r1.edges == r2.edges;
  }

  lemma WithoutVertsTwice(m: Mesh, a: set<Vert>, b: set<Vert>)
    ensures WithoutVerts(WithoutVerts(m, a), b) == WithoutVerts(m, a + b)
  {
    var ma := WithoutVerts(m, a);
    var ea := IncidentEdges(m, a);
    var eb := IncidentEdges(ma, b);
    assert ea + eb == IncidentEdges(m, a + b);
    WithoutEdgesTwice(m, ea, eb);
  }
}
