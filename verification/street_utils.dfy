/**
  The build-time intersection contraction `StreetUtils.unify`. The graph is a
  map from vertex identity to vertex plus a map from edge identity to the
  edge's (from, to) endpoints. Java object identity is modelled by ids; a new
  vertex object receives the graph's next unused id.
*/
module StreetUtils {
  import opened Wrappers

  type VertexId = nat
  type EdgeId = nat

  datatype Endpoints = Endpoints(from: VertexId, to: VertexId)

  /** The vertex classes `unify` reads or creates. */
  datatype Vertex =
    | IntersectionVertex(vertexLabel: string, x: real, y: real, name: string,
                         inStreet: Option<EdgeId>, outStreet: Option<EdgeId>)
      /** Any vertex that is not an `IntersectionVertex`: casting it fails. */
    | OtherVertex(vertexLabel: string, x: real, y: real, name: string)
      /** `new DeadEnd(v)`: its own fields are not part of this model. */
    | DeadEnd(wrapped: Vertex)
    | GenericStreetIntersectionVertex(vertexLabel: string, x: real, y: real, name: string,
                                      incoming: seq<EdgeId>, outgoing: seq<EdgeId>)

  datatype Graph = Graph(
    vertices: map<VertexId, Vertex>,
    edges: map<EdgeId, Endpoints>,
    nextId: VertexId)

  /** A member of an intersection: the vertex object and its identity. */
  datatype Member = Member(id: VertexId, vertex: Vertex)

  /** `getDegree()` is kept separate from the member list: nothing here relates them. */
  datatype Intersection = Intersection(degree: int, members: seq<Member>)

  /** The exceptions `unify` can throw. */
  datatype UnifyError = IndexOutOfBounds | ClassCast(id: VertexId)

  datatype Direction = In | Out

  /** The endpoint of an edge on the side the direction names: the to-vertex
      of an in-street, the from-vertex of an out-street. */
  function EndOf(p: Endpoints, dir: Direction): VertexId
  {
    if dir == In then p.to else p.from
  }

  /** `inStreet` or `outStreet` of an intersection vertex; `None` for null and
      for every other kind of vertex. */
  function Street(v: Vertex, dir: Direction): Option<EdgeId>
  {
    if !v.IntersectionVertex? then None
    else if dir == In then v.inStreet
    else v.outStreet
  }

  // ---------------------------------------------------------------------------
  // Well-formedness of the input

  /** Every id in the graph and the intersections is below `nextId`, so the next
      new vertex is distinct from every existing object. */
  predicate IdsBelow(g: Graph, xs: seq<Intersection>)
  {
    && (forall v | v in g.vertices :: v < g.nextId)
    && (forall e | e in g.edges :: g.edges[e].from < g.nextId && g.edges[e].to < g.nextId)
    && (forall i, j | 0 <= i < |xs| && 0 <= j < |xs[i].members| :: xs[i].members[j].id < g.nextId)
  }

  /** Every street a member refers to is one of the graph's edges. */
  predicate StreetsKnown(keys: set<EdgeId>, v: Vertex)
  {
    (Street(v, In).Some? ==> Street(v, In).value in keys) &&
    (Street(v, Out).Some? ==> Street(v, Out).value in keys)
  }

  predicate EdgesKnown(keys: set<EdgeId>, xs: seq<Intersection>)
  {
    forall i, j | 0 <= i < |xs| && 0 <= j < |xs[i].members| :: StreetsKnown(keys, xs[i].members[j].vertex)
  }

  // ---------------------------------------------------------------------------
  // Reference definitions

  /** The non-null streets of the given direction of the members, in member order. */
  function Streets(ms: seq<Member>, dir: Direction): seq<EdgeId>
  {
    if ms == [] then [] else AsSeq(Street(ms[0].vertex, dir)) + Streets(ms[1..], dir)
  }

  function AsSeq(o: Option<EdgeId>): seq<EdgeId>
  {
    if o.Some? then [o.value] else []
  }

  function MemberIds(ms: seq<Member>): set<VertexId>
  {
    set j | 0 <= j < |ms| :: ms[j].id
  }

  predicate AllIntersectionVertices(ms: seq<Member>)
  {
    forall j | 0 <= j < |ms| :: ms[j].vertex.IntersectionVertex?
  }

  /** Intersections of degree 1 or 2 are rewritten; all others are skipped. */
  predicate Rewritten(x: Intersection)
  {
    x.degree == 1 || x.degree == 2
  }

  /** `unify` throws on this intersection exactly when this is false. */
  predicate WellCast(x: Intersection)
  {
    !Rewritten(x) ||
    (|x.members| > 0 &&
     (x.degree == 1 ==> x.members[0].vertex.IntersectionVertex?) &&
     (x.degree == 2 ==> AllIntersectionVertices(x.members)))
  }

  /** The ids of the vertices that `unify` removes for this intersection. */
  function RemovedBy(x: Intersection): set<VertexId>
  {
    if x.degree == 1 && |x.members| > 0 then {x.members[0].id}
    else if x.degree == 2 then MemberIds(x.members)
    else {}
  }

  /** The streets of the given direction that a degree-2 intersection repoints. */
  function Repointed(x: Intersection, dir: Direction): seq<EdgeId>
  {
    if x.degree == 2 then Streets(x.members, dir) else []
  }

  /** The first member whose cast to `IntersectionVertex` throws. */
  function FirstMiscast(ms: seq<Member>): (j: nat)
    requires !AllIntersectionVertices(ms)
    ensures j < |ms| && !ms[j].vertex.IntersectionVertex?
    ensures forall k | 0 <= k < j :: ms[k].vertex.IntersectionVertex?
    decreases |ms|
  {
    if !ms[0].vertex.IntersectionVertex? then 0
    else
      assert forall k | 0 <= k < |ms[1..]| :: ms[1..][k] == ms[k + 1];
      1 + FirstMiscast(ms[1..])
  }

  // ---------------------------------------------------------------------------
  // Lemmas about the reference definitions

  lemma MemberIdsCons(ms: seq<Member>)
    requires ms != []
    ensures MemberIds(ms) == {ms[0].id} + MemberIds(ms[1..])
  {
    forall v | v in MemberIds(ms)
      ensures v in {ms[0].id} + MemberIds(ms[1..])
    {
      var j :| 0 <= j < |ms| && ms[j].id == v;
      if j > 0 { assert ms[1..][j - 1] == ms[j]; }
    }
    forall v | v in MemberIds(ms[1..])
      ensures v in MemberIds(ms)
    {
      var j :| 0 <= j < |ms[1..]| && ms[1..][j].id == v;
      assert ms[j + 1] == ms[1..][j];
    }
  }

  lemma {:induction false} StreetsAppend(a: seq<Member>, m: Member, dir: Direction)
    ensures Streets(a + [m], dir) == Streets(a, dir) + AsSeq(Street(m.vertex, dir))
    decreases |a|
  {
    if a == [] {
      assert [m][1..] == [];
    } else {
      assert (a + [m])[1..] == a[1..] + [m];
      StreetsAppend(a[1..], m, dir);
    }
  }

  /** The index set of members that have a street in the given direction. */
  function WithStreet(ms: seq<Member>, dir: Direction): set<nat>
  {
    set j | 0 <= j < |ms| && Street(ms[j].vertex, dir).Some?
  }

  /** There is exactly one collected street per member that has one. */
  lemma {:induction false} StreetsCount(ms: seq<Member>, dir: Direction)
    ensures |Streets(ms, dir)| == |WithStreet(ms, dir)|
    decreases |ms|
  {
    if ms != [] {
      var n := |ms| - 1;
      var a := ms[..n];
      assert ms == a + [ms[n]];
      StreetsAppend(a, ms[n], dir);
      StreetsCount(a, dir);
      var prev := WithStreet(a, dir);
      assert n !in prev;
      if Street(ms[n].vertex, dir).Some? {
        assert WithStreet(ms, dir) == prev + {n};
      } else {
        assert WithStreet(ms, dir) == prev;
      }
    }
  }

  // ---------------------------------------------------------------------------
  // Graph operations

  /** `edge.setToVertex(v)`. */
  function SetToVertex(edges: map<EdgeId, Endpoints>, e: EdgeId, v: VertexId): map<EdgeId, Endpoints>
    requires e in edges
  {
    edges[e := edges[e].(to := v)]
  }

  /** `edge.setFromVertex(v)`. */
  function SetFromVertex(edges: map<EdgeId, Endpoints>, e: EdgeId, v: VertexId): map<EdgeId, Endpoints>
    requires e in edges
  {
    edges[e := edges[e].(from := v)]
  }

  /** The state of the degree-2 loop: the graph's vertices and edges, and the
      incoming and outgoing lists of the new vertex. */
  datatype Absorbed = Absorbed(
    vertices: map<VertexId, Vertex>,
    edges: map<EdgeId, Endpoints>,
    incoming: seq<EdgeId>,
    outgoing: seq<EdgeId>)

  /** The body of the degree-2 loop for one member: register and repoint its
      in-street and out-street, then remove the member from the graph. */
  function AbsorbMember(m: Member, generic: VertexId, acc: Absorbed): (r: Absorbed)
    requires m.vertex.IntersectionVertex? && StreetsKnown(acc.edges.Keys, m.vertex)
    ensures r.vertices == acc.vertices - {m.id}
    ensures r.incoming == acc.incoming + AsSeq(Street(m.vertex, In))
    ensures r.outgoing == acc.outgoing + AsSeq(Street(m.vertex, Out))
    ensures r.edges.Keys == acc.edges.Keys
  {
    var v := m.vertex;
    var a1 :=
      if v.inStreet.Some? then
        acc.(incoming := acc.incoming + [v.inStreet.value],
             edges := SetToVertex(acc.edges, v.inStreet.value, generic))
      else acc;
    assert a1.edges.Keys == acc.edges.Keys;
    var a2 :=
      if v.outStreet.Some? then
        a1.(outgoing := a1.outgoing + [v.outStreet.value],
            edges := SetFromVertex(a1.edges, v.outStreet.value, generic))
      else a1;
    a2.(vertices := a2.vertices - {m.id})
  }

  lemma TailAbsorbable(ms: seq<Member>, keys: set<EdgeId>)
    requires ms != [] && AllIntersectionVertices(ms)
    requires forall j | 0 <= j < |ms| :: StreetsKnown(keys, ms[j].vertex)
    ensures ms[0].vertex.IntersectionVertex? && StreetsKnown(keys, ms[0].vertex)
    ensures AllIntersectionVertices(ms[1..])
    ensures forall j | 0 <= j < |ms[1..]| :: StreetsKnown(keys, ms[1..][j].vertex)
  {
    assert forall j | 0 <= j < |ms[1..]| :: ms[1..][j] == ms[j + 1];
  }

  /** One loop step points exactly the member's in-street (out-street) at the
      new vertex, on its to-side (from-side). */
  lemma AbsorbMemberRepoints(m: Member, generic: VertexId, acc: Absorbed, dir: Direction)
    requires m.vertex.IntersectionVertex? && StreetsKnown(acc.edges.Keys, m.vertex)
    ensures var r := AbsorbMember(m, generic, acc);
      forall e | e in r.edges ::
        EndOf(r.edges[e], dir) == (if Street(m.vertex, dir) == Some(e) then generic else EndOf(acc.edges[e], dir))
  {
  }

  /** The loop of the degree-2 case over all members, in order. */
  function Absorb(ms: seq<Member>, generic: VertexId, acc: Absorbed): (r: Absorbed)
    requires AllIntersectionVertices(ms)
    requires forall j | 0 <= j < |ms| :: StreetsKnown(acc.edges.Keys, ms[j].vertex)
    ensures r.edges.Keys == acc.edges.Keys
    decreases |ms|
  {
    if ms == [] then acc
    else
      TailAbsorbable(ms, acc.edges.Keys);
      Absorb(ms[1..], generic, AbsorbMember(ms[0], generic, acc))
  }

  /** The loop removes every member from the graph, and nothing else. */
  lemma {:induction false} AbsorbRemoves(ms: seq<Member>, generic: VertexId, acc: Absorbed)
    requires AllIntersectionVertices(ms)
    requires forall j | 0 <= j < |ms| :: StreetsKnown(acc.edges.Keys, ms[j].vertex)
    ensures Absorb(ms, generic, acc).vertices == acc.vertices - MemberIds(ms)
    decreases |ms|
  {
    if ms != [] {
      MemberIdsCons(ms);
      TailAbsorbable(ms, acc.edges.Keys);
      var a := AbsorbMember(ms[0], generic, acc);
      AbsorbRemoves(ms[1..], generic, a);
      var r := Absorb(ms, generic, acc);
      assert r == Absorb(ms[1..], generic, a);
      assert r.vertices == (acc.vertices - {ms[0].id}) - MemberIds(ms[1..]);
      assert r.vertices.Keys == (acc.vertices - MemberIds(ms)).Keys;
    }
  }

  /** One unfolding of the loop: the first member is absorbed, then the rest. */
  lemma AbsorbStep(ms: seq<Member>, generic: VertexId, acc: Absorbed)
    requires ms != [] && AllIntersectionVertices(ms)
    requires forall j | 0 <= j < |ms| :: StreetsKnown(acc.edges.Keys, ms[j].vertex)
    ensures ms[0].vertex.IntersectionVertex? && StreetsKnown(acc.edges.Keys, ms[0].vertex)
    ensures AllIntersectionVertices(ms[1..])
    ensures Absorb(ms, generic, acc) == Absorb(ms[1..], generic, AbsorbMember(ms[0], generic, acc))
  {
    TailAbsorbable(ms, acc.edges.Keys);
  }

  /** Appending the collected streets of a non-empty member list to a prefix
      is appending the first member's street, then the rest. */
  lemma StreetsCons(ms: seq<Member>, dir: Direction, pre: seq<EdgeId>)
    requires ms != []
    ensures pre + Streets(ms, dir) == (pre + AsSeq(Street(ms[0].vertex, dir))) + Streets(ms[1..], dir)
  {
  }

  /** The list of the new vertex that collects streets of the given direction. */
  function Collected(a: Absorbed, dir: Direction): seq<EdgeId>
  {
    if dir == In then a.incoming else a.outgoing
  }

  /** The loop collects the members' non-null in-streets (out-streets), in
      member order, into the new vertex's incoming (outgoing) list. */
  lemma {:induction false} AbsorbCollects(ms: seq<Member>, generic: VertexId, acc: Absorbed, dir: Direction)
    requires AllIntersectionVertices(ms)
    requires forall j | 0 <= j < |ms| :: StreetsKnown(acc.edges.Keys, ms[j].vertex)
    ensures Collected(Absorb(ms, generic, acc), dir) == Collected(acc, dir) + Streets(ms, dir)
    decreases |ms|
  {
    if ms == [] {
      assert Streets(ms, dir) == [];
    } else {
      AbsorbStep(ms, generic, acc);
      var a := AbsorbMember(ms[0], generic, acc);
      assert Collected(a, dir) == Collected(acc, dir) + AsSeq(Street(ms[0].vertex, dir));
      AbsorbCollects(ms[1..], generic, a, dir);
      StreetsCons(ms, dir, Collected(acc, dir));
    }
  }

  /** The loop points an edge's to-vertex (from-vertex) at the new vertex
      exactly when the edge is some member's in-street (out-street), and leaves
      the endpoint alone otherwise. */
  lemma {:induction false} AbsorbRepoints(ms: seq<Member>, generic: VertexId, acc: Absorbed, dir: Direction)
    requires AllIntersectionVertices(ms)
    requires forall j | 0 <= j < |ms| :: StreetsKnown(acc.edges.Keys, ms[j].vertex)
    ensures var r := Absorb(ms, generic, acc);
      forall e | e in r.edges ::
        EndOf(r.edges[e], dir) == (if e in Streets(ms, dir) then generic else EndOf(acc.edges[e], dir))
    decreases |ms|
  {
    if ms != [] {
      TailAbsorbable(ms, acc.edges.Keys);
      var a := AbsorbMember(ms[0], generic, acc);
      AbsorbRepoints(ms[1..], generic, a, dir);
      var r := Absorb(ms, generic, acc);
      assert r == Absorb(ms[1..], generic, a);
      assert Streets(ms, dir) == AsSeq(Street(ms[0].vertex, dir)) + Streets(ms[1..], dir);
      forall e | e in r.edges
        ensures EndOf(r.edges[e], dir) == (if e in Streets(ms, dir) then generic else EndOf(acc.edges[e], dir))
      {
        assert e in a.edges;
        AbsorbMemberRepoints(ms[0], generic, acc, dir);
        assert EndOf(a.edges[e], dir) ==
          (if Street(ms[0].vertex, dir) == Some(e) then generic else EndOf(acc.edges[e], dir));
        assert e in AsSeq(Street(ms[0].vertex, dir)) <==> Street(ms[0].vertex, dir) == Some(e);
      }
    }
  }

  /** The degree-2 case: one new vertex at the first member's place takes over
      all members' streets, and every member is removed. */
  function Merge(g: Graph, ms: seq<Member>): (r: Graph)
    requires |ms| > 0 && AllIntersectionVertices(ms)
    requires forall j | 0 <= j < |ms| :: StreetsKnown(g.edges.Keys, ms[j].vertex)
    ensures r.nextId == g.nextId + 1
    ensures r.vertices.Keys == (g.vertices.Keys - MemberIds(ms)) + {g.nextId}
    ensures forall v | v in g.vertices && v !in MemberIds(ms) && v != g.nextId ::
      r.vertices[v] == g.vertices[v]
    ensures var v1 := ms[0].vertex; var n := r.vertices[g.nextId];
      && n.GenericStreetIntersectionVertex?
      && n.vertexLabel == v1.vertexLabel && n.x == v1.x && n.y == v1.y && n.name == v1.name
      && n.incoming == Streets(ms, In) && n.outgoing == Streets(ms, Out)
    ensures r.edges.Keys == g.edges.Keys
    ensures forall e | e in g.edges ::
      r.edges[e].to == (if e in Streets(ms, In) then g.nextId else g.edges[e].to)
    ensures forall e | e in g.edges ::
      r.edges[e].from == (if e in Streets(ms, Out) then g.nextId else g.edges[e].from)
  {
    var v1 := ms[0].vertex;
    var start := Absorbed(g.vertices, g.edges, [], []);
    AbsorbRepoints(ms, g.nextId, start, In);
    AbsorbRepoints(ms, g.nextId, start, Out);
    AbsorbCollects(ms, g.nextId, start, In);
    AbsorbCollects(ms, g.nextId, start, Out);
    AbsorbRemoves(ms, g.nextId, start);
    var a := Absorb(ms, g.nextId, start);
    var generic := GenericStreetIntersectionVertex(v1.vertexLabel, v1.x, v1.y, v1.name, a.incoming, a.outgoing);
    Graph(a.vertices[g.nextId := generic], a.edges, g.nextId + 1)
  }

  /** The new vertex of a degree-2 intersection has one incoming edge per
      member with an in-street, and one outgoing edge per member with an
      out-street. */
  lemma MergedDegree(g: Graph, ms: seq<Member>)
    requires |ms| > 0 && AllIntersectionVertices(ms)
    requires forall j | 0 <= j < |ms| :: StreetsKnown(g.edges.Keys, ms[j].vertex)
    ensures |Merge(g, ms).vertices[g.nextId].incoming| == |WithStreet(ms, In)|
    ensures |Merge(g, ms).vertices[g.nextId].outgoing| == |WithStreet(ms, Out)|
  {
    StreetsCount(ms, In);
    StreetsCount(ms, Out);
  }

  /** One iteration of the loop in `unify`. */
  function UnifyOne(g: Graph, x: Intersection): (r: Result<Graph, UnifyError>)
    requires IdsBelow(g, [x]) && EdgesKnown(g.edges.Keys, [x])
    ensures r.Success? <==> WellCast(x)
    ensures !Rewritten(x) ==> r == Success(g)
    ensures r.Success? ==>
      && r.value.nextId == g.nextId + (if Rewritten(x) then 1 else 0)
      && r.value.vertices.Keys ==
           (g.vertices.Keys - RemovedBy(x)) + (if Rewritten(x) then {g.nextId} else {})
      && (forall v | v in g.vertices && v !in RemovedBy(x) && v != g.nextId ::
            r.value.vertices[v] == g.vertices[v])
      && r.value.edges.Keys == g.edges.Keys
      && (forall e | e in g.edges ::
            r.value.edges[e].to == (if e in Repointed(x, In) then g.nextId else g.edges[e].to))
      && (forall e | e in g.edges ::
            r.value.edges[e].from == (if e in Repointed(x, Out) then g.nextId else g.edges[e].from))
    ensures r.Success? && x.degree == 1 ==>
      r.value.vertices[g.nextId] == DeadEnd(x.members[0].vertex)
    ensures Rewritten(x) && |x.members| == 0 ==> r == Failure(IndexOutOfBounds)
    ensures x.degree == 1 && |x.members| > 0 && !x.members[0].vertex.IntersectionVertex? ==>
      r == Failure(ClassCast(x.members[0].id))
    ensures x.degree == 2 && |x.members| > 0 && !AllIntersectionVertices(x.members) ==>
      r == Failure(ClassCast(x.members[FirstMiscast(x.members)].id))
  {
    if x.degree == 1 then
      if |x.members| == 0 then Failure(IndexOutOfBounds)
      else
        var m := x.members[0];
        if !m.vertex.IntersectionVertex? then Failure(ClassCast(m.id))
        else
          // graph.addVertex(new DeadEnd(v)); graph.removeVertex(v)
          assert m.id < g.nextId by { assert [x][0] == x; }
          var added := g.vertices[g.nextId := DeadEnd(m.vertex)];
          Success(Graph(added - {m.id}, g.edges, g.nextId + 1))
    else if x.degree == 2 then
      if |x.members| == 0 then Failure(IndexOutOfBounds)
      else if !AllIntersectionVertices(x.members) then
        Failure(ClassCast(x.members[FirstMiscast(x.members)].id))
      else
        assert forall j | 0 <= j < |x.members| :: StreetsKnown(g.edges.Keys, x.members[j].vertex) by {
          assert [x][0] == x;
        }
        Success(Merge(g, x.members))
    else
      Success(g)
  }

  // ---------------------------------------------------------------------------
  // The whole pass

  /** How many of the intersections are of degree 1 or 2. */
  function RewrittenCount(xs: seq<Intersection>): nat
  {
    if xs == [] then 0 else (if Rewritten(xs[0]) then 1 else 0) + RewrittenCount(xs[1..])
  }

  function RemovedByAll(xs: seq<Intersection>): set<VertexId>
  {
    if xs == [] then {} else RemovedBy(xs[0]) + RemovedByAll(xs[1..])
  }

  function RepointedAll(xs: seq<Intersection>, dir: Direction): seq<EdgeId>
  {
    if xs == [] then [] else Repointed(xs[0], dir) + RepointedAll(xs[1..], dir)
  }

  /** The ids given to the vertices created from `first` on, before `next`. */
  function NewIds(first: VertexId, next: VertexId): (r: set<VertexId>)
    ensures forall k :: k in r <==> first <= k < next
    decreases next - first
  {
    if first >= next then {} else {first} + NewIds(first + 1, next)
  }

  lemma WellFormedSplit(g: Graph, xs: seq<Intersection>)
    requires xs != []
    requires IdsBelow(g, xs) && EdgesKnown(g.edges.Keys, xs)
    ensures IdsBelow(g, [xs[0]]) && EdgesKnown(g.edges.Keys, [xs[0]])
    ensures IdsBelow(g, xs[1..]) && EdgesKnown(g.edges.Keys, xs[1..])
  {
    assert [xs[0]][0] == xs[0];
    assert forall i | 0 <= i < |xs[1..]| :: xs[1..][i] == xs[i + 1];
  }

  /** The ids `unify` removes all belong to intersection members. */
  lemma {:induction false} RemovedAreOld(g: Graph, xs: seq<Intersection>)
    requires IdsBelow(g, xs)
    ensures forall v | v in RemovedByAll(xs) :: v < g.nextId
    decreases |xs|
  {
    if xs != [] {
      assert forall i | 0 <= i < |xs[1..]| :: xs[1..][i] == xs[i + 1];
      RemovedAreOld(g, xs[1..]);
      forall v | v in RemovedBy(xs[0])
        ensures v < g.nextId
      {
        var j :| 0 <= j < |xs[0].members| && xs[0].members[j].id == v;
      }
    }
  }

  /** After one rewrite, the rest of the input is still well formed against
      the new graph. */
  lemma UnifyOneKeepsWellFormed(g: Graph, xs: seq<Intersection>)
    requires xs != []
    requires IdsBelow(g, xs) && EdgesKnown(g.edges.Keys, xs)
    requires IdsBelow(g, [xs[0]]) && EdgesKnown(g.edges.Keys, [xs[0]])
    requires WellCast(xs[0])
    ensures var g1 := UnifyOne(g, xs[0]).value;
      IdsBelow(g1, xs[1..]) && EdgesKnown(g1.edges.Keys, xs[1..])
  {
    WellFormedSplit(g, xs);
  }

  /** `unify`: rewrite the intersections in order; the first exception ends
      the pass. */
  function Unify(g: Graph, xs: seq<Intersection>): (r: Result<Graph, UnifyError>)
    requires IdsBelow(g, xs) && EdgesKnown(g.edges.Keys, xs)
    ensures r.Success? <==> (forall i | 0 <= i < |xs| :: WellCast(xs[i]))
    ensures r.Success? ==> r.value.edges.Keys == g.edges.Keys
    ensures r.Success? ==> r.value.nextId == g.nextId + RewrittenCount(xs)
    decreases |xs|
  {
    if xs == [] then Success(g)
    else
      WellFormedSplit(g, xs);
      assert forall i | 0 <= i < |xs[1..]| :: xs[1..][i] == xs[i + 1];
      match UnifyOne(g, xs[0])
      case Failure(e) => Failure(e)
      case Success(g1) =>
        UnifyOneKeepsWellFormed(g, xs);
        Unify(g1, xs[1..])
  }

  /** Which vertices exist after `unify`: every vertex not removed for a
      rewritten intersection stays, unchanged, and each rewritten intersection
      adds exactly one new vertex. */
  lemma {:induction false} UnifyVertices(g: Graph, xs: seq<Intersection>)
    requires IdsBelow(g, xs) && EdgesKnown(g.edges.Keys, xs)
    requires Unify(g, xs).Success?
    ensures var h := Unify(g, xs).value;
      h.vertices.Keys == (g.vertices.Keys - RemovedByAll(xs)) + NewIds(g.nextId, h.nextId)
    ensures var h := Unify(g, xs).value;
      forall v | v in g.vertices && v !in RemovedByAll(xs) :: h.vertices[v] == g.vertices[v]
    decreases |xs|
  {
    if xs != [] {
      WellFormedSplit(g, xs);
      var g1 := UnifyOne(g, xs[0]).value;
      UnifyOneKeepsWellFormed(g, xs);
      var h := Unify(g, xs).value;
      assert h == Unify(g1, xs[1..]).value;
      UnifyVertices(g1, xs[1..]);
      RemovedAreOld(g, xs[1..]);
      assert g.nextId !in RemovedByAll(xs[1..]);
      assert NewIds(g.nextId, h.nextId) ==
        (if Rewritten(xs[0]) then {g.nextId} else {}) + NewIds(g1.nextId, h.nextId);
    }
  }

  /** Where edges point after `unify`: an edge keeps its to-vertex unless it is
      the in-street of a member of a degree-2 intersection, and then it points
      to one of the new vertices; likewise for from-vertices and out-streets. */
  lemma {:induction false} UnifyEdges(g: Graph, xs: seq<Intersection>, dir: Direction)
    requires IdsBelow(g, xs) && EdgesKnown(g.edges.Keys, xs)
    requires Unify(g, xs).Success?
    ensures var h := Unify(g, xs).value;
      forall e | e in g.edges ::
        (e !in RepointedAll(xs, dir) ==> EndOf(h.edges[e], dir) == EndOf(g.edges[e], dir)) &&
        (e in RepointedAll(xs, dir) ==>
           EndOf(h.edges[e], dir) in NewIds(g.nextId, h.nextId) && EndOf(h.edges[e], dir) in h.vertices)
    decreases |xs|
  {
    if xs != [] {
      WellFormedSplit(g, xs);
      var g1 := UnifyOne(g, xs[0]).value;
      UnifyOneKeepsWellFormed(g, xs);
      var h := Unify(g, xs).value;
      assert h == Unify(g1, xs[1..]).value;
      UnifyEdges(g1, xs[1..], dir);
      UnifyVertices(g, xs);
      assert RepointedAll(xs, dir) == Repointed(xs[0], dir) + RepointedAll(xs[1..], dir);
      assert Rewritten(xs[0]) ==> g1.nextId == g.nextId + 1;
      forall e | e in g.edges
        ensures e !in RepointedAll(xs, dir) ==> EndOf(h.edges[e], dir) == EndOf(g.edges[e], dir)
        ensures e in RepointedAll(xs, dir) ==>
          EndOf(h.edges[e], dir) in NewIds(g.nextId, h.nextId) && EndOf(h.edges[e], dir) in h.vertices
      {
        assert e in g1.edges;
        if e in Repointed(xs[0], dir) {
          assert EndOf(g1.edges[e], dir) == g.nextId;
        } else {
          assert EndOf(g1.edges[e], dir) == EndOf(g.edges[e], dir);
        }
      }
    }
  }

  /** A pass over intersections none of which has degree 1 or 2 changes nothing. */
  lemma {:induction false} UnifySkipsTrueIntersections(g: Graph, xs: seq<Intersection>)
    requires IdsBelow(g, xs) && EdgesKnown(g.edges.Keys, xs)
    requires forall i | 0 <= i < |xs| :: !Rewritten(xs[i])
    ensures Unify(g, xs) == Success(g)
    decreases |xs|
  {
    if xs != [] {
      WellFormedSplit(g, xs);
      assert UnifyOne(g, xs[0]) == Success(g);
      assert forall i | 0 <= i < |xs[1..]| :: xs[1..][i] == xs[i + 1];
      UnifySkipsTrueIntersections(g, xs[1..]);
    }
  }
}
