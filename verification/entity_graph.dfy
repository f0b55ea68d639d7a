/** The entity graph (EntityAnalysisHelper.CreateGraph): a vertex per entity
    key and per member, and an edge from each entity to each of its non-null
    members. The graph library's adjacency graph is modelled by its vertex
    set and the sequence of edges in the order they were added; parallel
    edges are kept. */
module EntityGraph {
  import opened Wrappers
  import opened Dictionaries

  datatype Edge = Edge(source: string, target: string)

  datatype Graph = Graph(vertices: set<string>, edges: seq<Edge>)

  /** A member list as the graph builder receives it: `None` is a null
      entry. */
  type Members = seq<Option<string>>

  /** Every edge joins two vertices of the graph. */
  ghost predicate WellFormed(g: Graph)
  {
    forall e :: e in g.edges ==> e.source in g.vertices && e.target in g.vertices
  }

  /** Adding a vertex; adding one that is already present is a no-op. */
  function AddVertex(g: Graph, v: string): Graph
  {
    Graph(g.vertices + {v}, g.edges)
  }

  /** Adding an edge; both ends must already be vertices. */
  function AddEdge(g: Graph, e: Edge): Graph
    requires e.source in g.vertices && e.target in g.vertices
  {
    Graph(g.vertices, g.edges + [e])
  }

  /** Re-adding a vertex leaves the graph unchanged, so adding a vertex is
      idempotent and never grows the vertex set twice. */
  lemma AddVertexIdempotent(g: Graph, v: string)
    ensures v in g.vertices ==> AddVertex(g, v) == g
    ensures AddVertex(AddVertex(g, v), v) == AddVertex(g, v)
    ensures |AddVertex(g, v).vertices| == if v in g.vertices then |g.vertices| else |g.vertices| + 1
  {
  }

  /** The non-null members of a list, as a set. */
  function NonNull(members: Members): set<string>
    decreases |members|
  {
    if |members| == 0 then {}
    else (if members[0].Some? then {members[0].value} else {}) + NonNull(members[1..])
  }

  /** The edges an entity contributes: one to each non-null member, in member
      order. */
  function MemberEdges(parent: string, members: Members): seq<Edge>
    decreases |members|
  {
    if |members| == 0 then []
    else (if members[0].Some? then [Edge(parent, members[0].value)] else []) + MemberEdges(parent, members[1..])
  }

  /** All keys of the entity map. */
  function KeySet(entities: Dict<string, Members>): (ks: set<string>)
    ensures forall k :: k in ks <==> k in Keys(entities)
    decreases |entities|
  {
    if |entities| == 0 then {} else {entities[0].key} + KeySet(entities[1..])
  }

  /** All non-null members of all entities. */
  function MemberSet(entities: Dict<string, Members>): set<string>
    decreases |entities|
  {
    if |entities| == 0 then {} else NonNull(entities[0].value) + MemberSet(entities[1..])
  }

  /** All edges, entity by entity in enumeration order. */
  function EdgeList(entities: Dict<string, Members>): seq<Edge>
    decreases |entities|
  {
    if |entities| == 0 then [] else MemberEdges(entities[0].key, entities[0].value) + EdgeList(entities[1..])
  }

  /** The inner loop of CreateGraph: for each non-null member, add it as a
      vertex and add the edge from the parent to it. */
  function AddMembers(g: Graph, parent: string, members: Members): Graph
    requires parent in g.vertices
    decreases |members|
  {
    if |members| == 0 then g
    else
      var next := match members[0]
        case None => g
        case Some(m) => AddEdge(AddVertex(g, m), Edge(parent, m));
      AddMembers(next, parent, members[1..])
  }

  /** The inner loop adds exactly the non-null members as vertices. */
  lemma {:induction false} AddMembersVertices(g: Graph, parent: string, members: Members)
    requires parent in g.vertices
    ensures AddMembers(g, parent, members).vertices == g.vertices + NonNull(members)
    decreases |members|
  {
    if |members| > 0 {
      var next := match members[0]
        case None => g
        case Some(m) => AddEdge(AddVertex(g, m), Edge(parent, m));
      AddMembersVertices(next, parent, members[1..]);
    }
  }

  /** The inner loop appends one edge per non-null member, in member order. */
  lemma {:induction false} AddMembersEdges(g: Graph, parent: string, members: Members)
    requires parent in g.vertices
    ensures AddMembers(g, parent, members).edges == g.edges + MemberEdges(parent, members)
    decreases |members|
  {
    if |members| > 0 {
      var next := match members[0]
        case None => g
        case Some(m) => AddEdge(AddVertex(g, m), Edge(parent, m));
      AddMembersEdges(next, parent, members[1..]);
      assert next.edges == g.edges + MemberEdges(parent, members[..1]);
    }
  }

  /** The inner loop keeps every edge between two vertices. */
  lemma {:induction false} AddMembersWellFormed(g: Graph, parent: string, members: Members)
    requires parent in g.vertices
    requires WellFormed(g)
    ensures WellFormed(AddMembers(g, parent, members))
    decreases |members|
  {
    if |members| > 0 {
      var next := match members[0]
        case None => g
        case Some(m) => AddEdge(AddVertex(g, m), Edge(parent, m));
      AddMembersWellFormed(next, parent, members[1..]);
    }
  }

  /** The outer loop of CreateGraph: add each key as a vertex, then its
      members. */
  function AddEntities(g: Graph, entities: Dict<string, Members>): Graph
    decreases |entities|
  {
    if |entities| == 0 then g
    else
      var e := entities[0];
      AddEntities(AddMembers(AddVertex(g, e.key), e.key, e.value), entities[1..])
  }

  /** The outer loop adds exactly the keys and the non-null members as
      vertices. */
  lemma {:induction false} AddEntitiesVertices(g: Graph, entities: Dict<string, Members>)
    ensures AddEntities(g, entities).vertices == g.vertices + KeySet(entities) + MemberSet(entities)
    decreases |entities|
  {
    if |entities| > 0 {
      var e := entities[0];
      var next := AddMembers(AddVertex(g, e.key), e.key, e.value);
      AddMembersVertices(AddVertex(g, e.key), e.key, e.value);
      AddEntitiesVertices(next, entities[1..]);
    }
  }

  /** The outer loop appends the edges entity by entity. */
  lemma {:induction false} AddEntitiesEdges(g: Graph, entities: Dict<string, Members>)
    ensures AddEntities(g, entities).edges == g.edges + EdgeList(entities)
    decreases |entities|
  {
    if |entities| > 0 {
      var e := entities[0];
      var next := AddMembers(AddVertex(g, e.key), e.key, e.value);
      AddMembersEdges(AddVertex(g, e.key), e.key, e.value);
      AddEntitiesEdges(next, entities[1..]);
      assert g.edges + MemberEdges(e.key, e.value) + EdgeList(entities[1..])
          == g.edges + EdgeList(entities);
    }
  }

  /** The outer loop keeps every edge between two vertices. */
  lemma {:induction false} AddEntitiesWellFormed(g: Graph, entities: Dict<string, Members>)
    requires WellFormed(g)
    ensures WellFormed(AddEntities(g, entities))
    decreases |entities|
  {
    if |entities| > 0 {
      var e := entities[0];
      var next := AddMembers(AddVertex(g, e.key), e.key, e.value);
      AddMembersWellFormed(AddVertex(g, e.key), e.key, e.value);
      AddEntitiesWellFormed(next, entities[1..]);
    }
  }

  /** CreateGraph: the vertices are exactly the keys and the non-null
      members, the edges are the entity-to-member edges in enumeration order,
      and every edge joins two vertices. */
  function CreateGraph(entities: Dict<string, Members>): (g: Graph)
    ensures WellFormed(g)
    ensures g.vertices == KeySet(entities) + MemberSet(entities)
    ensures g.edges == EdgeList(entities)
  {
    var empty := Graph({}, []);
    AddEntitiesVertices(empty, entities);
    AddEntitiesEdges(empty, entities);
    AddEntitiesWellFormed(empty, entities);
    AddEntities(empty, entities)
  }
}
