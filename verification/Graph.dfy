/** The network of the geographic load balancer: nodes, links, walks and distances. */
module Graph {
  import opened Address

  datatype NodeType = CLIENT | SWITCH | SERVER

  datatype Node = Node(id: int, kind: NodeType, ip: uint32)

  /** What the default constructor builds when a map is read at a missing id. */
  const DEFAULT_NODE := Node(0, CLIENT, 0)

  datatype Neighbor = Neighbor(id: int, distance: int)

  /** One undirected line of the geography file. */
  datatype Link = Link(a: int, b: int, cost: int)

  type Nodes = map<int, Node>
  type Edges = map<int, seq<Neighbor>>

  datatype Network = Network(nodes: Nodes, edges: Edges)

  function NodeAt(nodes: Nodes, id: int): Node {
    if id in nodes then nodes[id] else DEFAULT_NODE
  }

  function Adj(edges: Edges, id: int): seq<Neighbor> {
    if id in edges then edges[id] else []
  }

  /** Only declared switches and servers can be walked through; clients cannot. */
  predicate Passable(nodes: Nodes, id: int) { NodeAt(nodes, id).kind != CLIENT }

  predicate IsServer(nodes: Nodes, id: int) { NodeAt(nodes, id).kind == SERVER }

  // ----- adjacency lists built from links

  function AddHalf(edges: Edges, u: int, nb: Neighbor): Edges {
    edges[u := Adj(edges, u) + [nb]]
  }

  function AddLink(edges: Edges, l: Link): Edges {
    AddHalf(AddHalf(edges, l.a, Neighbor(l.b, l.cost)), l.b, Neighbor(l.a, l.cost))
  }

  function EdgesOf(links: seq<Link>): Edges {
    if links == [] then map[]
    else AddLink(EdgesOf(links[..|links| - 1]), links[|links| - 1])
  }

  /** The adjacency lists are exactly the symmetric multigraph of the links: each link appears once
      in each direction, parallel links are kept, and nothing else is there. */
  lemma {:induction false} EdgesAreLinks(links: seq<Link>, u: int, v: int, d: int)
    ensures multiset(Adj(EdgesOf(links), u))[Neighbor(v, d)]
         == multiset(links)[Link(u, v, d)] + multiset(links)[Link(v, u, d)]
  {
    if links != [] {
      var init, l := links[..|links| - 1], links[|links| - 1];
      EdgesAreLinks(init, u, v, d);
      CountLast(links, Link(u, v, d));
      CountLast(links, Link(v, u, d));
      var e := EdgesOf(init);
      HalfCount(e, l.a, Neighbor(l.b, l.cost), u, Neighbor(v, d));
      HalfCount(AddHalf(e, l.a, Neighbor(l.b, l.cost)), l.b, Neighbor(l.a, l.cost), u, Neighbor(v, d));
    }
  }

  lemma CountLast(links: seq<Link>, x: Link)
    requires links != []
    ensures multiset(links)[x] == multiset(links[..|links| - 1])[x] + (if links[|links| - 1] == x then 1 else 0)
  {
    assert links == links[..|links| - 1] + [links[|links| - 1]];
  }

  lemma HalfCount(e: Edges, u: int, nb: Neighbor, x: int, q: Neighbor)
    ensures multiset(Adj(AddHalf(e, u, nb), x))[q]
         == multiset(Adj(e, x))[q] + (if x == u && q == nb then 1 else 0)
  {
  }

  /** Traffic can flow both ways over every link, with the same multiplicity and cost. */
  lemma EdgesAreSymmetric(links: seq<Link>, u: int, v: int, d: int)
    ensures multiset(Adj(EdgesOf(links), u))[Neighbor(v, d)]
         == multiset(Adj(EdgesOf(links), v))[Neighbor(u, d)]
  {
    EdgesAreLinks(links, u, v, d);
    EdgesAreLinks(links, v, u, d);
  }

  predicate Joins(links: seq<Link>, u: int, v: int, d: int) {
    Link(u, v, d) in links || Link(v, u, d) in links
  }

  lemma AdjIsJoins(links: seq<Link>, u: int, nb: Neighbor)
    ensures nb in Adj(EdgesOf(links), u) <==> Joins(links, u, nb.id, nb.distance)
  {
    EdgesAreLinks(links, u, nb.id, nb.distance);
    assert nb == Neighbor(nb.id, nb.distance);
    assert multiset(Adj(EdgesOf(links), u))[nb] > 0 <==> nb in Adj(EdgesOf(links), u);
    assert multiset(links)[Link(u, nb.id, nb.distance)] > 0 <==> Link(u, nb.id, nb.distance) in links;
    assert multiset(links)[Link(nb.id, u, nb.distance)] > 0 <==> Link(nb.id, u, nb.distance) in links;
  }

  // ----- walks

  datatype Walk = Start(id: int) | Step(prev: Walk, hop: Neighbor)

  function End(w: Walk): int {
    match w
    case Start(id) => id
    case Step(_, hop) => hop.id
  }

  function Cost(w: Walk): int {
    match w
    case Start(_) => 0
    case Step(prev, hop) => Cost(prev) + hop.distance
  }

  function Vertices(w: Walk): set<int> {
    match w
    case Start(id) => {id}
    case Step(prev, hop) => Vertices(prev) + {hop.id}
  }

  /** No vertex is visited twice. */
  predicate IsSimple(w: Walk) {
    match w
    case Start(_) => true
    case Step(prev, hop) => IsSimple(prev) && hop.id !in Vertices(prev)
  }

  /** A walk of the search: it starts at `o`, follows adjacency entries, and enters no client. */
  predicate IsWalk(g: Network, o: int, w: Walk) {
    match w
    case Start(id) => id == o
    case Step(prev, hop) => IsWalk(g, o, prev) && hop in Adj(g.edges, End(prev)) && Passable(g.nodes, hop.id)
  }

  /** A walk over the undirected links of the file, through declared non-clients only. */
  predicate IsLinkWalk(nodes: Nodes, links: seq<Link>, o: int, w: Walk) {
    match w
    case Start(id) => id == o
    case Step(prev, hop) =>
      IsLinkWalk(nodes, links, o, prev) && Joins(links, End(prev), hop.id, hop.distance)
      && hop.id in nodes && nodes[hop.id].kind != CLIENT
  }

  lemma {:induction false} WalkIsLinkWalk(nodes: Nodes, links: seq<Link>, o: int, w: Walk)
    ensures IsWalk(Network(nodes, EdgesOf(links)), o, w) <==> IsLinkWalk(nodes, links, o, w)
  {
    match w
    case Start(_) =>
    case Step(prev, hop) =>
      WalkIsLinkWalk(nodes, links, o, prev);
      AdjIsJoins(links, End(prev), hop);
  }

  ghost predicate NonNegative(edges: Edges) {
    forall u, nb :: nb in Adj(edges, u) ==> nb.distance >= 0
  }

  /** Every link into a server has a positive cost. */
  ghost predicate ServersApart(g: Network) {
    forall u, nb :: nb in Adj(g.edges, u) && IsServer(g.nodes, nb.id) ==> nb.distance > 0
  }

  lemma {:induction false} CostNonNegative(g: Network, o: int, w: Walk)
    requires NonNegative(g.edges) && IsWalk(g, o, w)
    ensures Cost(w) >= 0
  {
    if w.Step? {
      CostNonNegative(g, o, w.prev);
    }
  }

  /** Some walk leads from `o` to a server. */
  ghost predicate ServerReachable(g: Network, o: int) {
    exists w :: IsWalk(g, o, w) && IsServer(g.nodes, End(w))
  }

  /** `s` is a server at distance `d`, and no walk reaches any server more cheaply. */
  ghost predicate IsNearest(g: Network, o: int, s: int, d: int) {
    && IsServer(g.nodes, s)
    && (exists w :: IsWalk(g, o, w) && End(w) == s && Cost(w) == d)
    && (forall w :: IsWalk(g, o, w) && IsServer(g.nodes, End(w)) ==> d <= Cost(w))
  }

  // ----- the cost of simple walks is bounded by the cost of all links

  function TotalCost(links: seq<Link>): int {
    if links == [] then 0 else links[0].cost + TotalCost(links[1..])
  }

  /** The cost of the links with both ends in `S`. */
  function InsideCost(links: seq<Link>, S: set<int>): int {
    if links == [] then 0
    else (if links[0].a in S && links[0].b in S then links[0].cost else 0) + InsideCost(links[1..], S)
  }

  ghost predicate NonNegativeLinks(links: seq<Link>) {
    forall l :: l in links ==> l.cost >= 0
  }

  lemma {:induction false} InsideAtMostTotal(links: seq<Link>, S: set<int>)
    requires NonNegativeLinks(links)
    ensures 0 <= InsideCost(links, S) <= TotalCost(links)
  {
    if links != [] {
      assert links[0] in links;
      InsideAtMostTotal(links[1..], S);
    }
  }

  lemma {:induction false} InsideMonotone(links: seq<Link>, S: set<int>, T: set<int>)
    requires NonNegativeLinks(links) && S <= T
    ensures InsideCost(links, S) <= InsideCost(links, T)
  {
    if links != [] {
      assert links[0] in links;
      InsideMonotone(links[1..], S, T);
    }
  }

  lemma {:induction false} InsideGrows(links: seq<Link>, S: set<int>, l: Link, x: int)
    requires NonNegativeLinks(links) && l in links
    requires l.a in S + {x} && l.b in S + {x} && (l.a == x || l.b == x) && x !in S
    ensures InsideCost(links, S) + l.cost <= InsideCost(links, S + {x})
  {
    if links[0] == l {
      InsideMonotone(links[1..], S, S + {x});
    } else {
      assert links[0] in links;
      InsideGrows(links[1..], S, l, x);
    }
  }

  /** A simple walk uses each link at most once, so it costs at most the links among its vertices. */
  lemma {:induction false} SimpleWalkInside(nodes: Nodes, links: seq<Link>, o: int, w: Walk)
    requires NonNegativeLinks(links) && IsLinkWalk(nodes, links, o, w) && IsSimple(w)
    ensures Cost(w) <= InsideCost(links, Vertices(w))
  {
    match w
    case Start(id) => InsideAtMostTotal(links, {id});
    case Step(prev, hop) =>
      SimpleWalkInside(nodes, links, o, prev);
      EndInVertices(prev);
      var l := if Link(End(prev), hop.id, hop.distance) in links
               then Link(End(prev), hop.id, hop.distance) else Link(hop.id, End(prev), hop.distance);
      InsideGrows(links, Vertices(prev), l, hop.id);
  }

  lemma EndInVertices(w: Walk)
    ensures End(w) in Vertices(w)
  {
  }

  lemma NonNegativeLinksEdges(links: seq<Link>)
    ensures NonNegativeLinks(links) ==> NonNegative(EdgesOf(links))
  {
    forall u, nb: Neighbor | nb in Adj(EdgesOf(links), u)
      ensures Joins(links, u, nb.id, nb.distance)
    {
      AdjIsJoins(links, u, nb);
    }
  }
}
