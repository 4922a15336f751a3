/** The nearest-server search on values: one expansion at a time, until a server is on top or the
    frontier is empty. The class `Geography.Geography` runs it on its own fields. */
module Search {
  import opened Text
  import opened Graph

  /** `current`, `distMap` and `visited` of the search. */
  datatype State = State(current: Neighbor, distMap: map<int, int>, visited: set<int>)

  /** The comparison given to `min_element`: distances only. */
  predicate MapComp(lhs: (int, int), rhs: (int, int)) { lhs.1 < rhs.1 }

  /** `min_element` over a map ordered by id: the first entry that no other entry is less than. */
  predicate IsFirstMin(m: map<int, int>, k: int) {
    && k in m
    && (forall j | j in m :: !MapComp((j, m[j]), (k, m[k])))
    && (forall j | j in m && j < k :: MapComp((k, m[k]), (j, m[j])))
  }

  lemma {:induction false} FirstMinExists(m: map<int, int>)
    requires m != map[]
    ensures exists k :: IsFirstMin(m, k)
    decreases |m|
  {
    assert (forall k :: k !in m) ==> m.Keys == {};
    var k: int :| k in m;
    var m' := map j | j in m && (m[j] < m[k] || (m[j] == m[k] && j < k)) :: m[j];
    if m' == map[] {
      assert forall j :: j in m ==> j !in m';
      assert IsFirstMin(m, k);
    } else {
      assert m'.Keys < m.Keys by { assert k !in m'.Keys; }
      CardinalityLess(m'.Keys, m.Keys);
      FirstMinExists(m');
      var b :| IsFirstMin(m', b);
      assert IsFirstMin(m, b) by {
        forall j | j in m
          ensures !MapComp((j, m[j]), (b, m[b])) && (j < b ==> MapComp((b, m[b]), (j, m[j])))
        {
          if j in m' {
            assert !MapComp((j, m'[j]), (b, m'[b])) && (j < b ==> MapComp((b, m'[b]), (j, m'[j])));
          }
        }
      }
    }
  }

  lemma CardinalityLess(a: set<int>, b: set<int>)
    requires a < b
    ensures |a| < |b|
  {
    assert b == a + (b - a);
    assert b - a != {};
  }

  ghost function FirstMin(m: map<int, int>): (k: int)
    requires m != map[]
    ensures IsFirstMin(m, k)
  {
    FirstMinExists(m);
    var k :| IsFirstMin(m, k);
    k
  }

  lemma FirstMinUnique(m: map<int, int>, j: int, k: int)
    requires IsFirstMin(m, j) && IsFirstMin(m, k)
    ensures j == k
  {
  }

  // ----- one expansion

  /** A neighbour that is skipped: already visited, or a client. */
  predicate Skipped(nodes: Nodes, visited: set<int>, id: int) {
    id in visited || !Passable(nodes, id)
  }

  function RelaxOne(nodes: Nodes, visited: set<int>, d: int, m: map<int, int>, nb: Neighbor): map<int, int> {
    if Skipped(nodes, visited, nb.id) then m
    else if nb.id !in m then m[nb.id := d + nb.distance]
    else m[nb.id := if d + nb.distance < m[nb.id] then d + nb.distance else m[nb.id]]
  }

  function Relaxed(nodes: Nodes, visited: set<int>, d: int, m: map<int, int>, nbs: seq<Neighbor>): map<int, int> {
    if nbs == [] then m
    else RelaxOne(nodes, visited, d, Relaxed(nodes, visited, d, m, nbs[..|nbs| - 1]), nbs[|nbs| - 1])
  }

  ghost predicate Offers(nodes: Nodes, visited: set<int>, nbs: seq<Neighbor>, k: int, c: int) {
    Neighbor(k, c) in nbs && !Skipped(nodes, visited, k)
  }

  /** `r` is `m` improved by everything the neighbours offer, and by nothing else. */
  ghost predicate IsImprovement(nodes: Nodes, visited: set<int>, d: int, m: map<int, int>, nbs: seq<Neighbor>, r: map<int, int>) {
    && m.Keys <= r.Keys
    && (forall k :: k in m ==> r[k] <= m[k])
    && (forall k, c :: Offers(nodes, visited, nbs, k, c) ==> k in r && r[k] <= d + c)
    && (forall k :: k in r ==> (k in m && r[k] == m[k]) || Offers(nodes, visited, nbs, k, r[k] - d))
  }

  lemma RelaxOneImproves(nodes: Nodes, visited: set<int>, d: int, m: map<int, int>, init: seq<Neighbor>, nb: Neighbor, r: map<int, int>)
    requires IsImprovement(nodes, visited, d, m, init, r)
    ensures IsImprovement(nodes, visited, d, m, init + [nb], RelaxOne(nodes, visited, d, r, nb))
  {
    var nbs, r' := init + [nb], RelaxOne(nodes, visited, d, r, nb);
    assert nb == Neighbor(nb.id, nb.distance);
    forall k | k in r'
      ensures (k in m && r'[k] == m[k]) || Offers(nodes, visited, nbs, k, r'[k] - d)
    {
      if k in r && r'[k] == r[k] {
        assert (k in m && r[k] == m[k]) || Offers(nodes, visited, init, k, r[k] - d);
      } else {
        assert nb == Neighbor(k, r'[k] - d);
      }
    }
    forall k, c | Offers(nodes, visited, nbs, k, c)
      ensures k in r' && r'[k] <= d + c
    {
      if Neighbor(k, c) in init {
        assert Offers(nodes, visited, init, k, c);
      }
    }
  }

  lemma {:induction false} RelaxedImproves(nodes: Nodes, visited: set<int>, d: int, m: map<int, int>, nbs: seq<Neighbor>)
    ensures IsImprovement(nodes, visited, d, m, nbs, Relaxed(nodes, visited, d, m, nbs))
  {
    if nbs != [] {
      var init, nb := nbs[..|nbs| - 1], nbs[|nbs| - 1];
      RelaxedImproves(nodes, visited, d, m, init);
      assert nbs == init + [nb];
      RelaxOneImproves(nodes, visited, d, m, init, nb, Relaxed(nodes, visited, d, m, init));
    }
  }

  function Init(o: int): State {
    State(Neighbor(o, 0), map[o := 0], {})
  }

  ghost function Expand(g: Network, st: State): State {
    var visited := st.visited + {st.current.id};
    var m := Relaxed(g.nodes, visited, st.current.distance, st.distMap - {st.current.id}, Adj(g.edges, st.current.id));
    var current := if m == map[] then st.current else var k := FirstMin(m); Neighbor(k, m[k]);
    State(current, m, visited)
  }

  /** The loop goes on: something is left and the node on top is not a server. */
  ghost predicate Running(g: Network, st: State) {
    st.distMap != map[] && !IsServer(g.nodes, st.current.id)
  }

  // ----- the whole search

  /** The ids the search may ever visit. */
  ghost function Universe(g: Network, o: int): set<int> {
    {o} + set id | id in g.nodes && g.nodes[id].kind != CLIENT
  }

  /** The frontier is unvisited, inside the universe, and `current` is its first minimum. */
  ghost predicate Sound(g: Network, o: int, st: State) {
    && st.distMap.Keys <= Universe(g, o) - st.visited
    && st.visited <= Universe(g, o)
    && (st.distMap != map[] ==> IsFirstMin(st.distMap, st.current.id) && st.distMap[st.current.id] == st.current.distance)
  }

  ghost function Remaining(g: Network, o: int, st: State): nat {
    |Universe(g, o) - st.visited|
  }

  lemma ExpandSound(g: Network, o: int, st: State)
    requires Sound(g, o, st) && Running(g, st)
    ensures Sound(g, o, Expand(g, st))
    ensures Remaining(g, o, Expand(g, st)) < Remaining(g, o, st)
  {
    var c := st.current.id;
    var visited := st.visited + {c};
    RelaxedImproves(g.nodes, visited, st.current.distance, st.distMap - {c}, Adj(g.edges, c));
    var m := Expand(g, st).distMap;
    forall k | k in m
      ensures k in Universe(g, o) - visited
    {
      assert k in st.distMap - {c} || !Skipped(g.nodes, visited, k);
    }
    CardinalityLess(Universe(g, o) - visited, Universe(g, o) - st.visited);
  }

  /** The server found from a state on, if any. */
  ghost function Run(g: Network, o: int, st: State): Option<int>
    requires Sound(g, o, st)
    decreases Remaining(g, o, st)
  {
    if st.distMap == map[] then None
    else if IsServer(g.nodes, st.current.id) then Some(st.current.id)
    else
      ExpandSound(g, o, st);
      Run(g, o, Expand(g, st))
  }

  /** One turn of the loop does not change what the search finds, and makes progress. */
  lemma RunStep(g: Network, o: int, st: State)
    requires Sound(g, o, st) && Running(g, st)
    ensures Sound(g, o, Expand(g, st)) && Run(g, o, Expand(g, st)) == Run(g, o, st)
    ensures Remaining(g, o, Expand(g, st)) < Remaining(g, o, st)
  {
    ExpandSound(g, o, st);
  }

  ghost function Nearest(g: Network, o: int): Option<int> {
    Run(g, o, Init(o))
  }

  /** The nodes expanded from a state on, with the distances they are expanded at. */
  ghost function Expansions(g: Network, o: int, st: State): seq<Neighbor>
    requires Sound(g, o, st)
    decreases Remaining(g, o, st)
  {
    if !Running(g, st) then []
    else
      ExpandSound(g, o, st);
      [st.current] + Expansions(g, o, Expand(g, st))
  }

  // ----- what every expansion keeps, whatever the costs

  /** A simple walk through visited nodes only (but for its end) leads to `k` at cost `d`. */
  ghost predicate Witnessed(g: Network, o: int, visited: set<int>, k: int, d: int) {
    exists w :: IsWalk(g, o, w) && End(w) == k && Cost(w) == d && IsSimple(w) && Vertices(w) <= visited + {k}
  }

  ghost predicate Shape(g: Network, o: int, st: State) {
    && Sound(g, o, st)
    && (o in st.visited || st == Init(o))
    && (forall u :: u in st.visited ==> !IsServer(g.nodes, u))
    && (forall u, nb :: u in st.visited && nb in Adj(g.edges, u) && Passable(g.nodes, nb.id)
          ==> nb.id in st.visited || nb.id in st.distMap)
    && (forall k :: k in st.distMap ==> Witnessed(g, o, st.visited, k, st.distMap[k]))
  }

  lemma InitShape(g: Network, o: int)
    ensures Shape(g, o, Init(o))
  {
    assert IsWalk(g, o, Start(o)) && End(Start(o)) == o && Cost(Start(o)) == 0;
  }

  lemma WitnessStep(g: Network, o: int, visited: set<int>, c: int, d: int, nb: Neighbor)
    requires Witnessed(g, o, visited, c, d) && nb in Adj(g.edges, c)
    requires !Skipped(g.nodes, visited + {c}, nb.id)
    ensures Witnessed(g, o, visited + {c}, nb.id, d + nb.distance)
  {
    var w :| IsWalk(g, o, w) && End(w) == c && Cost(w) == d && IsSimple(w) && Vertices(w) <= visited + {c};
    var w' := Step(w, nb);
    assert IsWalk(g, o, w') && End(w') == nb.id && Cost(w') == d + nb.distance && IsSimple(w')
        && Vertices(w') <= visited + {c} + {nb.id};
  }

  lemma ExpandWitnesses(g: Network, o: int, st: State)
    requires Shape(g, o, st) && Running(g, st)
    ensures var st' := Expand(g, st);
      forall k :: k in st'.distMap ==> Witnessed(g, o, st'.visited, k, st'.distMap[k])
  {
    var c, d := st.current.id, st.current.distance;
    var st' := Expand(g, st);
    RelaxedImproves(g.nodes, st'.visited, d, st.distMap - {c}, Adj(g.edges, c));
    forall k | k in st'.distMap
      ensures Witnessed(g, o, st'.visited, k, st'.distMap[k])
    {
      if k in st.distMap && st'.distMap[k] == st.distMap[k] {
        var w :| IsWalk(g, o, w) && End(w) == k && Cost(w) == st.distMap[k] && IsSimple(w)
              && Vertices(w) <= st.visited + {k};
        assert Vertices(w) <= st'.visited + {k};
      } else {
        WitnessStep(g, o, st.visited, c, d, Neighbor(k, st'.distMap[k] - d));
      }
    }
  }

  lemma ExpandShape(g: Network, o: int, st: State)
    requires Shape(g, o, st) && Running(g, st)
    ensures Shape(g, o, Expand(g, st))
  {
    var c := st.current.id;
    var st' := Expand(g, st);
    ExpandSound(g, o, st);
    ExpandWitnesses(g, o, st);
    RelaxedImproves(g.nodes, st'.visited, st.current.distance, st.distMap - {c}, Adj(g.edges, c));
    forall u, nb | u in st'.visited && nb in Adj(g.edges, u) && Passable(g.nodes, nb.id)
      ensures nb.id in st'.visited || nb.id in st'.distMap
    {
      if u == c && nb.id !in st'.visited {
        assert nb == Neighbor(nb.id, nb.distance);
        assert Offers(g.nodes, st'.visited, Adj(g.edges, c), nb.id, nb.distance);
      } else if u in st.visited && nb.id !in st'.visited {
        assert nb.id in st.distMap - {c};
      }
    }
  }

  /** Every walk stays among the visited nodes or crosses the frontier. */
  lemma {:induction false} WalkCrosses(g: Network, o: int, st: State, w: Walk)
    requires Shape(g, o, st) && IsWalk(g, o, w)
    ensures End(w) in st.visited || exists k :: k in st.distMap && k in Vertices(w)
  {
    match w
    case Start(_) => assert st == Init(o) ==> o in st.distMap;
    case Step(prev, hop) => WalkCrosses(g, o, st, prev);
  }

  /** Completeness: for any costs, no server is found exactly when none can be reached. */
  lemma {:induction false} RunComplete(g: Network, o: int, st: State)
    requires Shape(g, o, st)
    ensures Run(g, o, st).None? <==> !ServerReachable(g, o)
    decreases Remaining(g, o, st)
  {
    if Running(g, st) {
      ExpandShape(g, o, st);
      ExpandSound(g, o, st);
      RunComplete(g, o, Expand(g, st));
    } else if st.distMap == map[] {
      forall w | IsWalk(g, o, w)
        ensures !IsServer(g.nodes, End(w))
      {
        WalkCrosses(g, o, st, w);
      }
    } else {
      assert Witnessed(g, o, st.visited, st.current.id, st.current.distance);
    }
  }

  lemma NearestComplete(g: Network, o: int)
    ensures Nearest(g, o).None? <==> !ServerReachable(g, o)
  {
    InitShape(g, o);
    RunComplete(g, o, Init(o));
  }

  // ----- what every expansion keeps when costs are not negative

  /** `dist` holds the distances of the visited nodes. */
  ghost predicate Settled(g: Network, st: State, dist: map<int, int>) {
    && dist.Keys == st.visited
    && (forall u, k :: u in dist && k in st.distMap ==> dist[u] <= st.distMap[k])
    && (forall u, nb :: u in dist && nb in Adj(g.edges, u) && nb.id in dist && Passable(g.nodes, nb.id)
          ==> dist[nb.id] <= dist[u] + nb.distance)
    && (forall u, nb :: u in dist && nb in Adj(g.edges, u) && nb.id in st.distMap
          ==> st.distMap[nb.id] <= dist[u] + nb.distance)
  }

  ghost predicate Inv(g: Network, o: int, st: State, dist: map<int, int>) {
    && Shape(g, o, st)
    && NonNegative(g.edges)
    && Settled(g, st, dist)
    && (o in dist ==> dist[o] <= 0)
  }

  lemma TopIsLeast(g: Network, o: int, st: State)
    requires Sound(g, o, st)
    ensures forall k :: k in st.distMap ==> st.current.distance <= st.distMap[k]
  {
    forall k | k in st.distMap
      ensures st.current.distance <= st.distMap[k]
    {
      assert !MapComp((k, st.distMap[k]), (st.current.id, st.distMap[st.current.id]));
    }
  }

  /** The frontier never falls below the distance just expanded. */
  lemma ExpandMonotone(g: Network, o: int, st: State)
    requires Sound(g, o, st) && Running(g, st) && NonNegative(g.edges)
    ensures forall k :: k in Expand(g, st).distMap ==> st.current.distance <= Expand(g, st).distMap[k]
  {
    var c, d := st.current.id, st.current.distance;
    var st', m := Expand(g, st), st.distMap - {c};
    RelaxedImproves(g.nodes, st'.visited, d, m, Adj(g.edges, c));
    TopIsLeast(g, o, st);
    forall k | k in st'.distMap
      ensures d <= st'.distMap[k]
    {
      if !(k in m && st'.distMap[k] == m[k]) {
        assert Offers(g.nodes, st'.visited, Adj(g.edges, c), k, st'.distMap[k] - d);
        assert Neighbor(k, st'.distMap[k] - d).distance >= 0;
      }
    }
  }

  lemma FrontierAfterExpand(g: Network, o: int, st: State, k: int)
    requires Shape(g, o, st) && Running(g, st) && k in Expand(g, st).distMap
    ensures !Skipped(g.nodes, Expand(g, st).visited, k)
  {
    ExpandShape(g, o, st);
    assert o in Expand(g, st).visited;
  }

  lemma ExpandRelaxes(g: Network, o: int, st: State, dist: map<int, int>, u: int, nb: Neighbor)
    requires Inv(g, o, st, dist) && Running(g, st)
    requires u in dist || u == st.current.id
    requires nb in Adj(g.edges, u) && nb.id in Expand(g, st).distMap
    ensures Expand(g, st).distMap[nb.id] <= (if u == st.current.id then st.current.distance else dist[u]) + nb.distance
  {
    var c, d := st.current.id, st.current.distance;
    var st', m := Expand(g, st), st.distMap - {c};
    RelaxedImproves(g.nodes, st'.visited, d, m, Adj(g.edges, c));
    FrontierAfterExpand(g, o, st, nb.id);
    if u == c {
      assert Neighbor(nb.id, nb.distance) == nb;
      assert Offers(g.nodes, st'.visited, Adj(g.edges, c), nb.id, nb.distance);
    } else {
      assert nb.id in m;
    }
  }

  lemma ExpandSettled(g: Network, o: int, st: State, dist: map<int, int>)
    requires Inv(g, o, st, dist) && Running(g, st)
    ensures Settled(g, Expand(g, st), dist[st.current.id := st.current.distance])
  {
    var st', dist' := Expand(g, st), dist[st.current.id := st.current.distance];
    ExpandMonotone(g, o, st);
    TopIsLeast(g, o, st);
    assert forall u :: u in dist ==> dist[u] <= st.current.distance;
    forall u, nb | u in dist' && nb in Adj(g.edges, u) && nb.id in st'.distMap
      ensures st'.distMap[nb.id] <= dist'[u] + nb.distance
    {
      ExpandRelaxes(g, o, st, dist, u, nb);
    }
  }

  lemma ExpandInv(g: Network, o: int, st: State, dist: map<int, int>)
    requires Inv(g, o, st, dist) && Running(g, st)
    ensures Inv(g, o, Expand(g, st), dist[st.current.id := st.current.distance])
  {
    ExpandShape(g, o, st);
    ExpandSettled(g, o, st, dist);
  }

  lemma InitInv(g: Network, o: int)
    requires NonNegative(g.edges)
    ensures Inv(g, o, Init(o), map[])
  {
    InitShape(g, o);
  }

  /** No walk beats the recorded distances: it ends settled at no more than its own cost, or some
      frontier node is already no farther than the walk. */
  lemma {:induction false} WalkBound(g: Network, o: int, st: State, dist: map<int, int>, w: Walk)
    requires Inv(g, o, st, dist) && IsWalk(g, o, w)
    ensures (End(w) in dist && dist[End(w)] <= Cost(w)) || exists k :: k in st.distMap && st.distMap[k] <= Cost(w)
  {
    match w
    case Start(_) => assert st == Init(o) ==> o in st.distMap;
    case Step(prev, hop) =>
      WalkBound(g, o, st, dist, prev);
  }

  lemma TopIsNearest(g: Network, o: int, st: State, dist: map<int, int>)
    requires Inv(g, o, st, dist) && st.distMap != map[] && IsServer(g.nodes, st.current.id)
    ensures IsNearest(g, o, st.current.id, st.current.distance)
  {
    var c := st.current.id;
    assert Witnessed(g, o, st.visited, c, st.current.distance);
    forall w | IsWalk(g, o, w) && IsServer(g.nodes, End(w))
      ensures st.current.distance <= Cost(w)
    {
      WalkBound(g, o, st, dist, w);
      TopIsLeast(g, o, st);
    }
  }

  lemma {:induction false} RunNearest(g: Network, o: int, st: State, dist: map<int, int>) returns (d: int)
    requires Inv(g, o, st, dist)
    ensures Run(g, o, st).Some? ==> IsNearest(g, o, Run(g, o, st).value, d)
    decreases Remaining(g, o, st)
  {
    d := st.current.distance;
    if Running(g, st) {
      ExpandInv(g, o, st, dist);
      ExpandSound(g, o, st);
      d := RunNearest(g, o, Expand(g, st), dist[st.current.id := st.current.distance]);
    } else if st.distMap != map[] {
      TopIsNearest(g, o, st, dist);
    }
  }

  /** Nearest server: with non-negative costs the server found is at the least distance of all. */
  lemma NearestIsNearest(g: Network, o: int)
    requires NonNegative(g.edges) && Nearest(g, o).Some?
    ensures exists d :: IsNearest(g, o, Nearest(g, o).value, d)
  {
    InitInv(g, o);
    var d := RunNearest(g, o, Init(o), map[]);
  }
}
