/** Properties of whole runs of the search: the order of expansions, its length, and the size of
    every number it computes. */
module SearchRuns {
  import opened Text
  import opened Graph
  import opened Search

  // ----- order and number of expansions

  /** The nodes are distinct and belong to `S`. */
  ghost predicate OnceEach(xs: seq<Neighbor>, S: set<int>) {
    && (forall i :: 0 <= i < |xs| ==> xs[i].id in S)
    && (forall i, j :: 0 <= i < j < |xs| ==> xs[i].id != xs[j].id)
  }

  lemma ConsOnce(x: Neighbor, xs: seq<Neighbor>, S: set<int>)
    requires OnceEach(xs, S - {x.id}) && x.id in S
    ensures OnceEach([x] + xs, S)
  {
  }

  lemma MinusOne(S: set<int>, visited: set<int>, c: int)
    ensures S - (visited + {c}) == S - visited - {c}
  {
  }

  /** Whatever the costs: every node is expanded at most once, and only unvisited nodes are; there
      are no more expansions than unvisited nodes. */
  lemma {:induction false} ExpandedOnce(g: Network, o: int, st: State)
    requires Shape(g, o, st)
    ensures OnceEach(Expansions(g, o, st), Universe(g, o) - st.visited)
    ensures |Expansions(g, o, st)| <= Remaining(g, o, st)
    decreases Remaining(g, o, st)
  {
    if Running(g, st) {
      var st' := Expand(g, st);
      ExpandShape(g, o, st);
      ExpandSound(g, o, st);
      ExpandedOnce(g, o, st');
      var S := Universe(g, o) - st.visited;
      MinusOne(Universe(g, o), st.visited, st.current.id);
      ConsOnce(st.current, Expansions(g, o, st'), S);
    }
  }

  /** `d` is the distance from `o` to `v`. */
  ghost predicate IsDistance(g: Network, o: int, v: int, d: int) {
    && (exists w :: IsWalk(g, o, w) && End(w) == v && Cost(w) == d)
    && (forall w :: IsWalk(g, o, w) && End(w) == v ==> d <= Cost(w))
  }

  lemma TopIsDistance(g: Network, o: int, st: State, dist: map<int, int>)
    requires Inv(g, o, st, dist) && st.distMap != map[]
    ensures IsDistance(g, o, st.current.id, st.current.distance)
  {
    assert Witnessed(g, o, st.visited, st.current.id, st.current.distance);
    TopIsLeast(g, o, st);
    forall w | IsWalk(g, o, w) && End(w) == st.current.id
      ensures st.current.distance <= Cost(w)
    {
      WalkBound(g, o, st, dist, w);
    }
  }

  /** Every node is listed at its exact distance, in order of distance, from `d` upwards. */
  ghost predicate InOrder(g: Network, o: int, xs: seq<Neighbor>, d: int) {
    && (forall i :: 0 <= i < |xs| ==> d <= xs[i].distance && IsDistance(g, o, xs[i].id, xs[i].distance))
    && (forall i, j :: 0 <= i < j < |xs| ==> xs[i].distance <= xs[j].distance)
  }

  lemma ConsInOrder(g: Network, o: int, x: Neighbor, xs: seq<Neighbor>, d: int)
    requires InOrder(g, o, xs, d) && IsDistance(g, o, x.id, x.distance) && (xs != [] ==> x.distance <= d)
    ensures InOrder(g, o, [x] + xs, x.distance)
  {
    var ys := [x] + xs;
    assert forall i :: 0 < i < |ys| ==> ys[i] == xs[i - 1];
  }

  /** With non-negative costs nodes are expanded at their exact distance, in order of distance. */
  lemma {:induction false} ExpandedInOrder(g: Network, o: int, st: State, dist: map<int, int>)
    requires Inv(g, o, st, dist)
    ensures InOrder(g, o, Expansions(g, o, st), st.current.distance)
    decreases Remaining(g, o, st)
  {
    if Running(g, st) {
      var st' := Expand(g, st);
      ExpandInv(g, o, st, dist);
      ExpandSound(g, o, st);
      ExpandMonotone(g, o, st);
      TopIsDistance(g, o, st, dist);
      ExpandedInOrder(g, o, st', dist[st.current.id := st.current.distance]);
      ConsInOrder(g, o, st.current, Expansions(g, o, st'), st'.current.distance);
    }
  }

  /** The search from a client, or from anything that is no server: it starts there, expands distinct nodes
      and visits non-clients in order of their exact distance. */
  lemma SearchOrder(g: Network, o: int)
    requires NonNegative(g.edges)
    ensures !IsServer(g.nodes, o) ==> Expansions(g, o, Init(o)) != [] && Expansions(g, o, Init(o))[0] == Neighbor(o, 0)
    ensures forall i :: 0 < i < |Expansions(g, o, Init(o))| ==> Passable(g.nodes, Expansions(g, o, Init(o))[i].id)
    ensures OnceEach(Expansions(g, o, Init(o)), Universe(g, o))
    ensures InOrder(g, o, Expansions(g, o, Init(o)), 0)
    ensures |Expansions(g, o, Init(o))| <= |Universe(g, o)|
  {
    InitShape(g, o);
    InitInv(g, o);
    ExpandedOnce(g, o, Init(o));
    ExpandedInOrder(g, o, Init(o), map[]);
    assert Universe(g, o) - {} == Universe(g, o);
    assert o in Init(o).distMap;
  }

  // ----- reachable states

  /** The state after `n` turns of the loop. */
  ghost function After(g: Network, o: int, n: nat): State {
    if n == 0 then Init(o)
    else
      var st := After(g, o, n - 1);
      if Running(g, st) then Expand(g, st) else st
  }

  lemma {:induction false} AfterShape(g: Network, o: int, n: nat)
    ensures Shape(g, o, After(g, o, n))
    ensures Run(g, o, After(g, o, n)) == Nearest(g, o)
    ensures Running(g, After(g, o, n)) ==> Remaining(g, o, After(g, o, n)) + n <= |Universe(g, o)|
  {
    if n == 0 {
      InitShape(g, o);
      assert Universe(g, o) - {} == Universe(g, o);
    } else {
      var st := After(g, o, n - 1);
      AfterShape(g, o, n - 1);
      if Running(g, st) {
        ExpandShape(g, o, st);
        RunStep(g, o, st);
      }
    }
  }

  lemma RunningRemains(g: Network, o: int, st: State)
    requires Sound(g, o, st) && Running(g, st)
    ensures Remaining(g, o, st) > 0
  {
    assert st.current.id in Universe(g, o) - st.visited;
  }

  /** The loop ends after at most as many turns as there are nodes to visit. */
  lemma SearchEnds(g: Network, o: int)
    ensures !Running(g, After(g, o, |Universe(g, o)|))
  {
    var n := |Universe(g, o)|;
    var st := After(g, o, n);
    AfterShape(g, o, n);
    if Running(g, st) {
      RunningRemains(g, o, st);
    }
  }

  lemma WitnessBounded(nodes: Nodes, links: seq<Link>, o: int, visited: set<int>, k: int, d: int)
    requires NonNegativeLinks(links)
    requires Witnessed(Network(nodes, EdgesOf(links)), o, visited, k, d)
    ensures 0 <= d <= TotalCost(links)
  {
    var g := Network(nodes, EdgesOf(links));
    var w :| IsWalk(g, o, w) && End(w) == k && Cost(w) == d && IsSimple(w) && Vertices(w) <= visited + {k};
    NonNegativeLinksEdges(links);
    CostNonNegative(g, o, w);
    WalkIsLinkWalk(nodes, links, o, w);
    SimpleWalkInside(nodes, links, o, w);
    InsideAtMostTotal(links, Vertices(w));
  }

  /** Every sum the search computes, at any moment, lies between 0 and the cost of all links, so
      if that total fits a 32-bit integer no addition overflows. */
  lemma SumsFit(nodes: Nodes, links: seq<Link>, o: int, n: nat, nb: Neighbor)
    requires NonNegativeLinks(links)
    requires Running(Network(nodes, EdgesOf(links)), After(Network(nodes, EdgesOf(links)), o, n))
    requires var st := After(Network(nodes, EdgesOf(links)), o, n);
      nb in Adj(EdgesOf(links), st.current.id) && !Skipped(nodes, st.visited + {st.current.id}, nb.id)
    ensures 0 <= After(Network(nodes, EdgesOf(links)), o, n).current.distance + nb.distance <= TotalCost(links)
    ensures TotalCost(links) <= INT_MAX ==>
      IsInt32(After(Network(nodes, EdgesOf(links)), o, n).current.distance + nb.distance)
  {
    var g := Network(nodes, EdgesOf(links));
    var st := After(g, o, n);
    AfterShape(g, o, n);
    WitnessStep(g, o, st.visited, st.current.id, st.current.distance, nb);
    WitnessBounded(nodes, links, o, st.visited + {st.current.id}, nb.id, st.current.distance + nb.distance);
  }
}
