/** Which of several nearest servers the search returns: an exact description, for all non-negative costs. */
module SearchTies {
  import opened Text
  import opened Graph
  import opened Search

  // ----- keys

  /** The part of `q` in front of its first number below `x`. */
  function Above(q: seq<int>, x: int): seq<int> {
    if q == [] || q[0] < x then [] else [q[0]] + Above(q[1..], x)
  }

  function Push(q: seq<int>, x: int): seq<int> { Above(q, x) + [x] }

  /** Lexicographic order; a prefix comes first. */
  predicate Leq(p: seq<int>, q: seq<int>) {
    p == [] || (q != [] && (p[0] < q[0] || (p[0] == q[0] && Leq(p[1..], q[1..]))))
  }

  lemma {:induction false} LeqReflexive(p: seq<int>)
    ensures Leq(p, p)
  {
    if p != [] {
      LeqReflexive(p[1..]);
    }
  }

  lemma {:induction false} LeqTransitive(p: seq<int>, q: seq<int>, r: seq<int>)
    requires Leq(p, q) && Leq(q, r)
    ensures Leq(p, r)
  {
    if p != [] && p[0] == q[0] == r[0] {
      LeqTransitive(p[1..], q[1..], r[1..]);
    }
  }

  lemma {:induction false} LeqAntisymmetric(p: seq<int>, q: seq<int>)
    requires Leq(p, q) && Leq(q, p)
    ensures p == q
  {
    if p != [] {
      LeqAntisymmetric(p[1..], q[1..]);
      assert p == [p[0]] + p[1..] && q == [q[0]] + q[1..];
    }
  }

  lemma PushStep(q: seq<int>, x: int)
    ensures Push(q, x) == if q == [] || q[0] < x then [x] else [q[0]] + Push(q[1..], x)
  {
  }

  /** A key grows with every push. */
  lemma {:induction false} PushGrows(q: seq<int>, x: int)
    ensures Leq(q, Push(q, x))
  {
    PushStep(q, x);
    if q != [] && q[0] >= x {
      PushGrows(q[1..], x);
      assert Push(q, x)[1..] == Push(q[1..], x);
    }
  }

  lemma {:induction false} PushMonotone(p: seq<int>, q: seq<int>, x: int)
    requires Leq(p, q)
    ensures Leq(Push(p, x), Push(q, x))
  {
    PushStep(p, x);
    PushStep(q, x);
    if p != [] && p[0] == q[0] >= x {
      PushMonotone(p[1..], q[1..], x);
      assert Push(p, x)[1..] == Push(p[1..], x) && Push(q, x)[1..] == Push(q[1..], x);
    } else if q != [] && q[0] == x {
      assert Push(q, x)[1..] == Push(q[1..], x);
    }
  }

  /** A smaller number pushed in between leaves no trace. */
  lemma {:induction false} PushOver(q: seq<int>, x: int, y: int)
    requires x < y
    ensures Push(Push(q, x), y) == Push(q, y)
  {
    PushStep(q, x);
    PushStep(q, y);
    PushStep(Push(q, x), y);
    if q == [] || q[0] < x {
      assert Push(q, x) == [x];
    } else {
      PushOver(q[1..], x, y);
      assert Push(q, x)[1..] == Push(q[1..], x);
    }
  }

  lemma PushOrdered(q: seq<int>, x: int, y: int)
    requires x <= y
    ensures Leq(Push(q, x), Push(q, y))
  {
    if x < y {
      PushOver(q, x, y);
      PushGrows(Push(q, x), y);
    } else {
      LeqReflexive(Push(q, x));
    }
  }

  // ----- the rank of a walk

  function Extended(key: seq<int>, nb: Neighbor): seq<int> {
    if nb.distance > 0 then [nb.id] else Push(key, nb.id)
  }

  /** The key of a walk: of the ids since its last link of positive cost, those that no later id exceeds. */
  function Key(w: Walk): seq<int> {
    match w
    case Start(id) => [id]
    case Step(prev, hop) => Extended(Key(prev), hop)
  }

  lemma KeyEnds(w: Walk)
    ensures Key(w) != [] && Key(w)[|Key(w)| - 1] == End(w)
  {
  }

  /** Costs are compared first, then keys. */
  predicate RankLeq(d: int, key: seq<int>, d': int, key': seq<int>) {
    d < d' || (d == d' && Leq(key, key'))
  }

  lemma RankTransitive(d: int, key: seq<int>, d': int, key': seq<int>, d'': int, key'': seq<int>)
    requires RankLeq(d, key, d', key') && RankLeq(d', key', d'', key'')
    ensures RankLeq(d, key, d'', key'')
  {
    if d == d' == d'' {
      LeqTransitive(key, key', key'');
    }
  }

  predicate NoWorse(w: Walk, v: Walk) { RankLeq(Cost(w), Key(w), Cost(v), Key(v)) }

  /** Some walk to the server `s` is no worse than any walk to any server. */
  ghost predicate IsFavoured(g: Network, o: int, s: int) {
    && IsServer(g.nodes, s)
    && exists w :: IsWalk(g, o, w) && End(w) == s && NoWorseThanAll(g, o, w)
  }

  ghost predicate NoWorseThanAll(g: Network, o: int, w: Walk) {
    forall v :: IsWalk(g, o, v) && IsServer(g.nodes, End(v)) ==> NoWorse(w, v)
  }

  // ----- what every expansion keeps

  /** The distances and keys of the expanded nodes; the distance and the key of the last of them. */
  datatype Order = Order(dist: map<int, int>, key: map<int, seq<int>>, last: int, top: seq<int>)

  /** The key of a node that is on the frontier at distance `d`. */
  function KeyAt(ord: Order, d: int, k: int): seq<int> {
    if d > ord.last then [k] else Push(ord.top, k)
  }

  /** Some walk leads to the frontier node `k` with its distance and its key. */
  ghost predicate IsRanked(g: Network, o: int, ord: Order, k: int, d: int) {
    exists w :: IsWalk(g, o, w) && End(w) == k && Cost(w) == d && Key(w) == KeyAt(ord, d, k)
  }

  /** The last distance separates expanded nodes from the frontier, and the last key is the greatest. */
  ghost predicate Separates(st: State, ord: Order) {
    && ord.key.Keys == ord.dist.Keys
    && (forall u :: u in ord.dist ==> ord.dist[u] <= ord.last && (ord.dist[u] == ord.last ==> Leq(ord.key[u], ord.top)))
    && (forall k :: k in st.distMap ==> ord.last <= st.distMap[k])
  }

  /** No link leads to an expanded node with a smaller key. */
  ghost predicate KeysSettled(g: Network, ord: Order)
    requires ord.key.Keys == ord.dist.Keys
  {
    forall u, nb | u in ord.dist && nb in Adj(g.edges, u) && nb.id in ord.dist && Passable(g.nodes, nb.id) ::
      ord.dist[nb.id] == ord.dist[u] + nb.distance ==> Leq(ord.key[nb.id], Extended(ord.key[u], nb))
  }

  /** The links that give a frontier node its distance also give it its key. */
  ghost predicate KeysAhead(g: Network, st: State, ord: Order)
    requires ord.key.Keys == ord.dist.Keys
  {
    forall u, nb | u in ord.dist && nb in Adj(g.edges, u) && nb.id in st.distMap ::
      st.distMap[nb.id] == ord.dist[u] + nb.distance ==> KeyAt(ord, st.distMap[nb.id], nb.id) == Extended(ord.key[u], nb)
  }

  ghost predicate Ordered(g: Network, o: int, st: State, ord: Order) {
    && Inv(g, o, st, ord.dist)
    && Separates(st, ord)
    && KeysSettled(g, ord)
    && KeysAhead(g, st, ord)
    && (st == Init(o) ==> ord.last < 0)
    && (o in ord.dist ==> ord.dist[o] < 0 || ord.key[o] == [o])
    && (forall k :: k in st.distMap ==> IsRanked(g, o, ord, k, st.distMap[k]))
  }

  function Next(ord: Order, c: int, d: int): Order {
    var key := KeyAt(ord, d, c);
    Order(ord.dist[c := d], ord.key[c := key], d, key)
  }

  /** Nodes that stay on the frontier at their distance keep their key. */
  lemma KeyKept(ord: Order, c: int, d: int, k: int, e: int)
    requires ord.last <= d <= e && (e == d ==> c < k)
    ensures KeyAt(Next(ord, c, d), e, k) == KeyAt(ord, e, k)
  {
    if e == d {
      if d > ord.last {
        PushStep([c], k);
      } else {
        PushOver(ord.top, c, k);
      }
    }
  }

  /** The node on top has the least id among the nearest ones. */
  lemma TopIsFirst(g: Network, o: int, st: State, k: int)
    requires Sound(g, o, st) && k in st.distMap
    ensures st.current.distance <= st.distMap[k]
    ensures st.current.distance == st.distMap[k] ==> st.current.id <= k
  {
    var c := st.current.id;
    assert !MapComp((k, st.distMap[k]), (c, st.distMap[c]));
    assert k < c ==> MapComp((c, st.distMap[c]), (k, st.distMap[k]));
  }

  lemma NextSeparates(g: Network, o: int, st: State, ord: Order)
    requires Ordered(g, o, st, ord) && Running(g, st)
    ensures Separates(Expand(g, st), Next(ord, st.current.id, st.current.distance))
  {
    var c, d := st.current.id, st.current.distance;
    var ord' := Next(ord, c, d);
    ExpandMonotone(g, o, st);
    assert ord.last <= d;
    forall u | u in ord'.dist
      ensures ord'.dist[u] <= d && (ord'.dist[u] == d ==> Leq(ord'.key[u], ord'.top))
    {
      if u == c {
        LeqReflexive(ord'.top);
      } else if ord.dist[u] == d {
        PushGrows(ord.top, c);
        LeqTransitive(ord.key[u], ord.top, ord'.top);
      }
    }
  }

  lemma NextKeysSettled(g: Network, o: int, st: State, ord: Order)
    requires Ordered(g, o, st, ord) && Running(g, st)
    ensures KeysSettled(g, Next(ord, st.current.id, st.current.distance))
  {
    var c, d := st.current.id, st.current.distance;
    var ord' := Next(ord, c, d);
    forall u, nb | u in ord'.dist && nb in Adj(g.edges, u) && nb.id in ord'.dist && Passable(g.nodes, nb.id)
      ensures ord'.dist[nb.id] == ord'.dist[u] + nb.distance ==> Leq(ord'.key[nb.id], Extended(ord'.key[u], nb))
    {
      if ord'.dist[nb.id] == ord'.dist[u] + nb.distance {
        if u == c {
          LinkBack(g, o, st, ord, nb);
        } else if nb.id == c {
          assert KeyAt(ord, st.distMap[c], c) == Extended(ord.key[u], nb);
          LeqReflexive(ord'.key[c]);
        }
      }
    }
  }

  /** A link of cost 0 from the node on top to a node expanded before it, or to itself. */
  lemma LinkBack(g: Network, o: int, st: State, ord: Order, nb: Neighbor)
    requires Ordered(g, o, st, ord) && Running(g, st)
    requires nb in Adj(g.edges, st.current.id) && nb.id in Next(ord, st.current.id, st.current.distance).dist
    requires Next(ord, st.current.id, st.current.distance).dist[nb.id] == st.current.distance + nb.distance
    ensures var ord' := Next(ord, st.current.id, st.current.distance);
      Leq(ord'.key[nb.id], Extended(ord'.key[st.current.id], nb))
  {
    var c, d := st.current.id, st.current.distance;
    var ord' := Next(ord, c, d);
    NextSeparates(g, o, st, ord);
    assert ord'.dist[nb.id] <= d;
    assert nb.distance == 0;
    PushGrows(ord'.top, nb.id);
    LeqTransitive(ord'.key[nb.id], ord'.top, Push(ord'.top, nb.id));
  }

  /** A node whose distance did not change was on the frontier before, behind the node on top, unless the
      node on top gave it its distance. */
  lemma NextKeysAhead(g: Network, o: int, st: State, ord: Order)
    requires Ordered(g, o, st, ord) && Running(g, st)
    ensures KeysAhead(g, Expand(g, st), Next(ord, st.current.id, st.current.distance))
  {
    var c, d, st' := st.current.id, st.current.distance, Expand(g, st);
    var ord' := Next(ord, c, d);
    ExpandMonotone(g, o, st);
    forall u, nb | u in ord'.dist && nb in Adj(g.edges, u) && nb.id in st'.distMap
      ensures st'.distMap[nb.id] == ord'.dist[u] + nb.distance
          ==> KeyAt(ord', st'.distMap[nb.id], nb.id) == Extended(ord'.key[u], nb)
    {
      if u != c && st'.distMap[nb.id] == ord'.dist[u] + nb.distance {
        KeptAhead(g, o, st, ord, u, nb);
      }
    }
  }

  lemma KeptAhead(g: Network, o: int, st: State, ord: Order, u: int, nb: Neighbor)
    requires Ordered(g, o, st, ord) && Running(g, st)
    requires u in ord.dist && u != st.current.id && nb in Adj(g.edges, u) && nb.id in Expand(g, st).distMap
    requires Expand(g, st).distMap[nb.id] == ord.dist[u] + nb.distance
    ensures KeyAt(Next(ord, st.current.id, st.current.distance), Expand(g, st).distMap[nb.id], nb.id) == Extended(ord.key[u], nb)
  {
    var c, d, st' := st.current.id, st.current.distance, Expand(g, st);
    FrontierAfterExpand(g, o, st, nb.id);
    RelaxedImproves(g.nodes, st'.visited, d, st.distMap - {c}, Adj(g.edges, c));
    assert nb.id in st.distMap && nb.id != c;
    assert st'.distMap[nb.id] <= st.distMap[nb.id] <= ord.dist[u] + nb.distance;
    TopIsFirst(g, o, st, nb.id);
    KeyKept(ord, c, d, nb.id, st.distMap[nb.id]);
  }

  lemma RankedStep(g: Network, o: int, st: State, ord: Order, nb: Neighbor)
    requires Ordered(g, o, st, ord) && Running(g, st) && nb.distance >= 0
    requires nb in Adj(g.edges, st.current.id) && Passable(g.nodes, nb.id)
    ensures IsRanked(g, o, Next(ord, st.current.id, st.current.distance), nb.id, st.current.distance + nb.distance)
  {
    var c, d := st.current.id, st.current.distance;
    var w :| IsWalk(g, o, w) && End(w) == c && Cost(w) == d && Key(w) == KeyAt(ord, d, c);
    var w' := Step(w, nb);
    assert IsWalk(g, o, w') && End(w') == nb.id && Cost(w') == d + nb.distance
        && Key(w') == KeyAt(Next(ord, c, d), d + nb.distance, nb.id);
  }

  lemma RankedKept(g: Network, o: int, st: State, ord: Order, k: int)
    requires Sound(g, o, st) && Separates(st, ord) && k in st.distMap && k != st.current.id
    requires IsRanked(g, o, ord, k, st.distMap[k])
    ensures IsRanked(g, o, Next(ord, st.current.id, st.current.distance), k, st.distMap[k])
  {
    TopIsFirst(g, o, st, k);
    assert ord.last <= st.current.distance;
    KeyKept(ord, st.current.id, st.current.distance, k, st.distMap[k]);
  }

  lemma NewlyRanked(g: Network, o: int, st: State, ord: Order, k: int)
    requires Ordered(g, o, st, ord) && Running(g, st) && k in Expand(g, st).distMap
    requires Offers(g.nodes, Expand(g, st).visited, Adj(g.edges, st.current.id), k, Expand(g, st).distMap[k] - st.current.distance)
    ensures IsRanked(g, o, Next(ord, st.current.id, st.current.distance), k, Expand(g, st).distMap[k])
  {
    var nb := Neighbor(k, Expand(g, st).distMap[k] - st.current.distance);
    assert nb.distance >= 0;
    RankedStep(g, o, st, ord, nb);
  }

  /** Where a node of the new frontier comes from: the old one, or a link of the node on top. */
  lemma FrontierOrigin(g: Network, st: State, k: int)
    requires k in Expand(g, st).distMap
    ensures (k in st.distMap && k != st.current.id && Expand(g, st).distMap[k] == st.distMap[k])
         || Offers(g.nodes, Expand(g, st).visited, Adj(g.edges, st.current.id), k, Expand(g, st).distMap[k] - st.current.distance)
  {
    var c := st.current.id;
    RelaxedImproves(g.nodes, st.visited + {c}, st.current.distance, st.distMap - {c}, Adj(g.edges, c));
  }

  lemma NextRanked(g: Network, o: int, st: State, ord: Order, k: int)
    requires Ordered(g, o, st, ord) && Running(g, st) && k in Expand(g, st).distMap
    ensures IsRanked(g, o, Next(ord, st.current.id, st.current.distance), k, Expand(g, st).distMap[k])
  {
    FrontierOrigin(g, st, k);
    if k in st.distMap && k != st.current.id && Expand(g, st).distMap[k] == st.distMap[k] {
      RankedKept(g, o, st, ord, k);
    } else {
      NewlyRanked(g, o, st, ord, k);
    }
  }

  lemma NextOrdered(g: Network, o: int, st: State, ord: Order)
    requires Ordered(g, o, st, ord) && Running(g, st)
    ensures Ordered(g, o, Expand(g, st), Next(ord, st.current.id, st.current.distance))
  {
    var c, d, st' := st.current.id, st.current.distance, Expand(g, st);
    ExpandInv(g, o, st, ord.dist);
    NextSeparates(g, o, st, ord);
    NextKeysSettled(g, o, st, ord);
    NextKeysAhead(g, o, st, ord);
    forall k | k in st'.distMap
      ensures IsRanked(g, o, Next(ord, c, d), k, st'.distMap[k])
    {
      NextRanked(g, o, st, ord, k);
    }
    assert c in st'.visited;
  }

  function FirstOrder(): Order { Order(map[], map[], -1, []) }

  lemma InitOrdered(g: Network, o: int)
    requires NonNegative(g.edges)
    ensures Ordered(g, o, Init(o), FirstOrder())
  {
    InitInv(g, o);
    assert IsWalk(g, o, Start(o)) && End(Start(o)) == o && Cost(Start(o)) == 0 && Key(Start(o)) == KeyAt(FirstOrder(), 0, o);
  }

  // ----- the answer

  /** The node is expanded, or on the frontier, with a rank that is at most that of the walk. */
  ghost predicate ExpandedBefore(ord: Order, u: int, w: Walk) {
    u in ord.dist && u in ord.key && RankLeq(ord.dist[u], ord.key[u], Cost(w), Key(w))
  }

  ghost predicate AheadBefore(st: State, ord: Order, k: int, w: Walk) {
    k in st.distMap && RankLeq(st.distMap[k], KeyAt(ord, st.distMap[k], k), Cost(w), Key(w))
  }

  lemma HopRank(w: Walk)
    requires w.Step? && w.hop.distance >= 0
    ensures RankLeq(Cost(w.prev), Key(w.prev), Cost(w), Key(w))
  {
    PushGrows(Key(w.prev), w.hop.id);
  }

  lemma HopMonotone(d: int, key: seq<int>, w: Walk)
    requires w.Step? && w.hop.distance >= 0 && RankLeq(d, key, Cost(w.prev), Key(w.prev))
    ensures RankLeq(d + w.hop.distance, Extended(key, w.hop), Cost(w), Key(w))
  {
    if d == Cost(w.prev) {
      PushMonotone(key, Key(w.prev), w.hop.id);
      LeqReflexive([w.hop.id]);
    }
  }

  lemma HopFromExpanded(g: Network, o: int, st: State, ord: Order, w: Walk)
    requires Ordered(g, o, st, ord) && IsWalk(g, o, w) && w.Step? && ExpandedBefore(ord, End(w.prev), w.prev)
    ensures ExpandedBefore(ord, End(w), w) || AheadBefore(st, ord, End(w), w)
  {
    var u, h := End(w.prev), w.hop.id;
    assert w.hop.distance >= 0;
    HopMonotone(ord.dist[u], ord.key[u], w);
    if h in ord.dist {
      if ord.dist[h] == ord.dist[u] + w.hop.distance {
        RankTransitive(ord.dist[h], ord.key[h], ord.dist[h], Extended(ord.key[u], w.hop), Cost(w), Key(w));
      }
    } else {
      assert h in st.distMap && st.distMap[h] <= ord.dist[u] + w.hop.distance;
    }
  }

  /** No walk beats the ranks of the expanded nodes and the frontier. */
  lemma {:induction false} RankBound(g: Network, o: int, st: State, ord: Order, w: Walk)
    requires Ordered(g, o, st, ord) && IsWalk(g, o, w)
    ensures ExpandedBefore(ord, End(w), w) || exists k :: AheadBefore(st, ord, k, w)
  {
    match w
    case Start(_) =>
      LeqReflexive([o]);
      if st == Init(o) {
        assert AheadBefore(st, ord, o, w);
      }
    case Step(prev, hop) =>
      RankBound(g, o, st, ord, prev);
      assert hop.distance >= 0;
      if ExpandedBefore(ord, End(prev), prev) {
        HopFromExpanded(g, o, st, ord, w);
      } else {
        var k :| AheadBefore(st, ord, k, prev);
        HopRank(w);
        RankTransitive(st.distMap[k], KeyAt(ord, st.distMap[k], k), Cost(prev), Key(prev), Cost(w), Key(w));
        assert AheadBefore(st, ord, k, w);
      }
  }

  /** The node on top has the least rank of the frontier. */
  lemma TopIsLeastRank(g: Network, o: int, st: State, ord: Order, k: int)
    requires Ordered(g, o, st, ord) && k in st.distMap
    ensures RankLeq(st.current.distance, KeyAt(ord, st.current.distance, st.current.id), st.distMap[k], KeyAt(ord, st.distMap[k], k))
  {
    TopIsFirst(g, o, st, k);
    if st.distMap[k] == st.current.distance {
      PushOrdered(ord.top, st.current.id, k);
      PushOrdered([], st.current.id, k);
    }
  }

  lemma TopIsFavoured(g: Network, o: int, st: State, ord: Order)
    requires Ordered(g, o, st, ord) && st.distMap != map[] && IsServer(g.nodes, st.current.id)
    ensures IsFavoured(g, o, st.current.id)
  {
    var c, d := st.current.id, st.current.distance;
    assert IsRanked(g, o, ord, c, d);
    var w :| IsWalk(g, o, w) && End(w) == c && Cost(w) == d && Key(w) == KeyAt(ord, d, c);
    forall v | IsWalk(g, o, v) && IsServer(g.nodes, End(v))
      ensures NoWorse(w, v)
    {
      RankBound(g, o, st, ord, v);
      var k :| AheadBefore(st, ord, k, v);
      TopIsLeastRank(g, o, st, ord, k);
      RankTransitive(d, Key(w), st.distMap[k], KeyAt(ord, st.distMap[k], k), Cost(v), Key(v));
    }
    assert NoWorseThanAll(g, o, w);
  }

  lemma {:induction false} RunFavoured(g: Network, o: int, st: State, ord: Order)
    requires Ordered(g, o, st, ord)
    ensures Run(g, o, st).Some? ==> IsFavoured(g, o, Run(g, o, st).value)
    decreases Remaining(g, o, st)
  {
    if Running(g, st) {
      NextOrdered(g, o, st, ord);
      ExpandSound(g, o, st);
      RunFavoured(g, o, Expand(g, st), Next(ord, st.current.id, st.current.distance));
    } else if st.distMap != map[] {
      TopIsFavoured(g, o, st, ord);
    }
  }

  lemma FavouredUnique(g: Network, o: int, s: int, t: int)
    requires IsFavoured(g, o, s) && IsFavoured(g, o, t)
    ensures s == t
  {
    var w :| IsWalk(g, o, w) && End(w) == s && NoWorseThanAll(g, o, w);
    var v :| IsWalk(g, o, v) && End(v) == t && NoWorseThanAll(g, o, v);
    assert NoWorse(w, v) && NoWorse(v, w);
    LeqAntisymmetric(Key(w), Key(v));
    KeyEnds(w);
    KeyEnds(v);
  }

  /** With non-negative costs, the search returns a server exactly when some walk to it has the least cost
      and, among those of all walks to servers at that cost, the least key. This decides every tie. */
  lemma NearestIsFavoured(g: Network, o: int, s: int)
    requires NonNegative(g.edges)
    ensures Nearest(g, o) == Some(s) <==> IsFavoured(g, o, s)
  {
    InitOrdered(g, o);
    RunFavoured(g, o, Init(o), FirstOrder());
    NearestComplete(g, o);
    if IsFavoured(g, o, s) {
      FavouredUnique(g, o, s, Nearest(g, o).value);
    }
  }

  // ----- the tie-break by id

  /** The lexicographically least (distance, id) among all reachable servers. */
  ghost predicate IsFirstNearest(g: Network, o: int, s: int, d: int) {
    && IsNearest(g, o, s, d)
    && (forall w :: IsWalk(g, o, w) && IsServer(g.nodes, End(w)) && Cost(w) == d ==> s <= End(w))
  }

  ghost predicate LeastKey(g: Network, o: int, d: int, w: Walk) {
    forall v :: IsWalk(g, o, v) && IsServer(g.nodes, End(v)) && Cost(v) == d ==> Leq(Key(w), Key(v))
  }

  /** The nearest server with the least id is returned exactly when some walk to it has the least key of all
      walks to nearest servers. */
  lemma TieBreakExactly(g: Network, o: int, s: int, d: int)
    requires NonNegative(g.edges) && IsFirstNearest(g, o, s, d)
    ensures Nearest(g, o) == Some(s) <==> exists w :: IsWalk(g, o, w) && End(w) == s && Cost(w) == d && LeastKey(g, o, d, w)
  {
    NearestIsFavoured(g, o, s);
    if IsFavoured(g, o, s) {
      var w :| IsWalk(g, o, w) && End(w) == s && NoWorseThanAll(g, o, w);
      var v :| IsWalk(g, o, v) && End(v) == s && Cost(v) == d;
      assert NoWorse(w, v);
      assert forall x :: IsWalk(g, o, x) && IsServer(g.nodes, End(x)) && Cost(x) == d ==> NoWorse(w, x);
      assert LeastKey(g, o, d, w);
    }
    if w :| IsWalk(g, o, w) && End(w) == s && Cost(w) == d && LeastKey(g, o, d, w) {
      assert NoWorseThanAll(g, o, w);
    }
  }

  lemma ServerKey(g: Network, o: int, w: Walk)
    requires ServersApart(g) && IsWalk(g, o, w) && IsServer(g.nodes, End(w))
    ensures Key(w) == [End(w)]
  {
  }

  /** When every link into a server has a positive cost, the server returned is the one with the least
      (distance, id), although distances alone are compared. Links between switches may cost 0. */
  lemma NearestIsFirst(g: Network, o: int)
    requires NonNegative(g.edges) && ServersApart(g) && Nearest(g, o).Some?
    ensures exists d :: IsFirstNearest(g, o, Nearest(g, o).value, d)
  {
    var s := Nearest(g, o).value;
    NearestIsFavoured(g, o, s);
    var w :| IsWalk(g, o, w) && End(w) == s && NoWorseThanAll(g, o, w);
    ServerKey(g, o, w);
    forall v | IsWalk(g, o, v) && IsServer(g.nodes, End(v))
      ensures Cost(w) <= Cost(v) && (Cost(v) == Cost(w) ==> s <= End(v))
    {
      ServerKey(g, o, v);
      assert NoWorse(w, v);
    }
    assert IsFirstNearest(g, o, s, Cost(w));
  }

  // ----- a network where the tie-break fails

  const TIE_NODES: Nodes := map[
    0 := Node(0, CLIENT, 1), 3 := Node(3, SERVER, 2), 5 := Node(5, SERVER, 3), 9 := Node(9, SWITCH, 0)]
  const TIE_LINKS: seq<Link> := [Link(0, 5, 1), Link(0, 9, 1), Link(9, 3, 0)]

  ghost function TieNetwork(): Network { Network(TIE_NODES, EdgesOf(TIE_LINKS)) }

  lemma TieEdges(u: int, nb: Neighbor)
    requires nb in Adj(TieNetwork().edges, u)
    ensures nb.distance >= 0 && (u == 0 ==> nb.distance == 1)
  {
    AdjIsJoins(TIE_LINKS, u, nb);
  }

  lemma {:induction false} TieWalkCost(w: Walk)
    requires IsWalk(TieNetwork(), 0, w)
    ensures Cost(w) >= (if w.Step? then 1 else 0)
  {
    if w.Step? {
      TieWalkCost(w.prev);
      TieEdges(End(w.prev), w.hop);
    }
  }

  lemma TieOrigin()
    ensures Adj(TieNetwork().edges, 0) == [Neighbor(5, 1), Neighbor(9, 1)]
  {
    var l1 := [Link(0, 5, 1)];
    var l2 := l1 + [Link(0, 9, 1)];
    assert TIE_LINKS[..2] == l2 && l2[..1] == l1 && l1[..0] == [];
    assert Adj(EdgesOf(l1), 0) == [Neighbor(5, 1)];
    assert EdgesOf(l2) == AddLink(EdgesOf(l1), Link(0, 9, 1));
    assert EdgesOf(TIE_LINKS) == AddLink(EdgesOf(l2), Link(9, 3, 0));
  }

  lemma RelaxTwo(nodes: Nodes, visited: set<int>, d: int, m: map<int, int>, x: Neighbor, y: Neighbor)
    ensures Relaxed(nodes, visited, d, m, [x, y]) == RelaxOne(nodes, visited, d, RelaxOne(nodes, visited, d, m, x), y)
  {
    assert [x, y][..1] == [x] && [x][..0] == [];
    assert Relaxed(nodes, visited, d, m, [x]) == RelaxOne(nodes, visited, d, m, x);
  }

  lemma TieExpand()
    ensures Expand(TieNetwork(), Init(0)) == State(Neighbor(5, 1), map[5 := 1, 9 := 1], {0})
  {
    TieOrigin();
    RelaxTwo(TIE_NODES, {0}, 0, map[], Neighbor(5, 1), Neighbor(9, 1));
    var m := map[5 := 1, 9 := 1];
    assert Init(0).distMap - {0} == map[];
    assert {} + {0} == {0};
    FirstMinUnique(m, 5, FirstMin(m));
  }

  /** A server on top after the first expansion is the answer. */
  lemma FirstExpansionFinds(g: Network, o: int, st: State)
    requires Expand(g, Init(o)) == st && st.distMap != map[] && IsServer(g.nodes, st.current.id)
    requires !IsServer(g.nodes, o)
    ensures Nearest(g, o) == Some(st.current.id)
  {
    assert o in Init(o).distMap;
    RunStep(g, o, Init(o));
  }

  lemma TieRun()
    ensures Nearest(TieNetwork(), 0) == Some(5)
  {
    TieExpand();
    FirstExpansionFinds(TieNetwork(), 0, State(Neighbor(5, 1), map[5 := 1, 9 := 1], {0}));
  }

  ghost function TieWalk(): Walk { Step(Step(Start(0), Neighbor(9, 1)), Neighbor(3, 0)) }

  lemma TieWalkIsWalk()
    ensures IsWalk(TieNetwork(), 0, TieWalk()) && IsServer(TIE_NODES, End(TieWalk()))
    ensures Cost(TieWalk()) == 1 && End(TieWalk()) == 3
  {
    AdjIsJoins(TIE_LINKS, 0, Neighbor(9, 1));
    AdjIsJoins(TIE_LINKS, 9, Neighbor(3, 0));
  }

  lemma TieDistance(d: int)
    requires IsNearest(TieNetwork(), 0, 5, d)
    ensures d == 1
  {
    TieWalkIsWalk();
    var v :| IsWalk(TieNetwork(), 0, v) && End(v) == 5 && Cost(v) == d;
    TieWalkCost(v);
  }

  /** With a link of cost 0 into a server the answer can be a server that is not the least (distance, id): here
      server 5 is returned although server 3 is equally near, behind switch 9. */
  lemma TieBreakFails()
    ensures NonNegative(TieNetwork().edges)
    ensures Nearest(TieNetwork(), 0) == Some(5)
    ensures !exists d :: IsFirstNearest(TieNetwork(), 0, 5, d)
  {
    NonNegativeLinksEdges(TIE_LINKS);
    TieRun();
    TieWalkIsWalk();
    forall d
      ensures !IsFirstNearest(TieNetwork(), 0, 5, d)
    {
      if IsNearest(TieNetwork(), 0, 5, d) {
        TieDistance(d);
      }
    }
  }
}
