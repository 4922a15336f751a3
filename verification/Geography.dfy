/** The geographic load balancer: loading the network, and answering clients through a cache. */
module Geography {
  import opened Text
  import opened Address
  import opened Graph
  import opened Search
  import opened SearchTies

  const CACHE_SIZE := 32

  // ----- the network file, already split into tokens

  datatype Decl = Decl(id: int, kind: string, ip: string)

  type IpMap = map<uint32, int>

  function KindOf(kind: string): Option<NodeType> {
    if kind == "CLIENT" then Some(CLIENT)
    else if kind == "SWITCH" then Some(SWITCH)
    else if kind == "SERVER" then Some(SERVER)
    else None
  }

  predicate HasIp(d: Decl) { d.ip != "NO_IP" }

  /** Two lines, `d` before `e`, that cannot both be in a file: same id, or `e` has the address that
      `d` registered. A node without an address counts as 0.0.0.0 when it comes second. */
  predicate Clash(d: Decl, e: Decl) {
    d.id == e.id || (HasIp(d) && IpUint(d.ip) == IpUint(e.ip))
  }

  /** The type of a line is one of the three words. */
  predicate IsKind(word: string) { word == "CLIENT" || word == "SWITCH" || word == "SERVER" }

  /** No two lines clash, and every type is known. */
  ghost predicate Accepted(decls: seq<Decl>) {
    && (forall i :: 0 <= i < |decls| ==> IsKind(decls[i].kind))
    && (forall i, j :: 0 <= i < j < |decls| ==> !Clash(decls[i], decls[j]))
  }

  ghost predicate KnownKinds(decls: seq<Decl>) {
    forall i :: 0 <= i < |decls| ==> IsKind(decls[i].kind)
  }

  function NodesOf(decls: seq<Decl>): Nodes
    requires KnownKinds(decls)
  {
    if decls == [] then map[]
    else
      var d := decls[|decls| - 1];
      NodesOf(decls[..|decls| - 1])[d.id := Node(d.id, KindOf(d.kind).value, IpUint(d.ip))]
  }

  function IpMapOf(decls: seq<Decl>): IpMap {
    if decls == [] then map[]
    else
      var init, d := IpMapOf(decls[..|decls| - 1]), decls[|decls| - 1];
      if HasIp(d) then init[IpUint(d.ip) := d.id] else init
  }

  /** Some line declares the id. */
  ghost predicate Declared(decls: seq<Decl>, id: int) {
    exists i :: 0 <= i < |decls| && decls[i].id == id
  }

  lemma {:induction false} DeclaredAt(decls: seq<Decl>, id: int) returns (i: int)
    requires KnownKinds(decls) && id in NodesOf(decls)
    ensures 0 <= i < |decls| && decls[i].id == id
  {
    i := |decls| - 1;
    if decls[i].id != id {
      i := DeclaredAt(decls[..i], id);
    }
  }

  lemma {:induction false} DeclaredIsNode(decls: seq<Decl>, i: nat)
    requires KnownKinds(decls) && i < |decls|
    ensures decls[i].id in NodesOf(decls)
  {
    if i < |decls| - 1 {
      DeclaredIsNode(decls[..|decls| - 1], i);
    }
  }

  lemma NodesOfKeys(decls: seq<Decl>, id: int)
    requires KnownKinds(decls)
    ensures id in NodesOf(decls) <==> Declared(decls, id)
  {
    if id in NodesOf(decls) {
      var i := DeclaredAt(decls, id);
    }
    if Declared(decls, id) {
      var i :| 0 <= i < |decls| && decls[i].id == id;
      DeclaredIsNode(decls, i);
    }
  }

  /** The line registers the address. */
  predicate Registers(d: Decl, ip: uint32) { HasIp(d) && IpUint(d.ip) == ip }

  lemma IpMapOfLast(decls: seq<Decl>, ip: uint32)
    requires decls != []
    ensures ip in IpMapOf(decls) <==> ip in IpMapOf(decls[..|decls| - 1]) || Registers(decls[|decls| - 1], ip)
  {
  }

  /** Some line registers the address. */
  ghost predicate Registered(decls: seq<Decl>, ip: uint32) {
    exists i :: 0 <= i < |decls| && Registers(decls[i], ip)
  }

  lemma {:induction false} RegisteredAt(decls: seq<Decl>, ip: uint32) returns (i: int)
    requires ip in IpMapOf(decls)
    ensures 0 <= i < |decls| && Registers(decls[i], ip)
  {
    i := |decls| - 1;
    IpMapOfLast(decls, ip);
    if !Registers(decls[i], ip) {
      i := RegisteredAt(decls[..i], ip);
    }
  }

  lemma {:induction false} RegisteredIsMapped(decls: seq<Decl>, ip: uint32, i: nat)
    requires i < |decls| && Registers(decls[i], ip)
    ensures ip in IpMapOf(decls)
  {
    IpMapOfLast(decls, ip);
    if i < |decls| - 1 {
      RegisteredIsMapped(decls[..|decls| - 1], ip, i);
    }
  }

  lemma IpMapOfKeys(decls: seq<Decl>, ip: uint32)
    ensures ip in IpMapOf(decls) <==> Registered(decls, ip)
  {
    if ip in IpMapOf(decls) {
      var i := RegisteredAt(decls, ip);
    }
    if Registered(decls, ip) {
      var i :| 0 <= i < |decls| && Registers(decls[i], ip);
      RegisteredIsMapped(decls, ip, i);
    }
  }

  /** The node is the one that the line declares. */
  ghost predicate Declares(d: Decl, n: Node) {
    && n.id == d.id && n.ip == IpUint(d.ip)
    && (d.kind == "CLIENT" ==> n.kind == CLIENT) && (d.kind == "SWITCH" ==> n.kind == SWITCH)
    && (d.kind == "SERVER" ==> n.kind == SERVER)
  }

  /** Every accepted line's node is in the nodes, and its address leads to it. */
  lemma {:induction false} AcceptedMaps(decls: seq<Decl>, i: int)
    requires Accepted(decls) && 0 <= i < |decls|
    ensures decls[i].id in NodesOf(decls)
    ensures Declares(decls[i], NodesOf(decls)[decls[i].id])
    ensures HasIp(decls[i]) ==> IpUint(decls[i].ip) in IpMapOf(decls) && IpMapOf(decls)[IpUint(decls[i].ip)] == decls[i].id
  {
    var last := |decls| - 1;
    if i < last {
      AcceptedMaps(decls[..last], i);
      assert !Clash(decls[i], decls[last]);
    }
  }

  /** The address map is an exact inverse of the addresses of the declared nodes. */
  lemma IpMapInverse(decls: seq<Decl>, ip: uint32)
    requires Accepted(decls)
    ensures ip in IpMapOf(decls) ==>
      var id := IpMapOf(decls)[ip]; id in NodesOf(decls) && NodesOf(decls)[id].id == id && NodesOf(decls)[id].ip == ip
    ensures (ip !in IpMapOf(decls)) <==> (forall i :: 0 <= i < |decls| && HasIp(decls[i]) ==> IpUint(decls[i].ip) != ip)
  {
    IpMapOfKeys(decls, ip);
    if ip in IpMapOf(decls) {
      var i :| 0 <= i < |decls| && Registers(decls[i], ip);
      AcceptedMaps(decls, i);
    }
  }

  lemma AllDeclared(decls: seq<Decl>)
    requires Accepted(decls)
    ensures forall i :: 0 <= i < |decls| ==> decls[i].id in NodesOf(decls) && Declares(decls[i], NodesOf(decls)[decls[i].id])
    ensures forall id :: id in NodesOf(decls) ==> Declared(decls, id)
  {
    forall i | 0 <= i < |decls|
      ensures decls[i].id in NodesOf(decls) && Declares(decls[i], NodesOf(decls)[decls[i].id])
    {
      AcceptedMaps(decls, i);
    }
    forall id | id in NodesOf(decls)
      ensures Declared(decls, id)
    {
      NodesOfKeys(decls, id);
    }
  }

  lemma AcceptedPrefix(decls: seq<Decl>, i: nat)
    requires i < |decls| && Accepted(decls[..i])
    ensures Accepted(decls[..i + 1]) <==>
      IsKind(decls[i].kind) && decls[i].id !in NodesOf(decls[..i]) && IpUint(decls[i].ip) !in IpMapOf(decls[..i])
    ensures !Accepted(decls[..i + 1]) ==> !Accepted(decls)
  {
    NodesOfKeys(decls[..i], decls[i].id);
    IpMapOfKeys(decls[..i], IpUint(decls[i].ip));
    var d := decls[..i + 1];
    assert forall j :: 0 <= j <= i ==> d[j] == decls[j];
    assert forall j :: 0 <= j < i ==> decls[..i][j] == decls[j];
    if IsKind(decls[i].kind) && decls[i].id !in NodesOf(decls[..i]) && IpUint(decls[i].ip) !in IpMapOf(decls[..i]) {
      forall j, k | 0 <= j < k < |d|
        ensures !Clash(d[j], d[k])
      {
        assert k < i ==> !Clash(decls[..i][j], decls[..i][k]);
      }
    }
  }

  /** The check for clashes looks at the order of the lines: a node without an address is refused behind one
      with the address 0.0.0.0, and accepted in front of it. */
  lemma ClashIsOneWay(d: Decl, e: Decl)
    requires d.id != e.id && IsKind(d.kind) && IsKind(e.kind)
    requires d.ip == UintIp(0) && !HasIp(e)
    ensures !Accepted([d, e]) && Accepted([e, d])
  {
    AddressRoundTrip(0);
    assert IpUint(d.ip) == 0 && IpUint(e.ip) == 0;
    assert d.ip[0] != NO_IP[0];
    var first, second := [d, e], [e, d];
    assert Clash(first[0], first[1]);
    assert !Clash(second[0], second[1]);
  }

  // ----- the answer, without a cache

  /** The address of the server found from a node. */
  ghost function ServerOf(g: Network, o: int): Option<uint32> {
    match Nearest(g, o)
    case None => None
    case Some(s) => Some(NodeAt(g.nodes, s).ip)
  }

  /** The server address found for a client address: none unless it belongs to a declared client. */
  ghost function Found(g: Network, ipMap: IpMap, client: uint32): Option<uint32> {
    if client !in ipMap || NodeAt(g.nodes, ipMap[client]).kind != CLIENT then None
    else ServerOf(g, ipMap[client])
  }

  /** The reply to a client, as the search alone gives it on the network as loaded. */
  ghost function Reply(g: Network, ipMap: IpMap, clientIP: string): string {
    match Found(g, ipMap, IpUint(clientIP))
    case None => ""
    case Some(ip) => UintIp(ip)
  }

  /** `nodes` is `loaded` plus default nodes for ids that were looked up. */
  ghost predicate NodesExtend(loaded: Nodes, nodes: Nodes) {
    && loaded.Keys <= nodes.Keys
    && (forall id :: id in nodes ==> nodes[id] == NodeAt(loaded, id))
  }

  /** `edges` is `loaded` plus empty lists for ids that were looked up. */
  ghost predicate EdgesExtend(loaded: Edges, edges: Edges) {
    && loaded.Keys <= edges.Keys
    && (forall id :: id in edges ==> edges[id] == Adj(loaded, id))
  }

  class Geography {
    var nodes: Nodes
    var edges: Edges
    var ipMap: IpMap
    var cache: map<uint32, uint32>
    ghost var loaded: Network

    /** Lookups only added defaults, and every cached answer is the answer of the search. */
    ghost predicate Valid()
      reads this
    {
      && NodesExtend(loaded.nodes, nodes)
      && EdgesExtend(loaded.edges, edges)
      && |cache| <= 32
      && (forall c :: c in cache ==> Found(loaded, ipMap, c) == Some(cache[c]))
    }

    constructor ()
      ensures Valid() && nodes == map[] && edges == map[] && ipMap == map[] && cache == map[]
    {
      nodes, edges, ipMap, cache := map[], map[], map[], map[];
      loaded := Network(map[], map[]);
    }

    /** One node line; false when the program would exit on it. */
    method ReadNode(d: Decl) returns (ok: bool)
      modifies this`nodes, this`ipMap
      ensures ok <==> d.id !in old(nodes) && IpUint(d.ip) !in old(ipMap) && IsKind(d.kind)
      ensures ok ==> nodes == old(nodes)[d.id := Node(d.id, KindOf(d.kind).value, IpUint(d.ip))]
      ensures ok ==> ipMap == if HasIp(d) then old(ipMap)[IpUint(d.ip) := d.id] else old(ipMap)
    {
      if d.id !in nodes && IpUint(d.ip) !in ipMap {
        var kind := KindOf(d.kind);
        if kind.None? {
          return false;
        }
        nodes := nodes[d.id := Node(d.id, kind.value, IpUint(d.ip))];
        if d.ip != NO_IP {
          ipMap := ipMap[IpUint(d.ip) := d.id];
        }
        return true;
      } else {
        return false;
      }
    }

    /** One link line: each end becomes a neighbour of the other. */
    method ReadLink(l: Link)
      modifies this`edges
      ensures edges == AddLink(old(edges), l)
    {
      if l.a !in edges {
        edges := edges[l.a := [Neighbor(l.b, l.cost)]];
      } else {
        edges := edges[l.a := edges[l.a] + [Neighbor(l.b, l.cost)]];
      }
      assert forall nb: Neighbor :: [] + [nb] == [nb];
      assert edges == AddHalf(old(edges), l.a, Neighbor(l.b, l.cost));
      if l.b !in edges {
        edges := edges[l.b := [Neighbor(l.a, l.cost)]];
      } else {
        edges := edges[l.b := edges[l.b] + [Neighbor(l.a, l.cost)]];
      }
    }

    /** Reads the network; `ok` is false when the program would exit on a bad line. */
    method Load(decls: seq<Decl>, links: seq<Link>) returns (ok: bool)
      requires nodes == map[] && edges == map[] && ipMap == map[] && cache == map[]
      modifies this
      ensures ok <==> Accepted(decls)
      ensures ok ==> Valid() && loaded == Network(NodesOf(decls), EdgesOf(links)) && ipMap == IpMapOf(decls) && cache == map[]
      ensures ok ==> nodes == loaded.nodes && edges == loaded.edges
      ensures ok ==> forall i :: 0 <= i < |decls| ==> decls[i].id in nodes && Declares(decls[i], nodes[decls[i].id])
      ensures ok ==> forall id :: id in nodes ==> Declared(decls, id)
    {
      for i := 0 to |decls|
        invariant Accepted(decls[..i])
        invariant nodes == NodesOf(decls[..i]) && ipMap == IpMapOf(decls[..i])
        invariant edges == map[] && cache == map[]
      {
        AcceptedPrefix(decls, i);
        assert decls[..i + 1][..i] == decls[..i];
        ok := ReadNode(decls[i]);
        if !ok {
          return;
        }
      }
      assert decls[..|decls|] == decls;
      for i := 0 to |links|
        invariant nodes == NodesOf(decls) && ipMap == IpMapOf(decls) && cache == map[]
        invariant edges == EdgesOf(links[..i])
      {
        assert links[..i + 1][..i] == links[..i];
        ReadLink(links[i]);
      }
      assert links[..|links|] == links;
      loaded := Network(nodes, edges);
      AllDeclared(decls);
      ok := true;
    }

    /** `nodes[id]`: a missing id is inserted with a default node. */
    method GetNode(id: int) returns (n: Node)
      requires NodesExtend(loaded.nodes, nodes)
      modifies this`nodes
      ensures NodesExtend(loaded.nodes, nodes) && n == NodeAt(loaded.nodes, id)
      ensures nodes == old(nodes)[id := n]
    {
      if id !in nodes {
        nodes := nodes[id := DEFAULT_NODE];
      }
      n := nodes[id];
    }

    /** `edges[id]`: a missing id is inserted with an empty list. */
    method GetEdges(id: int) returns (nbs: seq<Neighbor>)
      requires EdgesExtend(loaded.edges, edges)
      modifies this`edges
      ensures EdgesExtend(loaded.edges, edges) && nbs == Adj(loaded.edges, id)
      ensures edges == old(edges)[id := nbs]
    {
      if id !in edges {
        edges := edges[id := []];
      }
      nbs := edges[id];
    }

    /** Makes room in the cache, evicting entries in no particular order, and adds one. */
    method Remember(client: uint32, ip: uint32)
      requires |cache| <= 32
      modifies this`cache
      ensures |cache| <= 32 && client in cache && cache[client] == ip
      ensures forall c :: c in cache && c != client ==> c in old(cache) && cache[c] == old(cache)[c]
      ensures |old(cache)| < 32 ==> cache == old(cache)[client := ip]
    {
      while |cache| >= CACHE_SIZE
        invariant |cache| <= CACHE_SIZE
        invariant forall c :: c in cache ==> c in old(cache) && cache[c] == old(cache)[c]
        invariant |old(cache)| < CACHE_SIZE ==> cache == old(cache)
        decreases |cache|
      {
        assert (forall k :: k !in cache) ==> cache.Keys == {};
        assert |cache| == |cache.Keys|;
        var begin :| begin in cache;
        assert (cache - {begin}).Keys == cache.Keys - {begin};
        cache := cache - {begin};
      }
      assert cache[client := ip].Keys == cache.Keys + {client};
      cache := cache[client := ip];
    }

    /** Every reply is the one the search gives on the network as loaded: neither the cache, nor its
        evictions, nor the defaults inserted by lookups ever change an answer. */
    method FindServer(clientIP: string) returns (reply: string)
      requires Valid()
      modifies this
      ensures Valid() && loaded == old(loaded) && ipMap == old(ipMap)
      ensures reply == Reply(loaded, ipMap, clientIP)
    {
      var client := IpUint(clientIP);
      if client !in ipMap {
        return "";
      }
      var origin := ipMap[client];
      var node := GetNode(origin);
      if node.kind != CLIENT {
        return "";
      }
      if client in cache {
        return UintIp(cache[client]);
      }
      var server := Traverse(origin);
      match server
      case None =>
        reply := "";
      case Some(ip) =>
        Remember(client, ip);
        reply := UintIp(ip);
    }

    /** The traversal from a client: the address of the first server on top of the frontier. */
    method Traverse(origin: int) returns (server: Option<uint32>)
      requires NodesExtend(loaded.nodes, nodes) && EdgesExtend(loaded.edges, edges)
      modifies this`nodes, this`edges
      ensures NodesExtend(loaded.nodes, nodes) && EdgesExtend(loaded.edges, edges)
      ensures server == ServerOf(loaded, origin)
    {
      var current := Neighbor(origin, 0);
      var distMap := map[origin := 0];
      var visited: set<int> := {};
      while distMap != map[]
        invariant NodesExtend(loaded.nodes, nodes) && EdgesExtend(loaded.edges, edges)
        invariant Sound(loaded, origin, State(current, distMap, visited))
        invariant Run(loaded, origin, State(current, distMap, visited)) == Nearest(loaded, origin)
        decreases Remaining(loaded, origin, State(current, distMap, visited))
      {
        var node := GetNode(current.id);
        if node.kind == SERVER {
          return Some(node.ip);
        }
        RunStep(loaded, origin, State(current, distMap, visited));
        current, distMap, visited := ExpandCurrent(current, distMap, visited);
      }
      return None;
    }

    /** One turn of the loop: visit the current node, improve its neighbours, pick the next one. */
    method ExpandCurrent(current: Neighbor, distMap: map<int, int>, visited: set<int>)
      returns (current': Neighbor, distMap': map<int, int>, visited': set<int>)
      requires NodesExtend(loaded.nodes, nodes) && EdgesExtend(loaded.edges, edges)
      modifies this`nodes, this`edges
      ensures NodesExtend(loaded.nodes, nodes) && EdgesExtend(loaded.edges, edges)
      ensures State(current', distMap', visited') == Expand(loaded, State(current, distMap, visited))
    {
      current', visited' := current, visited + {current.id};
      distMap' := distMap - {current.id};
      var nbs := GetEdges(current.id);
      distMap' := Relax(current, distMap', visited', nbs);
      if distMap' != map[] {
        FirstMinExists(distMap');
        var top :| top in distMap' && IsFirstMin(distMap', top);
        FirstMinUnique(distMap', top, FirstMin(distMap'));
        current' := Neighbor(top, distMap'[top]);
      }
    }

    /** The loop over the neighbours of the node just expanded. */
    method Relax(current: Neighbor, frontier: map<int, int>, visited: set<int>, nbs: seq<Neighbor>)
      returns (distMap: map<int, int>)
      requires NodesExtend(loaded.nodes, nodes)
      modifies this`nodes
      ensures NodesExtend(loaded.nodes, nodes)
      ensures distMap == Relaxed(loaded.nodes, visited, current.distance, frontier, nbs)
    {
      distMap := frontier;
      for i := 0 to |nbs|
        invariant NodesExtend(loaded.nodes, nodes)
        invariant distMap == Relaxed(loaded.nodes, visited, current.distance, frontier, nbs[..i])
      {
        var nb := nbs[i];
        assert nbs[..i + 1][..i] == nbs[..i];
        if nb.id in visited {
          continue;
        }
        var node := GetNode(nb.id);
        if node.kind == CLIENT {
          continue;
        }
        if nb.id !in distMap {
          distMap := distMap[nb.id := current.distance + nb.distance];
        } else {
          var d := current.distance + nb.distance;
          distMap := distMap[nb.id := if d < distMap[nb.id] then d else distMap[nb.id]];
        }
      }
      assert nbs[..|nbs|] == nbs;
    }
  }

  // ----- from the file to the answer

  /** Some line gives the id this type. */
  ghost predicate HasLine(decls: seq<Decl>, id: int, word: string) {
    exists i :: 0 <= i < |decls| && decls[i].id == id && decls[i].kind == word
  }

  /** A walk over the undirected links of the file that enters switches and servers only. */
  ghost predicate IsFileWalk(decls: seq<Decl>, links: seq<Link>, o: int, w: Walk) {
    match w
    case Start(id) => id == o
    case Step(prev, hop) =>
      && IsFileWalk(decls, links, o, prev)
      && (Link(End(prev), hop.id, hop.distance) in links || Link(hop.id, End(prev), hop.distance) in links)
      && (HasLine(decls, hop.id, "SWITCH") || HasLine(decls, hop.id, "SERVER"))
  }

  ghost predicate ReachesServer(decls: seq<Decl>, links: seq<Link>, o: int, w: Walk) {
    IsFileWalk(decls, links, o, w) && HasLine(decls, End(w), "SERVER")
  }

  ghost predicate ServerReachableInFile(decls: seq<Decl>, links: seq<Link>, o: int) {
    exists w :: ReachesServer(decls, links, o, w)
  }

  /** `s` is a server at distance `d` over the links of the file, and no server is nearer. */
  ghost predicate IsNearestInFile(decls: seq<Decl>, links: seq<Link>, o: int, s: int, d: int) {
    && (exists w :: ReachesServer(decls, links, o, w) && End(w) == s && Cost(w) == d)
    && (forall w :: ReachesServer(decls, links, o, w) ==> d <= Cost(w))
  }

  /** Some walk to the server `s` is no worse, in cost and then in key, than any walk to any server. */
  ghost predicate IsFavouredInFile(decls: seq<Decl>, links: seq<Link>, o: int, s: int) {
    exists w :: ReachesServer(decls, links, o, w) && End(w) == s
      && forall v :: ReachesServer(decls, links, o, v) ==> NoWorse(w, v)
  }

  /** Every link of the file that touches a server has a positive cost. */
  ghost predicate ServersApartInFile(decls: seq<Decl>, links: seq<Link>) {
    forall l :: l in links && (HasLine(decls, l.a, "SERVER") || HasLine(decls, l.b, "SERVER")) ==> l.cost > 0
  }

  ghost function LoadedNetwork(decls: seq<Decl>, links: seq<Link>): Network
    requires KnownKinds(decls)
  {
    Network(NodesOf(decls), EdgesOf(links))
  }

  ghost function ReplyFromFile(decls: seq<Decl>, links: seq<Link>, clientIP: string): string
    requires Accepted(decls)
  {
    Reply(LoadedNetwork(decls, links), IpMapOf(decls), clientIP)
  }

  ghost predicate IsClientLine(decls: seq<Decl>, i: int) {
    0 <= i < |decls| && HasIp(decls[i]) && decls[i].kind == "CLIENT"
  }

  /** The types of the loaded nodes are the words of the lines. */
  lemma KindsAreWords(decls: seq<Decl>, id: int)
    requires Accepted(decls)
    ensures IsServer(NodesOf(decls), id) <==> HasLine(decls, id, "SERVER")
    ensures Passable(NodesOf(decls), id) <==> HasLine(decls, id, "SWITCH") || HasLine(decls, id, "SERVER")
  {
    if id in NodesOf(decls) {
      var i := DeclaredAt(decls, id);
      AcceptedMaps(decls, i);
      forall j | 0 <= j < |decls| && decls[j].id == id
        ensures j == i
      {
        assert j < i ==> !Clash(decls[j], decls[i]);
        assert i < j ==> !Clash(decls[i], decls[j]);
      }
    } else {
      forall j | 0 <= j < |decls|
        ensures decls[j].id != id
      {
        DeclaredIsNode(decls, j);
      }
    }
  }

  lemma {:induction false} FileWalkIsWalk(decls: seq<Decl>, links: seq<Link>, o: int, w: Walk)
    requires Accepted(decls)
    ensures IsFileWalk(decls, links, o, w) <==> IsWalk(LoadedNetwork(decls, links), o, w)
  {
    match w
    case Start(_) =>
    case Step(prev, hop) =>
      FileWalkIsWalk(decls, links, o, prev);
      AdjIsJoins(links, End(prev), hop);
      KindsAreWords(decls, hop.id);
  }

  lemma ReachesIsWalk(decls: seq<Decl>, links: seq<Link>, o: int)
    requires Accepted(decls)
    ensures forall w :: ReachesServer(decls, links, o, w)
                   <==> IsWalk(LoadedNetwork(decls, links), o, w) && IsServer(NodesOf(decls), End(w))
  {
    forall w
      ensures ReachesServer(decls, links, o, w)
         <==> IsWalk(LoadedNetwork(decls, links), o, w) && IsServer(NodesOf(decls), End(w))
    {
      FileWalkIsWalk(decls, links, o, w);
      KindsAreWords(decls, End(w));
    }
  }

  /** An address in the reply is never mistaken for an empty reply. */
  lemma UintIpNotEmpty(x: uint32)
    ensures UintIp(x) != ""
  {
  }

  lemma ReplyOfClient(decls: seq<Decl>, links: seq<Link>, i: int)
    requires Accepted(decls) && IsClientLine(decls, i)
    ensures var g := LoadedNetwork(decls, links);
      ReplyFromFile(decls, links, decls[i].ip)
      == match Nearest(g, decls[i].id) case None => "" case Some(s) => UintIp(NodeAt(g.nodes, s).ip)
  {
    AcceptedMaps(decls, i);
  }

  /** A declared client gets an empty reply exactly when no server can be reached from it. */
  lemma FileComplete(decls: seq<Decl>, links: seq<Link>, i: int)
    requires Accepted(decls) && IsClientLine(decls, i)
    ensures ReplyFromFile(decls, links, decls[i].ip) == "" <==> !ServerReachableInFile(decls, links, decls[i].id)
  {
    var g, o := LoadedNetwork(decls, links), decls[i].id;
    ReplyOfClient(decls, links, i);
    NearestComplete(g, o);
    if Nearest(g, o).Some? {
      UintIpNotEmpty(NodeAt(g.nodes, Nearest(g, o).value).ip);
    }
    ReachesIsWalk(decls, links, o);
  }

  /** Any other address, unknown or not a client's, gets an empty reply. */
  lemma FileUnknown(decls: seq<Decl>, links: seq<Link>, clientIP: string)
    requires Accepted(decls)
    requires forall i :: IsClientLine(decls, i) ==> IpUint(decls[i].ip) != IpUint(clientIP)
    ensures ReplyFromFile(decls, links, clientIP) == ""
  {
    var ip := IpUint(clientIP);
    IpMapOfKeys(decls, ip);
    if ip in IpMapOf(decls) {
      var i :| 0 <= i < |decls| && Registers(decls[i], ip);
      AcceptedMaps(decls, i);
      assert !IsClientLine(decls, i);
    }
  }

  /** The reply is the address of the line, letter by letter if it is written as a dotted quad. */
  ghost predicate RepliesWith(d: Decl, reply: string) {
    reply == UintIp(IpUint(d.ip)) && (IsCanonical(d.ip) ==> reply == d.ip)
  }

  /** The answer to a declared client is the address on the line of the server that the search favours. */
  lemma FileFavoured(decls: seq<Decl>, links: seq<Link>, i: int) returns (j: int)
    requires Accepted(decls) && IsClientLine(decls, i) && NonNegativeLinks(links)
    requires ServerReachableInFile(decls, links, decls[i].id)
    ensures 0 <= j < |decls| && decls[j].kind == "SERVER" && RepliesWith(decls[j], ReplyFromFile(decls, links, decls[i].ip))
    ensures IsFavouredInFile(decls, links, decls[i].id, decls[j].id)
    ensures Nearest(LoadedNetwork(decls, links), decls[i].id) == Some(decls[j].id)
  {
    var g, o := LoadedNetwork(decls, links), decls[i].id;
    ReplyOfClient(decls, links, i);
    NonNegativeLinksEdges(links);
    ReachesIsWalk(decls, links, o);
    NearestComplete(g, o);
    var s := Nearest(g, o).value;
    NearestIsFavoured(g, o, s);
    KindsAreWords(decls, s);
    j :| 0 <= j < |decls| && decls[j].id == s && decls[j].kind == "SERVER";
    AcceptedMaps(decls, j);
    TextRoundTrip(decls[j].ip);
  }

  lemma FavouredIsNearest(decls: seq<Decl>, links: seq<Link>, o: int, s: int) returns (d: int)
    requires IsFavouredInFile(decls, links, o, s)
    ensures IsNearestInFile(decls, links, o, s, d)
  {
    var w :| ReachesServer(decls, links, o, w) && End(w) == s
      && forall v :: ReachesServer(decls, links, o, v) ==> NoWorse(w, v);
    d := Cost(w);
  }

  lemma {:induction false} ServerKeyInFile(decls: seq<Decl>, links: seq<Link>, o: int, w: Walk)
    requires ServersApartInFile(decls, links) && ReachesServer(decls, links, o, w)
    ensures Key(w) == [End(w)]
  {
    if w.Step? {
      var l := Link(End(w.prev), w.hop.id, w.hop.distance);
      var m := Link(w.hop.id, End(w.prev), w.hop.distance);
      assert l in links ==> l.cost > 0;
      assert m in links ==> m.cost > 0;
    }
  }

  lemma FavouredIsFirst(decls: seq<Decl>, links: seq<Link>, o: int, s: int, d: int)
    requires ServersApartInFile(decls, links) && IsFavouredInFile(decls, links, o, s) && IsNearestInFile(decls, links, o, s, d)
    ensures forall t :: IsNearestInFile(decls, links, o, t, d) ==> s <= t
  {
    var w :| ReachesServer(decls, links, o, w) && End(w) == s
      && forall v :: ReachesServer(decls, links, o, v) ==> NoWorse(w, v);
    ServerKeyInFile(decls, links, o, w);
    forall t | IsNearestInFile(decls, links, o, t, d)
      ensures s <= t
    {
      var v :| ReachesServer(decls, links, o, v) && End(v) == t && Cost(v) == d;
      ServerKeyInFile(decls, links, o, v);
      assert NoWorse(w, v);
    }
  }

  /** Line `j` declares the server that the reply names, at distance `d`. */
  ghost predicate IsAnswerLine(decls: seq<Decl>, links: seq<Link>, o: int, reply: string, j: int, d: int) {
    && 0 <= j < |decls| && decls[j].kind == "SERVER" && RepliesWith(decls[j], reply)
    && IsNearestInFile(decls, links, o, decls[j].id, d)
    && IsFavouredInFile(decls, links, o, decls[j].id)
    && (ServersApartInFile(decls, links) ==> forall t :: IsNearestInFile(decls, links, o, t, d) ==> decls[j].id <= t)
  }

  /** With non-negative costs, a declared client that can reach a server gets the address on the line of a
      server nearest over the undirected links of the file. Ties are decided by the keys of the walks; when
      every link that touches a server has a positive cost, that is the least id. */
  lemma FileNearest(decls: seq<Decl>, links: seq<Link>, i: int)
    requires Accepted(decls) && IsClientLine(decls, i) && NonNegativeLinks(links)
    requires ServerReachableInFile(decls, links, decls[i].id)
    ensures exists j, d :: IsAnswerLine(decls, links, decls[i].id, ReplyFromFile(decls, links, decls[i].ip), j, d)
  {
    var j := FileFavoured(decls, links, i);
    var d := FavouredIsNearest(decls, links, decls[i].id, decls[j].id);
    if ServersApartInFile(decls, links) {
      FavouredIsFirst(decls, links, decls[i].id, decls[j].id, d);
    }
    assert IsAnswerLine(decls, links, decls[i].id, ReplyFromFile(decls, links, decls[i].ip), j, d);
  }
}
