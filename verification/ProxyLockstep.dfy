/** Requests and responses in turn: the manifest exchange, forwarding, and whole sessions. */
module ProxyLockstep {
  import opened Text
  import opened Proxy
  import opened ProxyRuns
  import opened ProxyRules
  import Response
  import Chunk
  import Manifest
  import Bitrate

  /** Nothing is under way. */
  predicate IsIdle(c: Conn) {
    c.clientMessage == "" && c.serverMessage == "" && c.serverMessageLen == 0 && c.noListMessage == ""
  }

  // ----- one request

  /** What bitrates are chosen from: the list and the estimate. */
  datatype Rates = Rates(list: seq<int>, estimate: real)

  function RatesOf(c: Conn): Rates { Rates(c.bitrates, c.throughput) }

  /** A chunk can only be requested once a list is known. */
  predicate CanSend(list: seq<int>, q: string) { Chunk.Locate(q).Some? ==> list != [] }

  /** What goes out for a request: a chunk request is rewritten to the chosen bitrate. */
  function Sent(rates: Rates, q: string): string {
    if rates.list == [] then q else Chunk.Rewrite(q, Bitrate.Choose(rates.list, rates.estimate))
  }

  /** The reads of a request. */
  predicate Asks(es: seq<Event>, q: string) { IsRequest(q) && AreClientReads(es) && ClientInput(es) == q }

  /** The connection `d` is `c` once the request `q` went out. */
  ghost predicate IsAsked(c: Conn, q: string, d: Conn) {
    && d.clientMessage == "" && d.serverMessage == c.serverMessage && d.serverMessageLen == c.serverMessageLen
    && d.noListMessage == NextRequest(q) && d.connected
    && RatesOf(d) == RatesOf(c) && d.wire == c.wire + [ToServer(Sent(RatesOf(c), q))]
  }

  lemma RequestSent(alpha: real, c: Conn, q: string, es: seq<Event>)
    requires c.clientMessage == c.noListMessage == "" && Asks(es, q)
    ensures Run(alpha, c, es).Next? <==> CanSend(c.bitrates, q)
    ensures CanSend(c.bitrates, q) ==> IsAsked(c, q, Run(alpha, c, es).c)
  {
    RequestSegmentation(alpha, c, q, es);
    if Contains(q, VIDEO_NAME) {
      NoListIsNext(q);
    }
  }

  // ----- one response

  /** The reads of a response. */
  ghost predicate Delivers(es: seq<Event>, r: string) {
    Response.IsResponse(r) && AreReads(es) && ServerInput(es) == r && es != []
  }

  /** The times of the first read of a response and of the last. */
  function StartOf(es: seq<Event>): real { if es != [] && es[0].ServerBytes? then es[0].before else 0.0 }

  function EndOf(es: seq<Event>): real {
    if es != [] && es[|es| - 1].ServerBytes? then es[|es| - 1].now else 0.0
  }

  function Elapsed(es: seq<Event>): real { EndOf(es) - StartOf(es) }

  /** A chunk takes some time to arrive. */
  predicate Timed(es: seq<Event>, r: string) { CarriesVideo(r) ==> Elapsed(es) > 0.0 }

  /** The connection once the response `r` was forwarded. */
  function Forwarded(alpha: real, c: Conn, start: real, elapsed: real, r: string): Conn {
    c.(connStart := start, throughput := Measured(alpha, c.throughput, r, |r|, elapsed), wire := c.wire + [ToClient(r)])
  }

  lemma HandleForwards(alpha: real, c: Conn, r: string, start: real, now: real)
    requires c.serverMessage == "" && c.serverMessageLen == 0 && c.noListMessage == "" && (CarriesVideo(r) ==> now - start > 0.0)
    ensures HandleResponse(alpha, c.(connStart := start, serverMessage := r, serverMessageLen := |r|), now)
         == Next(Forwarded(alpha, c, start, now - start, r))
  {
    ThroughputIs(alpha, c.(connStart := start, serverMessage := r, serverMessageLen := |r|), now);
  }

  lemma TimesOf(es: seq<Event>)
    requires AreReads(es) && es != []
    ensures es[0].ServerBytes? && es[|es| - 1].ServerBytes? && StartOf(es) == es[0].before && EndOf(es) == es[|es| - 1].now
  {
  }

  lemma ResponseForwarded(alpha: real, c: Conn, r: string, es: seq<Event>)
    requires c.serverMessage == "" && c.serverMessageLen == 0 && c.noListMessage == "" && Delivers(es, r) && Timed(es, r)
    ensures Run(alpha, c, es) == Next(Forwarded(alpha, c, StartOf(es), Elapsed(es), r))
  {
    HandledOnce(alpha, c, r, es);
    ForwardedAtEnd(alpha, c, r, es, Run(alpha, c, es));
  }

  lemma HandledOnce(alpha: real, c: Conn, r: string, es: seq<Event>)
    requires c.serverMessage == "" && c.serverMessageLen == 0 && Delivers(es, r)
    ensures Run(alpha, c, es) == HandleResponse(alpha,
      c.(connStart := StartOf(es), serverMessage := r, serverMessageLen := |r|), EndOf(es))
  {
    SegmentationIndependent(alpha, c, r, es);
    TimesOf(es);
  }

  lemma ForwardedAtEnd(alpha: real, c: Conn, r: string, es: seq<Event>, o: Outcome)
    requires c.serverMessage == "" && c.serverMessageLen == 0 && c.noListMessage == "" && Timed(es, r)
    requires o == HandleResponse(alpha, c.(connStart := StartOf(es), serverMessage := r, serverMessageLen := |r|), EndOf(es))
    ensures o == Next(Forwarded(alpha, c, StartOf(es), Elapsed(es), r))
  {
    HandleForwards(alpha, c, r, StartOf(es), EndOf(es));
  }

  /** With `alpha` 1 the estimate after a chunk is its own rate: times the time it is the number of kilobits. */
  lemma ChunkMeasured(c: Conn, r: string, es: seq<Event>)
    requires c.serverMessage == "" && c.serverMessageLen == 0 && c.noListMessage == "" && Delivers(es, r) && Timed(es, r)
    requires CarriesVideo(r)
    ensures Run(1.0, c, es).Next? && IsRate(Run(1.0, c, es).c.throughput, |r|, Elapsed(es))
  {
    ResponseForwarded(1.0, c, r, es);
    MeasuredAlone(c.throughput, r, |r|, Elapsed(es));
  }

  /** More bytes came in than went out. */
  lemma NotForwarded(alpha: real, c: Conn, r: string, es: seq<Event>)
    requires ServerInput(es) == r && c.serverMessage != "" && Run(alpha, c, es).Next?
    ensures Run(alpha, c, es).c.serverMessage == "" ==> Run(alpha, c, es).c.wire != c.wire + [ToClient(r)]
  {
    RunConserves(alpha, c, es);
    FromServerOne(c.wire, ToClient(r));
    assert |Ledger(c) + r| == |FromServer(c.wire)| + |c.serverMessage| + |r|;
  }

  /** A response, chunks included, is forwarded as it is with nothing left over exactly when no part of an
      earlier one was left in the buffer. The connection is then ready for the next response, and its
      estimate has taken in the sample of a chunk: its length over the time since its first read. */
  lemma ForwardedExactly(alpha: real, c: Conn, r: string, es: seq<Event>)
    requires Delivers(es, r) && Timed(es, r)
    requires c.noListMessage == "" && (c.serverMessage == "" ==> c.serverMessageLen == 0)
    ensures (Run(alpha, c, es).Next? && Run(alpha, c, es).c.serverMessage == ""
             && Run(alpha, c, es).c.wire == c.wire + [ToClient(r)])
       <==> c.serverMessage == ""
    ensures c.serverMessage == "" ==> Run(alpha, c, es) == Next(Forwarded(alpha, c, StartOf(es), Elapsed(es), r))
  {
    if c.serverMessage == "" {
      ResponseForwarded(alpha, c, r, es);
    } else if Run(alpha, c, es).Next? {
      NotForwarded(alpha, c, r, es);
    }
  }

  // ----- a server that disconnects in the middle of a response

  /** A part of a response, and then no bytes at all. */
  predicate BreaksOff(es: seq<Event>, p: string) {
    |es| == 2 && es[0].ServerBytes? && es[0].bytes == p != "" && es[1].ServerBytes? && es[1].bytes == ""
  }

  lemma FirstPart(alpha: real, c: Conn, p: string, rest: string, e: Event)
    requires c.serverMessage == "" && c.serverMessageLen == 0
    requires Response.IsResponse(p + rest) && rest != "" && e.ServerBytes? && e.bytes == p != ""
    ensures Step(alpha, c, e) == Next(Partial(c, e.before, p + rest, p))
  {
    var r, d := p + rest, c.(connStart := e.before);
    Response.ResponseLength(r);
    StartIsReset(alpha, c, e);
    assert d == Partial(c, e.before, r, "");
    assert "" + p == p;
    ReadPart(alpha, c, e.before, r, "", e, rest);
  }

  lemma NoBytes(alpha: real, c: Conn, e: Event)
    requires c.serverMessage != "" && e.ServerBytes? && e.bytes == ""
    ensures Step(alpha, c, e) == Next(c.(connected := false))
  {
    assert c.serverMessage + "" == c.serverMessage;
  }

  lemma RunTwo(alpha: real, c: Conn, es: seq<Event>, d: Conn, f: Conn)
    requires |es| == 2 && Step(alpha, c, es[0]) == Next(d) && Step(alpha, d, es[1]) == Next(f)
    ensures Run(alpha, c, es) == Next(f)
  {
    var last := es[1..];
    assert last[0] == es[1] && last[1..] == [];
    assert Run(alpha, d, last) == Run(alpha, f, []);
  }

  lemma PartStays(alpha: real, c: Conn, p: string, rest: string, es: seq<Event>)
    requires c.serverMessage == "" && c.serverMessageLen == 0
    requires Response.IsResponse(p + rest) && rest != "" && BreaksOff(es, p)
    ensures Run(alpha, c, es) == Next(Partial(c, es[0].before, p + rest, p).(connected := false))
  {
    var d := Partial(c, es[0].before, p + rest, p);
    FirstPart(alpha, c, p, rest, es[0]);
    NoBytes(alpha, d, es[1]);
    RunTwo(alpha, c, es, d, d.(connected := false));
  }

  /** From an idle connection, a response that breaks off leaves its part in the buffer, and the response
      to the next request is not forwarded as it is. */
  lemma DisconnectSpoils(alpha: real, c: Conn, p: string, rest: string, es: seq<Event>,
                         q: string, e0: seq<Event>, r: string, e1: seq<Event>)
    requires IsIdle(c) && Response.IsResponse(p + rest) && rest != "" && BreaksOff(es, p)
    requires Asks(e0, q) && CanSend(c.bitrates, q) && !Contains(q, "big_buck_bunny.f4m")
    requires Delivers(e1, r) && Timed(e1, r)
    ensures Run(alpha, c, es).Next? && !Run(alpha, c, es).c.connected && Run(alpha, c, es + e0).Next?
    ensures var d := Run(alpha, c, es + e0).c; d.connected && d.serverMessage == p && d.wire == c.wire + [ToServer(Sent(RatesOf(c), q))]
    ensures var o := Run(alpha, c, es + e0 + e1);
      o.Next? && o.c.serverMessage == "" ==> o.c.wire != c.wire + [ToServer(Sent(RatesOf(c), q)), ToClient(r)]
  {
    PartStays(alpha, c, p, rest, es);
    var b := Run(alpha, c, es).c;
    RequestSent(alpha, b, q, e0);
    RunConcat(alpha, c, es, e0);
    var d := Run(alpha, b, e0).c;
    RunConcat(alpha, c, es + e0, e1);
    ForwardedExactly(alpha, d, r, e1);
    assert c.wire + [ToServer(Sent(RatesOf(c), q))] + [ToClient(r)] == c.wire + [ToServer(Sent(RatesOf(c), q)), ToClient(r)];
  }

  // ----- the list manifest

  /** The attributes of a list manifest can be read, and there is at least one bitrate in all. */
  predicate IsManifest(r: string, known: seq<int>) {
    Contains(r, "Content-Type: text/xml") && Manifest.ParseAttributes(r).Some? && known + Manifest.ParseAttributes(r).value.1 != []
  }

  /** What is known once a manifest was read: all the bitrates in order, and 1.5 times the lowest. */
  function Listed(r: string, known: seq<int>): Rates {
    var read := match Manifest.ParseAttributes(r) case None => [] case Some(p) => p.1;
    var list := Bitrate.Sort(known + read);
    Rates(list, if list == [] then 0.0 else list[0] as real * 1.5)
  }

  /** The connection once the list manifest `r`, whose first read began at `start`, was swallowed. */
  function Swallowed(c: Conn, r: string, start: real): Conn {
    var rates := Listed(r, c.bitrates);
    c.(connStart := start, noListMessage := "", bitrates := rates.list, throughput := rates.estimate,
       wire := c.wire + [Swallow(r), ToServer(c.noListMessage)])
  }

  lemma HandleSwallows(alpha: real, c: Conn, r: string, start: real, now: real)
    requires c.serverMessage == "" && c.serverMessageLen == 0 && c.noListMessage != ""
    ensures HandleResponse(alpha, c.(connStart := start, serverMessage := r, serverMessageLen := |r|), now)
         == if IsManifest(r, c.bitrates) then Next(Swallowed(c, r, start)) else Stopped
  {
    if Manifest.ParseAttributes(r).Some? {
      Bitrate.SortContents(c.bitrates + Manifest.ParseAttributes(r).value.1);
    }
  }

  lemma ManifestReceived(alpha: real, c: Conn, r: string, es: seq<Event>)
    requires c.serverMessage == "" && c.serverMessageLen == 0 && c.noListMessage != ""
    requires Delivers(es, r)
    ensures Run(alpha, c, es).Next? <==> IsManifest(r, c.bitrates)
    ensures IsManifest(r, c.bitrates) ==> Run(alpha, c, es) == Next(Swallowed(c, r, StartOf(es)))
  {
    HandledOnce(alpha, c, r, es);
    HandleSwallows(alpha, c, r, StartOf(es), EndOf(es));
  }

  // ----- whole exchanges

  /** A request and the response to it; or a request for the manifest, the list manifest, and the response
      to the request for the manifest without a list. Each comes in any number of reads. */
  datatype Exchange =
    | Fetch(q: string, asked: seq<Event>, r: string, answered: seq<Event>)
    | FetchManifest(q: string, asked: seq<Event>, list: string, listed: seq<Event>, r: string, answered: seq<Event>)

  /** The exchange can take place when these bitrates are known. */
  ghost predicate CanTakePlace(known: seq<int>, x: Exchange) {
    && Asks(x.asked, x.q) && CanSend(known, x.q)
    && Delivers(x.answered, x.r) && Timed(x.answered, x.r)
    && (Contains(x.q, "big_buck_bunny.f4m") <==> x.FetchManifest?)
    && (x.FetchManifest? ==> Delivers(x.listed, x.list) && IsManifest(x.list, known))
  }

  function Events(x: Exchange): seq<Event> {
    match x
    case Fetch(_, asked, _, answered) => asked + answered
    case FetchManifest(_, asked, _, listed, _, answered) => asked + listed + answered
  }

  /** The messages of an exchange: the request, rewritten if it is for a chunk, and the response as it is.
      For a manifest, the list manifest and the second request come in between. */
  function Messages(rates: Rates, x: Exchange): seq<Action> {
    match x
    case Fetch(q, _, r, _) => [ToServer(Sent(rates, q)), ToClient(r)]
    case FetchManifest(q, _, list, _, r, _) => [ToServer(Sent(rates, q)), Swallow(list), ToServer(NextRequest(q)), ToClient(r)]
  }

  /** The bitrates and the estimate after an exchange. */
  function RatesAfter(alpha: real, rates: Rates, x: Exchange): Rates {
    var before := if x.Fetch? then rates else Listed(x.list, rates.list);
    before.(estimate := Measured(alpha, before.estimate, x.r, |x.r|, Elapsed(x.answered)))
  }

  /** The connection `d` is the idle connection `c` after the exchange `x`. */
  ghost predicate IsAfter(alpha: real, c: Conn, x: Exchange, d: Conn) {
    IsIdle(d) && d.connected && d.wire == c.wire + Messages(RatesOf(c), x) && RatesOf(d) == RatesAfter(alpha, RatesOf(c), x)
  }

  lemma FetchEnds(alpha: real, c: Conn, x: Exchange, d: Conn, start: real)
    requires IsIdle(c) && x.Fetch? && IsAsked(c, x.q, d) && !Contains(x.q, "big_buck_bunny.f4m")
    ensures IsAfter(alpha, c, x, Forwarded(alpha, d, start, Elapsed(x.answered), x.r))
  {
    assert c.wire + [ToServer(Sent(RatesOf(c), x.q))] + [ToClient(x.r)]
        == c.wire + [ToServer(Sent(RatesOf(c), x.q)), ToClient(x.r)];
  }

  lemma FetchExchange(alpha: real, c: Conn, x: Exchange)
    requires IsIdle(c) && CanTakePlace(c.bitrates, x) && x.Fetch?
    ensures Run(alpha, c, Events(x)).Next? && IsAfter(alpha, c, x, Run(alpha, c, Events(x)).c)
  {
    RequestSent(alpha, c, x.q, x.asked);
    var d := Run(alpha, c, x.asked).c;
    ResponseForwarded(alpha, d, x.r, x.answered);
    RunConcat(alpha, c, x.asked, x.answered);
    FetchEnds(alpha, c, x, d, StartOf(x.answered));
  }

  lemma RunThree(alpha: real, c: Conn, e0: seq<Event>, e1: seq<Event>, e2: seq<Event>, d: Conn, f: Conn, g: Conn)
    requires Run(alpha, c, e0) == Next(d) && Run(alpha, d, e1) == Next(f) && Run(alpha, f, e2) == Next(g)
    ensures Run(alpha, c, e0 + e1 + e2) == Next(g)
  {
    RunConcat(alpha, c, e0, e1);
    RunConcat(alpha, c, e0 + e1, e2);
  }

  lemma WireThree(w: seq<Action>, q: Action, s: Action, n: Action, r: Action)
    ensures w + [q] + [s, n] + [r] == w + [q, s, n, r]
  {
  }

  /** The connection after a manifest exchange, from the connections before and in between. */
  lemma ManifestEnds(alpha: real, c: Conn, x: Exchange, d: Conn, f: Conn, start: real, first: real)
    requires IsIdle(c) && x.FetchManifest? && IsAsked(c, x.q, d) && f == Swallowed(d, x.list, first)
    ensures IsAfter(alpha, c, x, Forwarded(alpha, f, start, Elapsed(x.answered), x.r))
  {
    WireThree(c.wire, ToServer(Sent(RatesOf(c), x.q)), Swallow(x.list), ToServer(NextRequest(x.q)), ToClient(x.r));
  }

  /** A manifest request yields exactly one forwarded response: the client's request goes out, the list
      manifest is swallowed and sets the bitrates and the estimate, the request for the manifest without a
      list goes out, and its response is forwarded unchanged. */
  lemma ManifestExchange(alpha: real, c: Conn, x: Exchange)
    requires IsIdle(c) && CanTakePlace(c.bitrates, x) && x.FetchManifest?
    ensures Run(alpha, c, Events(x)).Next? && IsAfter(alpha, c, x, Run(alpha, c, Events(x)).c)
  {
    RequestSent(alpha, c, x.q, x.asked);
    var d := Run(alpha, c, x.asked).c;
    ManifestReceived(alpha, d, x.list, x.listed);
    var f := Swallowed(d, x.list, StartOf(x.listed));
    ResponseForwarded(alpha, f, x.r, x.answered);
    var g := Forwarded(alpha, f, StartOf(x.answered), Elapsed(x.answered), x.r);
    RunThree(alpha, c, x.asked, x.listed, x.answered, d, f, g);
    ManifestEnds(alpha, c, x, d, f, StartOf(x.answered), StartOf(x.listed));
  }

  // ----- sessions

  /** The exchanges can take place one after the other. */
  ghost predicate CanFollow(alpha: real, rates: Rates, xs: seq<Exchange>)
    decreases xs
  {
    xs != [] ==> CanTakePlace(rates.list, xs[0]) && CanFollow(alpha, RatesAfter(alpha, rates, xs[0]), xs[1..])
  }

  function AllEvents(xs: seq<Exchange>): seq<Event> {
    if xs == [] then [] else Events(xs[0]) + AllEvents(xs[1..])
  }

  function AllMessages(alpha: real, rates: Rates, xs: seq<Exchange>): seq<Action>
    decreases xs
  {
    if xs == [] then [] else Messages(rates, xs[0]) + AllMessages(alpha, RatesAfter(alpha, rates, xs[0]), xs[1..])
  }

  function RatesAtEnd(alpha: real, rates: Rates, xs: seq<Exchange>): Rates
    decreases xs
  {
    if xs == [] then rates else RatesAtEnd(alpha, RatesAfter(alpha, rates, xs[0]), xs[1..])
  }

  lemma OneExchange(alpha: real, c: Conn, x: Exchange)
    requires IsIdle(c) && CanTakePlace(c.bitrates, x)
    ensures Run(alpha, c, Events(x)).Next? && IsAfter(alpha, c, x, Run(alpha, c, Events(x)).c)
  {
    if x.Fetch? {
      FetchExchange(alpha, c, x);
    } else {
      ManifestExchange(alpha, c, x);
    }
  }

  lemma MessagesJoin(w: seq<Action>, a: seq<Action>, b: seq<Action>)
    ensures w + a + b == w + (a + b)
  {
  }

  /** Any sequence of exchanges, of manifests, chunks and others, however their bytes are split: the
      connection is idle again, and its messages are those of each exchange in turn, every chunk
      requested at the bitrate chosen from the list and the estimate at that point. */
  lemma {:induction false} Session(alpha: real, c: Conn, xs: seq<Exchange>)
    requires IsIdle(c) && CanFollow(alpha, RatesOf(c), xs)
    ensures Run(alpha, c, AllEvents(xs)).Next?
    ensures var d := Run(alpha, c, AllEvents(xs)).c;
      && IsIdle(d) && (xs != [] ==> d.connected) && d.wire == c.wire + AllMessages(alpha, RatesOf(c), xs)
      && RatesOf(d) == RatesAtEnd(alpha, RatesOf(c), xs)
    decreases xs
  {
    if xs != [] {
      OneExchange(alpha, c, xs[0]);
      var d := Run(alpha, c, Events(xs[0])).c;
      RunConcat(alpha, c, Events(xs[0]), AllEvents(xs[1..]));
      Session(alpha, d, xs[1..]);
      MessagesJoin(c.wire, Messages(RatesOf(c), xs[0]), AllMessages(alpha, RatesOf(d), xs[1..]));
    }
  }

  /** What the client receives. */
  function ToClients(wire: seq<Action>): seq<string> {
    if wire == [] then []
    else (if wire[0].ToClient? then [wire[0].bytes] else []) + ToClients(wire[1..])
  }

  lemma {:induction false} ToClientsConcat(a: seq<Action>, b: seq<Action>)
    ensures ToClients(a + b) == ToClients(a) + ToClients(b)
  {
    if a == [] {
      assert a + b == b;
    } else {
      ToClientsConcat(a[1..], b);
      assert (a + b)[1..] == a[1..] + b;
    }
  }

  /** The response of each exchange, in order. */
  function Responses(xs: seq<Exchange>): seq<string> {
    if xs == [] then [] else [xs[0].r] + Responses(xs[1..])
  }

  lemma OneToClient(rates: Rates, x: Exchange)
    ensures ToClients(Messages(rates, x)) == [x.r]
  {
    var w := Messages(rates, x);
    ToClientsConcat(w[..|w| - 1], [ToClient(x.r)]);
    assert w == w[..|w| - 1] + [ToClient(x.r)];
    if x.FetchManifest? {
      var a: seq<Action>, b: seq<Action> := [w[0]], [w[1], w[2]];
      assert w[..3] == a + b && b[1..] == [w[2]];
      ToClientsConcat(a, b);
    }
  }

  lemma {:induction false} MessagesToClient(alpha: real, rates: Rates, xs: seq<Exchange>)
    ensures ToClients(AllMessages(alpha, rates, xs)) == Responses(xs)
    decreases xs
  {
    if xs != [] {
      OneToClient(rates, xs[0]);
      MessagesToClient(alpha, RatesAfter(alpha, rates, xs[0]), xs[1..]);
      ToClientsConcat(Messages(rates, xs[0]), AllMessages(alpha, RatesAfter(alpha, rates, xs[0]), xs[1..]));
    }
  }

  /** The client of a session receives exactly one response to each of its requests, unchanged and in
      the order of the requests. */
  lemma SessionAnswers(alpha: real, c: Conn, xs: seq<Exchange>)
    requires IsIdle(c) && CanFollow(alpha, RatesOf(c), xs)
    ensures Run(alpha, c, AllEvents(xs)).Next?
    ensures ToClients(Run(alpha, c, AllEvents(xs)).c.wire) == ToClients(c.wire) + Responses(xs)
  {
    Session(alpha, c, xs);
    MessagesToClient(alpha, RatesOf(c), xs);
    ToClientsConcat(c.wire, AllMessages(alpha, RatesOf(c), xs));
  }
}
