/** What holds over whole runs of one proxied connection. */
module ProxyRuns {
  import opened Text
  import opened Proxy
  import Response
  import Chunk
  import Manifest
  import Bitrate

  /** A read from the client, or a read from the server with the clock before and after it. */
  datatype Event = ClientBytes(bytes: string) | ServerBytes(bytes: string, before: real, now: real)

  function Step(alpha: real, c: Conn, e: Event): Outcome {
    match e
    case ClientBytes(bytes) => OnClientBytes(c, bytes)
    case ServerBytes(bytes, before, now) => OnServerBytes(alpha, c, bytes, before, now)
  }

  function Run(alpha: real, c: Conn, es: seq<Event>): Outcome
    decreases es
  {
    if es == [] then Next(c)
    else match Step(alpha, c, es[0])
      case Stopped => Stopped
      case Next(d) => Run(alpha, d, es[1..])
  }

  lemma {:induction false} RunConcat(alpha: real, c: Conn, a: seq<Event>, b: seq<Event>)
    requires Run(alpha, c, a).Next?
    ensures Run(alpha, c, a + b) == Run(alpha, Run(alpha, c, a).c, b)
    decreases a
  {
    if a == [] {
      assert a + b == b;
    } else {
      assert (a + b)[0] == a[0] && (a + b)[1..] == a[1..] + b;
      RunConcat(alpha, Step(alpha, c, a[0]).c, a[1..], b);
    }
  }

  // ----- conservation of bytes

  /** The messages of the server, in order: those forwarded and those swallowed. */
  function FromServer(wire: seq<Action>): string {
    if wire == [] then ""
    else FromServer(wire[..|wire| - 1]) + match wire[|wire| - 1]
      case ToServer(_) => ""
      case ToClient(m) => m
      case Swallow(m) => m
  }

  /** All the bytes read from the server. */
  function ServerInput(es: seq<Event>): string {
    if es == [] then "" else ServerPart(es[0]) + ServerInput(es[1..])
  }

  lemma FromServerOne(wire: seq<Action>, a: Action)
    ensures FromServer(wire + [a]) == FromServer(wire) + match a
      case ToServer(_) => ""
      case ToClient(m) => m
      case Swallow(m) => m
  {
    assert (wire + [a])[..|wire|] == wire;
  }

  lemma ResponseConserves(alpha: real, c: Conn, now: real)
    requires HandleResponse(alpha, c, now).Next?
    ensures var d := HandleResponse(alpha, c, now).c; d.serverMessage == "" && FromServer(d.wire) == FromServer(c.wire) + c.serverMessage
  {
    if c.noListMessage != "" {
      FromServerOne(c.wire, Swallow(c.serverMessage));
      FromServerOne(c.wire + [Swallow(c.serverMessage)], ToServer(c.noListMessage));
      assert c.wire + [Swallow(c.serverMessage), ToServer(c.noListMessage)]
          == c.wire + [Swallow(c.serverMessage)] + [ToServer(c.noListMessage)];
    } else {
      FromServerOne(c.wire, ToClient(c.serverMessage));
    }
  }

  /** The messages of the server so far, followed by what is in the buffer. */
  function Ledger(c: Conn): string { FromServer(c.wire) + c.serverMessage }

  /** The bytes of an event that come from the server. */
  function ServerPart(e: Event): string { if e.ServerBytes? then e.bytes else "" }

  lemma RequestConserves(c: Conn)
    requires HandleRequest(c).Next?
    ensures var d := HandleRequest(c).c; d.serverMessage == c.serverMessage && FromServer(d.wire) == FromServer(c.wire)
  {
    var d := HandleRequest(c).c;
    FromServerOne(c.wire, d.wire[|c.wire|]);
  }

  lemma ClientConserves(c: Conn, bytes: string)
    requires OnClientBytes(c, bytes).Next?
    ensures Ledger(OnClientBytes(c, bytes).c) == Ledger(c)
  {
    var r := c.(clientMessage := c.clientMessage + bytes);
    if Contains(r.clientMessage, Response.HEADER_END) {
      RequestConserves(r);
    }
  }

  lemma ReceiveConserves(c: Conn, bytes: string, before: real)
    ensures var a := Receive(c, bytes, before);
      !a.Failed? ==> a.c.wire == c.wire && a.c.serverMessage == c.serverMessage + bytes
  {
  }

  lemma ServerConserves(alpha: real, c: Conn, bytes: string, before: real, now: real)
    requires OnServerBytes(alpha, c, bytes, before, now).Next?
    ensures Ledger(OnServerBytes(alpha, c, bytes, before, now).c) == Ledger(c) + bytes
  {
    var a := Receive(c, bytes, before);
    ReceiveConserves(c, bytes, before);
    if a.Complete? {
      ResponseConserves(alpha, a.c, now);
    }
    Assoc(FromServer(c.wire), c.serverMessage, bytes);
  }

  lemma StepConserves(alpha: real, c: Conn, e: Event)
    requires Step(alpha, c, e).Next?
    ensures Ledger(Step(alpha, c, e).c) == Ledger(c) + ServerPart(e)
  {
    match e
    case ClientBytes(bytes) =>
      ClientConserves(c, bytes);
      assert Ledger(c) + "" == Ledger(c);
    case ServerBytes(bytes, before, now) =>
      ServerConserves(alpha, c, bytes, before, now);
  }

  lemma Assoc(a: string, b: string, c: string)
    ensures a + b + c == a + (b + c)
  {
  }

  /** Over any run, the bytes read from the server are, in order, the forwarded messages and the
      swallowed manifests, followed by what is still in the buffer. */
  lemma {:induction false} RunConserves(alpha: real, c: Conn, es: seq<Event>)
    requires Run(alpha, c, es).Next?
    ensures Ledger(Run(alpha, c, es).c) == Ledger(c) + ServerInput(es)
    decreases es
  {
    if es == [] {
      assert Ledger(c) + "" == Ledger(c);
    } else {
      StepConserves(alpha, c, es[0]);
      RunConserves(alpha, Step(alpha, c, es[0]).c, es[1..]);
      Assoc(Ledger(c), ServerPart(es[0]), ServerInput(es[1..]));
    }
  }

  // ----- independence of segmentation

  /** Reads from the server, none of them empty. */
  predicate AreReads(es: seq<Event>) {
    forall i :: 0 <= i < |es| ==> es[i].ServerBytes? && es[i].bytes != ""
  }

  /** The connection after a part `p` of the response `r` was read. */
  ghost function Partial(c: Conn, start: real, r: string, p: string): Conn
    requires Response.IsResponse(r)
  {
    c.(connStart := start, serverMessage := p, serverMessageLen := if |p| < Response.HeaderLength(r) then 0 else |r|)
  }

  lemma ReceivePart(c: Conn, start: real, r: string, p: string, bytes: string, before: real, rest: string)
    requires Response.IsResponse(r) && r == p + bytes + rest
    requires bytes != "" && (p == "" ==> start == before)
    ensures Receive(Partial(c, start, r, p), bytes, before)
         == if rest != "" then Waiting(Partial(c, start, r, p + bytes)) else Complete(Partial(c, start, r, r))
  {
    Response.PrefixScan(p + bytes, rest);
    Response.ResponseLength(r);
    if rest == "" {
      assert p + bytes + rest == p + bytes;
    }
  }

  /** One more read of a response: the connection waits until the last byte is there. */
  lemma ReadPart(alpha: real, c: Conn, start: real, r: string, p: string, e: Event, rest: string)
    requires Response.IsResponse(r) && r == p + e.bytes + rest
    requires e.ServerBytes? && e.bytes != "" && (p == "" ==> start == e.before)
    ensures Step(alpha, Partial(c, start, r, p), e)
         == if rest != "" then Next(Partial(c, start, r, p + e.bytes))
            else HandleResponse(alpha, Partial(c, start, r, r), e.now)
  {
    ReceivePart(c, start, r, p, e.bytes, e.before, rest);
  }

  lemma RunFirst(alpha: real, c: Conn, es: seq<Event>, d: Conn)
    requires es != [] && Step(alpha, c, es[0]) == Next(d)
    ensures Run(alpha, c, es) == Run(alpha, d, es[1..])
  {
  }

  lemma RunLast(alpha: real, c: Conn, es: seq<Event>)
    requires |es| == 1
    ensures Run(alpha, c, es) == Step(alpha, c, es[0])
  {
    assert es[1..] == [];
  }

  lemma OneInput(es: seq<Event>)
    requires es != [] && AreReads(es)
    ensures ServerInput(es) == es[0].bytes + ServerInput(es[1..])
    ensures |es| == 1 ==> ServerInput(es[1..]) == ""
    ensures |es| > 1 ==> AreReads(es[1..]) && ServerInput(es[1..]) != "" && es[1..][|es| - 2] == es[|es| - 1]
  {
    if |es| > 1 {
      assert es[1..][0].bytes != "";
    }
  }

  /** The first of several reads of what is left of a response. */
  lemma ReadFirst(alpha: real, c: Conn, start: real, r: string, p: string, es: seq<Event>)
    requires Response.IsResponse(r) && AreReads(es) && es != [] && r == p + ServerInput(es)
    requires p == "" ==> start == es[0].before
    ensures Run(alpha, Partial(c, start, r, p), es)
         == if |es| == 1 then HandleResponse(alpha, Partial(c, start, r, r), es[0].now)
            else Run(alpha, Partial(c, start, r, p + es[0].bytes), es[1..])
  {
    OneInput(es);
    Assoc(p, es[0].bytes, ServerInput(es[1..]));
    ReadPart(alpha, c, start, r, p, es[0], ServerInput(es[1..]));
    if |es| == 1 {
      RunLast(alpha, Partial(c, start, r, p), es);
    } else {
      RunFirst(alpha, Partial(c, start, r, p), es, Partial(c, start, r, p + es[0].bytes));
    }
  }

  lemma {:induction false} ReadRest(alpha: real, c: Conn, start: real, r: string, p: string, es: seq<Event>)
    requires Response.IsResponse(r) && AreReads(es) && es != [] && r == p + ServerInput(es)
    requires p == "" ==> start == es[0].before
    ensures Run(alpha, Partial(c, start, r, p), es) == HandleResponse(alpha, Partial(c, start, r, r), es[|es| - 1].now)
    decreases es
  {
    ReadFirst(alpha, c, start, r, p, es);
    if |es| > 1 {
      OneInput(es);
      Assoc(p, es[0].bytes, ServerInput(es[1..]));
      ReadRest(alpha, c, start, r, p + es[0].bytes, es[1..]);
    }
  }

  /** A read that starts a message sets the clock, whatever it was. */
  lemma StartIsReset(alpha: real, c: Conn, e: Event)
    requires c.serverMessage == "" && e.ServerBytes?
    ensures Step(alpha, c.(connStart := e.before), e) == Step(alpha, c, e)
  {
    assert Receive(c.(connStart := e.before), e.bytes, e.before) == Receive(c, e.bytes, e.before);
  }

  /** However a response is split into reads, the connection handles it exactly once, after the last
      read, as one message with exactly the bytes of the response; the clock starts at the first read. */
  lemma SegmentationIndependent(alpha: real, c: Conn, r: string, es: seq<Event>)
    requires Response.IsResponse(r) && AreReads(es) && ServerInput(es) == r
    requires c.serverMessage == "" && c.serverMessageLen == 0
    ensures es != []
    ensures Run(alpha, c, es)
         == HandleResponse(alpha, c.(connStart := es[0].before, serverMessage := r, serverMessageLen := |r|), es[|es| - 1].now)
  {
    Response.ResponseLength(r);
    assert es != [];
    var d := c.(connStart := es[0].before);
    StartIsReset(alpha, c, es[0]);
    assert d == Partial(c, es[0].before, r, "");
    assert "" + r == r;
    ReadRest(alpha, c, es[0].before, r, "", es);
  }

  /** A read that goes beyond the end of a response: all of it is handled as one message, with the length that
      the header announced. */
  lemma ReadBeyond(alpha: real, c: Conn, start: real, r: string, p: string, extra: string, e: Event)
    requires Response.IsResponse(r) && e.ServerBytes? && p + e.bytes == r + extra && |p| < |r|
    requires p == "" ==> start == e.before
    ensures Step(alpha, Partial(c, start, r, p), e)
         == HandleResponse(alpha, c.(connStart := start, serverMessage := r + extra, serverMessageLen := |r|), e.now)
  {
    Response.ScanBeyond(r, extra);
    Response.ResponseLength(r);
  }

  // ----- requests of the client

  /** A request that ends with its first blank line. */
  predicate IsRequest(q: string) { 0 <= Find(q, "\r\n\r\n") == |q| - 4 }

  predicate AreClientReads(es: seq<Event>) {
    forall i :: 0 <= i < |es| ==> es[i].ClientBytes? && es[i].bytes != ""
  }

  function ClientInput(es: seq<Event>): string {
    if es == [] then "" else (if es[0].ClientBytes? then es[0].bytes else "") + ClientInput(es[1..])
  }

  lemma {:induction false} RequestRest(alpha: real, c: Conn, q: string, p: string, es: seq<Event>)
    requires IsRequest(q) && AreClientReads(es) && es != [] && q == p + ClientInput(es)
    ensures Run(alpha, c.(clientMessage := p), es) == HandleRequest(c.(clientMessage := q))
    decreases es
  {
    var e, rest := es[0], ClientInput(es[1..]);
    assert q == (p + e.bytes) + rest;
    FindInPrefix(p + e.bytes, rest, Response.HEADER_END, 0);
    if |es| == 1 {
      assert es[1..] == [] && p + e.bytes == q;
    } else {
      assert es[1..][0].bytes != "";
      RequestRest(alpha, c, q, p + e.bytes, es[1..]);
    }
  }

  /** However a request is split into reads, it is handled exactly once, as a whole. */
  lemma RequestSegmentation(alpha: real, c: Conn, q: string, es: seq<Event>)
    requires IsRequest(q) && AreClientReads(es) && ClientInput(es) == q && c.clientMessage == ""
    ensures Run(alpha, c, es) == HandleRequest(c.(clientMessage := q))
  {
    assert es != [];
    assert "" + q == q;
    assert c.(clientMessage := "") == c;
    RequestRest(alpha, c, q, "", es);
  }

  /** A read that goes beyond the end of a request: all of it is handled as one message. */
  lemma RequestBeyond(alpha: real, c: Conn, q: string, p: string, extra: string, e: Event)
    requires IsRequest(q) && e.ClientBytes? && p + e.bytes == q + extra
    ensures Step(alpha, c.(clientMessage := p), e) == HandleRequest(c.(clientMessage := q + extra))
  {
    FindExtends(q, extra, Response.HEADER_END, 0);
  }
}
