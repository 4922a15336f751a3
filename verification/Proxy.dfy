/** The adaptive proxy, for one client connection: what every read from the client and from the
    server does to the connection, on values and as a class. */
module Proxy {
  import opened Text
  import opened ProxyRules
  import Response
  import Chunk
  import Manifest
  import Bitrate

  const BUFFER_SIZE := 1024
  const VIDEO_NAME := "big_buck_bunny.f4m"
  const VIDEO_NAME_NEW := "big_buck_bunny_nolist.f4m"
  const TEXT_XML := "Content-Type: text/xml"
  const VIDEO_F4F := "Content-Type: video/f4f"

  /** What a message ends as: sent to the server, forwarded to the client, or swallowed by the proxy. */
  datatype Action = ToServer(bytes: string) | ToClient(bytes: string) | Swallow(bytes: string)

  /** The state of a connection, with the history of its messages. */
  datatype Conn = Conn(
    clientMessage: string, serverMessage: string, serverMessageLen: nat, connected: bool, connStart: real,
    throughput: real, bitrates: seq<int>, noListMessage: string, chunkname: string, bitrate: int,
    wire: seq<Action>)

  /** The next state, or an uncaught exception (or an access outside a list) that ends the program. */
  datatype Outcome = Next(c: Conn) | Stopped

  // ----- requests

  /** The request for the manifest without a list. */
  function NoList(msg: string): string
    requires Contains(msg, VIDEO_NAME)
  {
    var pos := Find(msg, VIDEO_NAME);
    msg[..pos] + VIDEO_NAME_NEW + msg[pos + |VIDEO_NAME|..]
  }

  lemma NoListIsNext(msg: string)
    requires Contains(msg, VIDEO_NAME)
    ensures NoList(msg) == NextRequest(msg)
  {
  }

  function SaveNoList(c: Conn): Conn {
    if Contains(c.clientMessage, VIDEO_NAME) then c.(noListMessage := NoList(c.clientMessage)) else c
  }

  /** The request rewritten to a bitrate. */
  function WithBitrate(c: Conn, p: Chunk.Place, b: int): Conn
    requires -1 <= p.slash < |c.clientMessage| && 0 <= p.seg < |c.clientMessage|
  {
    var msg := Chunk.Rewritten(c.clientMessage, p, b);
    c.(bitrate := b, clientMessage := msg, chunkname := Chunk.ChunkName(msg, p.slash))
  }

  lemma BitrateOverwritten(c: Conn, b: int, p: Chunk.Place)
    requires -1 <= p.slash < |c.clientMessage| && 0 <= p.seg < |c.clientMessage|
    ensures WithBitrate(c.(bitrate := b), p, b) == WithBitrate(c, p, b)
  {
  }

  /** `parse_bitrate`; None when a chunk is requested before any bitrate is known. */
  function ParseBitrate(c: Conn): Option<Conn> {
    match Chunk.Locate(c.clientMessage)
    case None => Some(c)
    case Some(p) =>
      if c.bitrates == [] then None else Some(WithBitrate(c, p, Bitrate.Choose(c.bitrates, c.throughput)))
  }

  function HandleRequest(c: Conn): Outcome {
    match ParseBitrate(SaveNoList(c.(connected := true)))
    case None => Stopped
    case Some(r) => Next(r.(clientMessage := "", wire := r.wire + [ToServer(r.clientMessage)]))
  }

  function OnClientBytes(c: Conn, bytes: string): Outcome {
    var r := c.(clientMessage := c.clientMessage + bytes);
    if Contains(r.clientMessage, Response.HEADER_END) then HandleRequest(r) else Next(r)
  }

  // ----- responses

  predicate IsVideo(msg: string) {
    var ct, end := Find(msg, VIDEO_F4F), Find(msg, Response.HEADER_END);
    ct != -1 && end != -1 && ct <= end
  }

  /** Kilobits per second. */
  function Sample(length: nat, elapsed: real): real
    requires elapsed > 0.0
  {
    length as real / elapsed * 8.0 / 1000.0
  }

  lemma SampleIsRate(length: nat, elapsed: real)
    requires elapsed > 0.0
    ensures Sample(length, elapsed) == Rate(length, elapsed)
  {
  }

  /** `Content-Type: video/f4f` cannot lie across the end of the header. */
  lemma IsVideoExactly(msg: string)
    ensures IsVideo(msg) <==> CarriesVideo(msg)
  {
    var ct, end := Find(msg, VIDEO_F4F), Find(msg, Response.HEADER_END);
    if end != -1 {
      VideoInHeader(msg, VIDEO_F4F, end);
      AtChar(msg, Response.HEADER_END, end, 0);
      if ct != -1 && ct <= end < ct + |VIDEO_F4F| {
        AtChar(msg, VIDEO_F4F, ct, end - ct);
        LacksReturn(VIDEO_F4F, end - ct);
      }
    }
  }

  lemma LacksReturn(s: string, k: nat)
    requires s == VIDEO_F4F && k < |s|
    ensures s[k] != '\r'
  {
  }

  lemma VideoInHeader(msg: string, pat: string, end: nat)
    requires end <= |msg|
    ensures Contains(msg[..end], pat) <==> 0 <= Find(msg, pat) && Find(msg, pat) + |pat| <= end
  {
    assert msg == msg[..end] + msg[end..];
    if Find(msg, pat) != -1 {
      FindInPrefix(msg[..end], msg[end..], pat, 0);
    } else if Contains(msg[..end], pat) {
      FindExtends(msg[..end], msg[end..], pat, 0);
    }
  }

  /** `update_throughput`; None when the clock has not moved. */
  function UpdateThroughput(alpha: real, c: Conn, now: real): Option<Conn> {
    if !IsVideo(c.serverMessage) then Some(c)
    else if now <= c.connStart then None
    else Some(c.(throughput := Bitrate.Average(alpha, c.throughput, Sample(c.serverMessageLen, now - c.connStart))))
  }

  lemma NotMeasured(alpha: real, c: Conn, now: real)
    requires !CarriesVideo(c.serverMessage)
    ensures UpdateThroughput(alpha, c, now) == Some(c)
  {
    IsVideoExactly(c.serverMessage);
  }

  lemma IsMeasured(alpha: real, c: Conn, now: real)
    requires CarriesVideo(c.serverMessage) && c.connStart < now
    ensures UpdateThroughput(alpha, c, now)
         == Some(c.(throughput := Bitrate.Average(alpha, c.throughput, Rate(c.serverMessageLen, now - c.connStart))))
  {
    IsVideoExactly(c.serverMessage);
    SampleIsRate(c.serverMessageLen, now - c.connStart);
  }

  lemma ThroughputIs(alpha: real, c: Conn, now: real)
    requires CarriesVideo(c.serverMessage) ==> c.connStart < now
    ensures UpdateThroughput(alpha, c, now)
         == Some(c.(throughput := Measured(alpha, c.throughput, c.serverMessage, c.serverMessageLen, now - c.connStart)))
  {
    if CarriesVideo(c.serverMessage) {
      IsMeasured(alpha, c, now);
    } else {
      NotMeasured(alpha, c, now);
      assert c.(throughput := c.throughput) == c;
    }
  }

  /** `parse_xml`; None when it throws, or when no bitrate is known in the end. */
  function ParseXml(c: Conn): Option<Conn> {
    if !Contains(c.serverMessage, TEXT_XML) then None
    else match Manifest.ParseAttributes(c.serverMessage)
      case None => None
      case Some(r) =>
        var list := Bitrate.Sort(c.bitrates + r.1);
        if list == [] then None
        else Some(c.(serverMessage := r.0, bitrates := list, throughput := list[0] as real * 1.5))
  }

  function HandleResponse(alpha: real, c: Conn, now: real): Outcome {
    if c.noListMessage != "" then
      match ParseXml(c)
      case None => Stopped
      case Some(r) => Next(r.(noListMessage := "", serverMessage := "", serverMessageLen := 0,
                              wire := c.wire + [Swallow(c.serverMessage), ToServer(c.noListMessage)]))
    else
      match UpdateThroughput(alpha, c, now)
      case None => Stopped
      case Some(r) => Next(r.(serverMessage := "", serverMessageLen := 0, wire := c.wire + [ToClient(c.serverMessage)]))
  }

  /** A read from the server, up to the moment its message may be complete. */
  datatype Arrival = Waiting(c: Conn) | Complete(c: Conn) | Failed

  function Receive(c: Conn, bytes: string, before: real): Arrival {
    var start := if c.serverMessage == "" then before else c.connStart;
    var r := c.(connStart := start, serverMessage := c.serverMessage + bytes);
    if bytes == "" then Waiting(r.(connected := false))
    else match if c.serverMessageLen == 0 then Response.ParseHeader(r.serverMessage) else Response.Length(c.serverMessageLen)
      case Incomplete => Waiting(r)
      case BadNumber => Failed
      case Length(n) =>
        var s := r.(serverMessageLen := n);
        if |s.serverMessage| < n then Waiting(s) else Complete(s)
  }

  /** A read from the server: the clock is taken before it when a message starts, and again when the
      message is complete. No bytes at all means that the server disconnected. */
  function OnServerBytes(alpha: real, c: Conn, bytes: string, before: real, now: real): Outcome {
    match Receive(c, bytes, before)
    case Waiting(r) => Next(r)
    case Failed => Stopped
    case Complete(r) => HandleResponse(alpha, r, now)
  }

  // ----- the connection as the program keeps it

  class Connection {
    const alpha: real
    var clientMessage: string
    var serverMessage: string
    var serverMessageLen: nat
    var connected: bool
    var connStart: real
    var throughput: real
    var bitrates: seq<int>
    var noListMessage: string
    var chunkname: string
    var bitrate: int
    var wire: seq<Action>

    function State(): Conn
      reads this
    {
      Conn(clientMessage, serverMessage, serverMessageLen, connected, connStart, throughput, bitrates,
           noListMessage, chunkname, bitrate, wire)
    }

    /** `clients[ip] = {}` */
    constructor (alpha: real)
      ensures this.alpha == alpha && State() == Conn("", "", 0, false, 0.0, 0.0, [], "", "", 0, [])
    {
      this.alpha := alpha;
      clientMessage, serverMessage, serverMessageLen := "", "", 0;
      connected, connStart, throughput, bitrates := false, 0.0, 0.0, [];
      noListMessage, chunkname, bitrate, wire := "", "", 0, [];
    }

    method HandleClientRead(bytes: string) returns (ok: bool)
      requires 0 < |bytes| <= BUFFER_SIZE
      modifies this
      ensures ok <==> OnClientBytes(old(State()), bytes).Next?
      ensures ok ==> State() == OnClientBytes(old(State()), bytes).c
    {
      clientMessage := clientMessage + bytes;
      ok := true;
      if Contains(clientMessage, Response.HEADER_END) {
        ok := HandleRequestMessage();
      }
    }

    method HandleRequestMessage() returns (ok: bool)
      modifies this
      ensures ok <==> HandleRequest(old(State())).Next?
      ensures ok ==> State() == HandleRequest(old(State())).c
      ensures ok ==> connected && clientMessage == ""
      ensures ok ==> noListMessage == if Contains(old(clientMessage), "big_buck_bunny.f4m") then NextRequest(old(clientMessage))
                                      else old(noListMessage)
    {
      connected := true;
      SaveManifestRequest();
      ok := ChooseBitrate();
      if ok {
        wire := wire + [ToServer(clientMessage)];
        clientMessage := "";
      }
    }

    method SaveManifestRequest()
      modifies this`noListMessage
      ensures State() == SaveNoList(old(State()))
      ensures noListMessage == if Contains(clientMessage, "big_buck_bunny.f4m") then NextRequest(clientMessage)
                               else old(noListMessage)
    {
      var pos := Find(clientMessage, VIDEO_NAME);
      if pos != -1 {
        noListMessage := clientMessage;
        noListMessage := noListMessage[..pos] + VIDEO_NAME_NEW + noListMessage[pos + |VIDEO_NAME|..];
        NoListIsNext(clientMessage);
      }
    }

    /** The loop that takes bitrates up to the cap and stops at the first one above it. */
    method PickBitrate(cap: real)
      requires bitrates != []
      modifies this`bitrate
      ensures bitrate == Bitrate.Pick(bitrates, cap, bitrates[0])
    {
      bitrate := bitrates[0];
      var i := 0;
      while i < |bitrates|
        invariant i <= |bitrates|
        invariant Bitrate.Pick(bitrates, cap, bitrates[0]) == Bitrate.Pick(bitrates[i..], cap, bitrate)
      {
        if bitrates[i] as real <= cap {
          bitrate := bitrates[i];
        } else {
          break;
        }
        i := i + 1;
      }
    }

    /** `parse_bitrate` */
    method ChooseBitrate() returns (ok: bool)
      modifies this`bitrate, this`clientMessage, this`chunkname
      ensures ok <==> ParseBitrate(old(State())).Some?
      ensures ok ==> State() == ParseBitrate(old(State())).value
    {
      var place := Chunk.Locate(clientMessage);
      if place.None? {
        return true;
      }
      if bitrates == [] {
        return false;
      }
      ApplyBitrate(place.value);
      ok := true;
    }

    method ApplyBitrate(p: Chunk.Place)
      requires -1 <= p.slash < |clientMessage| && 0 <= p.seg < |clientMessage| && bitrates != []
      modifies this`bitrate, this`clientMessage, this`chunkname
      ensures State() == WithBitrate(old(State()), p, Bitrate.Choose(old(State()).bitrates, old(State()).throughput))
    {
      ghost var c := State();
      PickBitrate(throughput / 1.5);
      assert bitrate == Bitrate.Choose(c.bitrates, c.throughput) && State() == c.(bitrate := bitrate);
      BitrateOverwritten(c, bitrate, p);
      RewriteRequest(p);
    }

    method RewriteRequest(p: Chunk.Place)
      requires -1 <= p.slash < |clientMessage| && 0 <= p.seg < |clientMessage|
      modifies this`clientMessage, this`chunkname
      ensures State() == WithBitrate(old(State()), p, bitrate)
    {
      clientMessage := Chunk.Rewritten(clientMessage, p, bitrate);
      chunkname := Chunk.ChunkName(clientMessage, p.slash);
    }

    /** The clock must have moved since the message started. */
    method HandleServerRead(bytes: string, before: real, now: real) returns (ok: bool)
      requires |bytes| <= BUFFER_SIZE && before < now && (serverMessage != "" ==> connStart < now)
      modifies this
      ensures ok <==> OnServerBytes(alpha, old(State()), bytes, before, now).Next?
      ensures ok ==> State() == OnServerBytes(alpha, old(State()), bytes, before, now).c
    {
      if serverMessage == "" {
        connStart := before;
      }
      if bytes == "" {
        connected := false;
        assert serverMessage + "" == serverMessage;
        return true;
      }
      serverMessage := serverMessage + bytes;
      if serverMessageLen == 0 {
        match Response.ParseHeader(serverMessage)
        case Incomplete => return true;
        case BadNumber => return false;
        case Length(n) => serverMessageLen := n;
      }
      if |serverMessage| < serverMessageLen {
        return true;
      }
      ok := HandleResponseMessage(now);
    }

    method HandleResponseMessage(now: real) returns (ok: bool)
      requires connStart < now
      modifies this
      ensures ok <==> HandleResponse(alpha, old(State()), now).Next?
      ensures ok ==> State() == HandleResponse(alpha, old(State()), now).c
    {
      if noListMessage != "" {
        var manifest := serverMessage;
        ok := ReadManifest();
        if !ok {
          return;
        }
        wire := wire + [Swallow(manifest), ToServer(noListMessage)];
        noListMessage := "";
      } else {
        MeasureThroughput(now);
        wire := wire + [ToClient(serverMessage)];
        ok := true;
      }
      serverMessage := "";
      serverMessageLen := 0;
    }

    method MeasureThroughput(now: real)
      requires connStart < now
      modifies this`throughput
      ensures UpdateThroughput(alpha, old(State()), now) == Some(State())
      ensures throughput == Measured(alpha, old(throughput), serverMessage, serverMessageLen, now - connStart)
    {
      ThroughputIs(alpha, State(), now);
      var ct, end := Find(serverMessage, VIDEO_F4F), Find(serverMessage, Response.HEADER_END);
      if ct == -1 || end == -1 || ct > end {
        return;
      }
      throughput := Bitrate.Average(alpha, throughput, Sample(serverMessageLen, now - connStart));
    }

    /** `parse_xml` */
    method ReadManifest() returns (ok: bool)
      modifies this`serverMessage, this`bitrates, this`throughput
      ensures ok <==> ParseXml(old(State())).Some?
      ensures ok ==> State() == ParseXml(old(State())).value
    {
      if !Contains(serverMessage, TEXT_XML) {
        return false;
      }
      ok := ReadAttributes();
      if !ok {
        return;
      }
      bitrates := Bitrate.Sort(bitrates);
      if bitrates == [] {
        return false;
      }
      throughput := bitrates[0] as real * 1.5;
    }

    /** The loop that finds one attribute at a time, keeps its bitrate and erases it. */
    method ReadAttributes() returns (ok: bool)
      modifies this`serverMessage, this`bitrates
      ensures ok <==> Manifest.ParseAttributes(old(serverMessage)).Some?
      ensures ok ==> var r := Manifest.ParseAttributes(old(serverMessage)).value;
        serverMessage == r.0 && bitrates == old(bitrates) + r.1
    {
      ghost var found: seq<int> := [];
      var cut := Manifest.CutFirst(serverMessage);
      Manifest.PrependAllStep([], 0, Manifest.ParseAttributes(serverMessage));
      while cut != Manifest.NoKey
        invariant cut == Manifest.CutFirst(serverMessage)
        invariant bitrates == old(bitrates) + found
        invariant Manifest.ParseAttributes(old(serverMessage))
               == Manifest.PrependAll(found, Manifest.ParseAttributes(serverMessage))
        decreases |serverMessage|
      {
        if cut.Unclosed? {
          return false;
        }
        var b := StoI(cut.value);
        if b.None? {
          return false;
        }
        Manifest.PrependAllStep(found, b.value, Manifest.ParseAttributes(cut.rest));
        bitrates := bitrates + [b.value];
        serverMessage := cut.rest;
        found := found + [b.value];
        cut := Manifest.CutFirst(serverMessage);
      }
      Manifest.PrependAllEnd(found, serverMessage);
      ok := true;
    }
  }
}
