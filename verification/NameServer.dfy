/** The name server: choosing a server, answering one connection, and whole runs of queries. */
module NameServer {
  import opened Text
  import opened Address
  import opened Codec
  import opened Wire
  import Graph
  import RoundRobin
  import Geography

  const VIDEO := "video.cse.umich.edu"

  datatype Mode = RR | GEO

  /** A decoded request: its header, and the name asked for. */
  datatype Request = Request(header: DNSHeader, domain: string)

  /** What the variables of a program hold before they are set, and what stands in memory behind a text
      that it copies from. */
  datatype Memory = Memory(header: DNSHeader, question: DNSQuestion, record: DNSRecord, beyond: Beyond)

  /** What the server makes of the bytes of a connection, with whatever its memory held. It exits on a
      short size, and a size of 256 or more makes it write the terminator behind its buffer. */
  function ReadRequest(bytes: string, mem: Memory): Reading<Request> {
    if |bytes| < PREFIX_SIZE then Exits
    else
      var n := Unprefix(bytes[..PREFIX_SIZE]);
      if n >= MAX_MESSAGE_SIZE then Overruns
      else ReadBody(DecodeHeader(Received(bytes[PREFIX_SIZE..], n), mem.header), Unread(bytes[PREFIX_SIZE..], n), mem)
  }

  /** Two texts whose sizes go before them: the buffer holds sizes up to 255. */
  lemma SizesRead(text: string, question: string, mem: Memory)
    requires |text| < Address.TWO32 && |question| < Address.TWO32
    ensures ReadRequest(Prefix(|text|) + (text + (Prefix(|question|) + question)), mem)
         == if |text| >= 256 || |question| >= 256 then Overruns
            else Read(Request(DecodeHeader(text, mem.header), Name(DecodeQuestion(question, mem.question, mem.beyond).qname)))
  {
    var rest := Prefix(|question|) + question;
    SizeBefore(|text|, text + rest);
    ReceivedExactly(text, rest);
    PrefixRoundTrip(|question|);
    ReceivedExactly(Prefix(|question|), question);
    ReceivedExactly(question, "");
    assert question + "" == question;
  }

  lemma SizeBefore(n: nat, tail: string)
    requires n < Address.TWO32
    ensures var s := Prefix(n) + tail;
      |s| >= PREFIX_SIZE && Unprefix(s[..PREFIX_SIZE]) == n && s[PREFIX_SIZE..] == tail
  {
    PrefixRoundTrip(n);
    assert (Prefix(n) + tail)[..PREFIX_SIZE] == Prefix(n);
  }

  /** A size that is cut short is padded with NULs. */
  function ReadBody(header: DNSHeader, bytes: string, mem: Memory): Reading<Request> {
    var m := Unprefix(Received(bytes, PREFIX_SIZE));
    if m >= MAX_MESSAGE_SIZE then Overruns
    else Read(Request(header, Name(DecodeQuestion(Received(Unread(bytes, PREFIX_SIZE), m), mem.question, mem.beyond).qname)))
  }

  /** The name in a field. Without a terminator the program reads on behind the field, and the name is
      some text of at least 100 characters that starts with it. */
  function Name(f: Field): (name: string)
    ensures CStr(f).None? ==> |name| == FIELD_SIZE > |VIDEO|
  {
    match CStr(f)
    case Some(name) => name
    case None => f
  }

  // ----- replies

  function NotFound(h: DNSHeader): DNSHeader { h.(aa := true, rcode := 3) }

  function AnswerRecord(ip: string): DNSRecord
    requires |ip| < FIELD_SIZE
  {
    DNSRecord(StrCpy(VIDEO), 1, 1, 0, |ip|, StrCpy(ip))
  }

  /** The record as it is sent when its length prefix is accepted up to `k` bytes: a short send makes
      the server exit before the record. */
  function RecordBytes(ip: string, k: nat): string
    requires |ip| < FIELD_SIZE && k <= PREFIX_SIZE
  {
    var record := EncodeRecord(AnswerRecord(ip));
    if k < PREFIX_SIZE then Prefix(|record|)[..k] else Frame(record)
  }

  /** The bytes of a reply when the sends of its length prefixes accept `k1` and `k2` bytes. */
  function ReplyBytes(h: DNSHeader, ip: string, k1: nat, k2: nat): string
    requires |ip| < FIELD_SIZE && k1 <= PREFIX_SIZE && k2 <= PREFIX_SIZE
  {
    if ip == "" then Frame(EncodeHeader(NotFound(h)), k1)
    else Frame(EncodeHeader(h.(aa := true)), k1) + RecordBytes(ip, k2)
  }

  /** A host name that fits a record. */
  predicate IsHost(h: string) { 0 < |h| < FIELD_SIZE && NoNul(h) }

  lemma UintIpIsHost(x: uint32)
    ensures IsHost(UintIp(x))
  {
    var a, b, c, d := x / 0x100_0000, x / 0x1_0000 % 256, x / 0x100 % 256, x % 256;
    OctetText(a);
    OctetText(b);
    OctetText(c);
    OctetText(d);
  }

  lemma OctetText(x: int)
    requires IsOctet(x)
    ensures |Print(x)| <= 3 && NoNul(Print(x))
  {
    assert Pow10(2) == 100 && Pow10(3) == 1000;
    PrintNatLength(x, 3);
    var s := PrintNat(x);
    assert forall i :: 0 <= i < |s| ==> IsDigit(s[i]);
  }

  // ----- what a reply says

  /** However it is decoded, the header is that of the query with AA set, and RCODE 3 if there is no record. */
  ghost predicate IsReplyHeader(query: DNSHeader, found: bool, text: string) {
    forall local :: DecodeHeader(text, local) == query.(aa := true, rcode := if found then query.rcode else 3)
  }

  /** However it is decoded, the record has type 1, class 1, time to live 0, the length of the address, the video
      name, and the address. */
  ghost predicate IsReplyRecord(ip: string, text: string) {
    forall local, beyond :: var r := DecodeRecord(text, local, beyond);
      && r.kind == 1 && r.class_ == 1 && r.ttl == 0 && r.rdlength == |ip|
      && CStr(r.name) == Some("video.cse.umich.edu") && CStr(r.rdata) == Some(ip)
  }

  ghost predicate ConsistsOf(query: DNSHeader, ip: string, k1: nat, k2: nat, sent: string, header: string, record: string)
    requires k1 <= PREFIX_SIZE && k2 <= PREFIX_SIZE
  {
    && IsReplyHeader(query, ip != "", header) && (ip != "" ==> IsReplyRecord(ip, record))
    && sent == Prefix(|header|)[..k1] + header
       + if ip == "" then "" else Prefix(|record|)[..k2] + if k2 < PREFIX_SIZE then "" else record
  }

  /** The bytes are a reply to the query: a header, and a record if there is an address, each behind what was
      accepted of its length prefix. */
  ghost predicate IsReplyTo(query: DNSHeader, ip: string, k1: nat, k2: nat, sent: string)
    requires k1 <= PREFIX_SIZE && k2 <= PREFIX_SIZE
  {
    exists header, record :: ConsistsOf(query, ip, k1, k2, sent, header, record)
  }

  lemma HeaderMeans(query: DNSHeader, found: bool)
    ensures IsReplyHeader(query, found, EncodeHeader(if found then query.(aa := true) else NotFound(query)))
  {
    var h := if found then query.(aa := true) else NotFound(query);
    forall local
      ensures DecodeHeader(EncodeHeader(h), local) == h
    {
      HeaderRoundTrip(h, local);
    }
  }

  lemma RecordMeans(ip: string)
    requires IsHost(ip)
    ensures IsReplyRecord(ip, EncodeRecord(AnswerRecord(ip)))
  {
    forall local, beyond
      ensures DecodeRecord(EncodeRecord(AnswerRecord(ip)), local, beyond) == AnswerRecord(ip)
    {
      RecordRoundTrip(AnswerRecord(ip), local, beyond);
    }
    FieldRoundTrip("video.cse.umich.edu");
    FieldRoundTrip(ip);
  }

  lemma ReplyMeans(query: DNSHeader, ip: string, k1: nat, k2: nat)
    requires (ip == "" || IsHost(ip)) && k1 <= PREFIX_SIZE && k2 <= PREFIX_SIZE
    ensures IsReplyTo(query, ip, k1, k2, ReplyBytes(query, ip, k1, k2))
  {
    HeaderMeans(query, ip != "");
    if ip == "" {
      var header := EncodeHeader(NotFound(query));
      assert Prefix(|header|)[..k1] + header + "" == Prefix(|header|)[..k1] + header;
      assert ConsistsOf(query, ip, k1, k2, ReplyBytes(query, ip, k1, k2), header, "");
    } else {
      RecordMeans(ip);
      var header, record := EncodeHeader(query.(aa := true)), EncodeRecord(AnswerRecord(ip));
      assert RecordBytes(ip, k2) == Prefix(|record|)[..k2] + if k2 < PREFIX_SIZE then "" else record;
      assert ConsistsOf(query, ip, k1, k2, ReplyBytes(query, ip, k1, k2), header, record);
    }
  }

  datatype Query = Query(domain: string, clientIP: string)

  /** The number of queries for the video name. */
  function VideoQueries(qs: seq<Query>): nat {
    if qs == [] then 0
    else VideoQueries(qs[..|qs| - 1]) + if qs[|qs| - 1].domain == "video.cse.umich.edu" then 1 else 0
  }

  /** The list position that serves the i-th query, when the first one to be served uses `start`. */
  function SlotAt(start: nat, n: nat, qs: seq<Query>, i: nat): nat
    requires i <= |qs|
  {
    RoundRobin.AfterMany(start, n, VideoQueries(qs[..i]))
  }

  /** The k-th query for the video name, counting from 0, gets position `start + k` modulo the number
      of hosts, however many other names are asked in between. */
  lemma SlotIsMod(start: nat, n: nat, qs: seq<Query>, i: nat)
    requires start < n && i <= |qs|
    ensures SlotAt(start, n, qs, i) == (start + VideoQueries(qs[..i])) % n
  {
    RoundRobin.AfterManyIsMod(start, n, VideoQueries(qs[..i]));
  }

  lemma SlotNext(start: nat, n: nat, qs: seq<Query>, i: nat)
    requires start < n && i < |qs|
    ensures SlotAt(start, n, qs, i) < n
    ensures SlotAt(start, n, qs, i + 1)
      == if qs[i].domain == "video.cse.umich.edu" then RoundRobin.After(SlotAt(start, n, qs, i), n) else SlotAt(start, n, qs, i)
  {
    assert qs[..i + 1][..i] == qs[..i];
    RoundRobin.AfterManyNext(start, n, VideoQueries(qs[..i]));
    RoundRobin.AfterManyBound(start, n, VideoQueries(qs[..i]));
  }

  /** The positions used by the queries for the video name, in order. */
  function Slots(start: nat, n: nat, qs: seq<Query>): seq<nat> {
    if qs == [] then []
    else
      var init := qs[..|qs| - 1];
      Slots(start, n, init) + if qs[|qs| - 1].domain == "video.cse.umich.edu" then [SlotAt(start, n, qs, |init|)] else []
  }

  lemma {:induction false} SlotsArePositions(start: nat, n: nat, qs: seq<Query>)
    ensures Slots(start, n, qs) == RoundRobin.Positions(start, n, VideoQueries(qs))
  {
    if qs != [] {
      var init := qs[..|qs| - 1];
      SlotsArePositions(start, n, init);
      RoundRobin.PositionsNext(start, n, VideoQueries(init));
    }
  }

  /** Fairness over every run of queries, with other names asked anywhere in between: any window of
      queries for the video name uses two positions equally often, give or take one, and any window of
      as many queries as there are hosts uses each position exactly once. */
  lemma RunIsFair(start: nat, n: nat, qs: seq<Query>, a: nat, b: nat, p: nat, q: nat)
    requires start < n && p < n && q < n && a <= b <= |Slots(start, n, qs)|
    ensures RoundRobin.Uses(Slots(start, n, qs)[a..b], p) <= RoundRobin.Uses(Slots(start, n, qs)[a..b], q) + 1
    ensures b - a == n ==> RoundRobin.Uses(Slots(start, n, qs)[a..b], p) == 1
  {
    SlotsArePositions(start, n, qs);
    RoundRobin.RoundRobinFair(start, n, VideoQueries(qs), a, b, p, q);
  }

  /** The answer to the i-th query of a run in round-robin mode. */
  ghost predicate IsRoundRobinAnswer(hosts: seq<string>, start: nat, qs: seq<Query>, i: nat, answer: string)
    requires i < |qs|
  {
    if qs[i].domain != "video.cse.umich.edu" then answer == ""
    else SlotAt(start, |hosts|, qs, i) < |hosts| && answer == hosts[SlotAt(start, |hosts|, qs, i)]
  }

  ghost predicate AreRoundRobinAnswers(hosts: seq<string>, start: nat, qs: seq<Query>, answers: seq<string>) {
    |answers| <= |qs| && forall i :: 0 <= i < |answers| ==> IsRoundRobinAnswer(hosts, start, qs, i, answers[i])
  }

  lemma OneMoreRoundRobin(hosts: seq<string>, start: nat, qs: seq<Query>, answers: seq<string>, answer: string)
    requires AreRoundRobinAnswers(hosts, start, qs, answers) && |answers| < |qs|
    requires IsRoundRobinAnswer(hosts, start, qs, |answers|, answer)
    ensures AreRoundRobinAnswers(hosts, start, qs, answers + [answer])
  {
  }

  ghost predicate AreGeographicAnswers(g: Graph.Network, ipMap: Geography.IpMap, qs: seq<Query>, answers: seq<string>) {
    |answers| <= |qs| && forall i :: 0 <= i < |answers| ==> answers[i] == GeographicAnswer(g, ipMap, qs[i])
  }

  lemma OneMoreGeographic(g: Graph.Network, ipMap: Geography.IpMap, qs: seq<Query>, answers: seq<string>, answer: string)
    requires AreGeographicAnswers(g, ipMap, qs, answers) && |answers| < |qs|
    requires answer == GeographicAnswer(g, ipMap, qs[|answers|])
    ensures AreGeographicAnswers(g, ipMap, qs, answers + [answer])
  {
  }

  ghost function GeographicAnswer(g: Graph.Network, ipMap: Geography.IpMap, q: Query): string {
    if q.domain != "video.cse.umich.edu" then "" else Geography.Reply(g, ipMap, q.clientIP)
  }

  class Server {
    const mode: Mode
    const rr: RoundRobin.RoundRobin
    const geo: Geography.Geography

    ghost predicate Valid()
      reads this, rr, geo
    {
      && (mode == RR ==> rr.Valid() && forall h :: h in rr.hosts ==> IsHost(h))
      && (mode == GEO ==> geo.Valid())
    }

    constructor (mode: Mode, rr: RoundRobin.RoundRobin, geo: Geography.Geography)
      ensures this.mode == mode && this.rr == rr && this.geo == geo
    {
      this.mode, this.rr, this.geo := mode, rr, geo;
    }

    /** The address the selected policy gives a client. */
    ghost function Choice(clientIP: string): string
      requires Valid()
      reads this, rr, geo
    {
      match mode
      case RR => rr.hosts[rr.index]
      case GEO => Geography.Reply(geo.loaded, geo.ipMap, clientIP)
    }

    /** The answer to a query: nothing unless it asks for the video name. */
    ghost function Answer(q: Query): string
      requires Valid()
      reads this, rr, geo
    {
      if q.domain == VIDEO then Choice(q.clientIP) else ""
    }

    lemma AnswerFits(q: Query)
      requires Valid()
      ensures Answer(q) == "" || IsHost(Answer(q))
    {
      if mode == GEO {
        var found := Geography.Found(geo.loaded, geo.ipMap, IpUint(q.clientIP));
        if found.Some? {
          UintIpIsHost(found.value);
        }
      }
    }

    method SelectServer(clientIP: string) returns (ip: string)
      requires Valid()
      modifies rr, geo
      ensures Valid() && ip == old(Choice(clientIP))
      ensures rr.hosts == old(rr.hosts) && geo.loaded == old(geo.loaded) && geo.ipMap == old(geo.ipMap)
      ensures mode == RR ==> rr.index == RoundRobin.After(old(rr.index), |rr.hosts|)
    {
      match mode
      case RR => ip := rr.Next();
      case GEO => ip := geo.FindServer(clientIP);
    }

    /** What a decoded query is answered with. Only a query for the video name consumes a slot. */
    method Resolve(q: Query) returns (ip: string)
      requires Valid()
      modifies rr, geo
      ensures Valid() && ip == old(Answer(q))
      ensures ip == if q.domain == "video.cse.umich.edu" then old(Choice(q.clientIP)) else ""
      ensures rr.hosts == old(rr.hosts) && geo.loaded == old(geo.loaded) && geo.ipMap == old(geo.ipMap)
      ensures mode == RR ==>
        rr.index == if q.domain == "video.cse.umich.edu" then RoundRobin.After(old(rr.index), |rr.hosts|) else old(rr.index)
    {
      if q.domain != VIDEO {
        return "";
      }
      ip := SelectServer(q.clientIP);
    }

    /** Every answer of a run of queries: in round-robin mode the host at the position of the query,
        in geographic mode the answer of the search on the network as loaded. */
    method RunServer(queries: seq<Query>) returns (answers: seq<string>)
      requires Valid()
      modifies rr, geo
      ensures Valid() && |answers| == |queries|
      ensures mode == RR ==> rr.hosts == old(rr.hosts) && AreRoundRobinAnswers(rr.hosts, old(rr.index), queries, answers)
      ensures mode == GEO ==> AreGeographicAnswers(old(geo.loaded), old(geo.ipMap), queries, answers)
    {
      answers := [];
      ghost var start := rr.index;
      for i := 0 to |queries|
        invariant Valid() && |answers| == i
        invariant rr.hosts == old(rr.hosts) && geo.loaded == old(geo.loaded) && geo.ipMap == old(geo.ipMap)
        invariant mode == RR ==> rr.index == SlotAt(start, |rr.hosts|, queries, i)
        invariant mode == RR ==> AreRoundRobinAnswers(rr.hosts, start, queries, answers)
        invariant mode == GEO ==> AreGeographicAnswers(geo.loaded, geo.ipMap, queries, answers)
      {
        ghost var before := answers;
        if mode == RR {
          SlotNext(start, |rr.hosts|, queries, i);
        }
        var ip := Resolve(queries[i]);
        if mode == RR {
          OneMoreRoundRobin(rr.hosts, start, queries, before, ip);
        } else {
          OneMoreGeographic(geo.loaded, geo.ipMap, queries, before, ip);
        }
        answers := answers + [ip];
      }
    }

    /** One connection: reads the request from `up` and, if it can be read, writes the reply to `down`.
        `k1` and `k2` are the numbers of bytes that the sends of the length prefixes accepted. */
    method HandleConnection(up: Pipe, down: Pipe, clientIP: string, mem: Memory)
      returns (request: Reading<Request>, ip: string, k1: nat, k2: nat)
      requires Valid() && up != down
      modifies rr, geo, up, down
      ensures Valid() && request == old(ReadRequest(up.bytes, mem)) && up.sent == old(up.sent)
      ensures ip == if request.Read? then old(Answer(Query(request.value.domain, clientIP))) else ""
      ensures ip == if request.Read? && request.value.domain == "video.cse.umich.edu" then old(Choice(clientIP)) else ""
      ensures (ip == "" || IsHost(ip)) && 0 < k1 <= PREFIX_SIZE && 0 < k2 <= PREFIX_SIZE
      ensures down.bytes == old(down.bytes) + Replied(request, ip, k1, k2)
      ensures down.sent == old(down.sent) + Replied(request, ip, k1, k2)
      ensures if request.Read? then IsReplyTo(request.value.header, ip, k1, k2, down.sent[|old(down.sent)|..])
              else down.sent == old(down.sent)
      ensures rr.hosts == old(rr.hosts) && geo.loaded == old(geo.loaded) && geo.ipMap == old(geo.ipMap)
      ensures mode == RR ==> rr.index == if request.Read? && request.value.domain == "video.cse.umich.edu"
                                         then RoundRobin.After(old(rr.index), |rr.hosts|) else old(rr.index)
    {
      request := ReceiveQuery(up, mem);
      ip, k1, k2 := "", PREFIX_SIZE, PREFIX_SIZE;
      if request.Read? {
        AnswerFits(Query(request.value.domain, clientIP));
        ip := Resolve(Query(request.value.domain, clientIP));
        k1, k2 := SendReply(down, request.value.header, request.value.domain, ip);
        ReplyMeans(request.value.header, ip, k1, k2);
      }
    }
  }

  /** The bytes that leave the server on a connection. */
  function Replied(request: Reading<Request>, ip: string, k1: nat, k2: nat): string
    requires |ip| < FIELD_SIZE && k1 <= PREFIX_SIZE && k2 <= PREFIX_SIZE
  {
    if request.Read? then ReplyBytes(request.value.header, ip, k1, k2) else ""
  }

  method ReceiveQuery(up: Pipe, mem: Memory) returns (request: Reading<Request>)
    modifies up
    ensures request == old(ReadRequest(up.bytes, mem)) && up.sent == old(up.sent)
  {
    var size := up.Recv(PREFIX_SIZE);
    if |size| != PREFIX_SIZE {
      return Exits;
    }
    if Unprefix(size) >= MAX_MESSAGE_SIZE {
      return Overruns;
    }
    var text := ReceiveAll(up, Unprefix(size), Unprefix(size) + 1);
    var header := DecodeHeader(text, mem.header);
    size := ReceiveAll(up, PREFIX_SIZE, PREFIX_SIZE);
    if Unprefix(size) >= MAX_MESSAGE_SIZE {
      return Overruns;
    }
    text := ReceiveAll(up, Unprefix(size), Unprefix(size) + 1);
    var question := DecodeQuestion(text, mem.question, mem.beyond);
    request := Read(Request(header, Name(question.qname)));
  }

  /** A length prefix, offered once, and the whole text after it. */
  method SendFrame(down: Pipe, text: string) returns (k: nat)
    modifies down
    ensures 0 < k <= PREFIX_SIZE
    ensures down.bytes == old(down.bytes) + Frame(text, k) && down.sent == old(down.sent) + Frame(text, k)
  {
    k := down.Send(Prefix(|text|));
    SendAtLeastOnce(down, text);
    Concat3(old(down.bytes), Prefix(|text|)[..k], text);
    Concat3(old(down.sent), Prefix(|text|)[..k], text);
  }

  /** The record's length prefix must be accepted whole; otherwise the server exits. */
  method SendRecord(down: Pipe, ip: string, domain: string) returns (k: nat)
    requires |ip| < FIELD_SIZE && domain == VIDEO
    modifies down
    ensures 0 < k <= PREFIX_SIZE
    ensures down.bytes == old(down.bytes) + RecordBytes(ip, k) && down.sent == old(down.sent) + RecordBytes(ip, k)
  {
    var record := EncodeRecord(DNSRecord(StrCpy(domain), 1, 1, 0, |ip|, StrCpy(ip)));
    k := down.Send(Prefix(|record|));
    if k == PREFIX_SIZE {
      SendAtLeastOnce(down, record);
      Concat3(old(down.bytes), Prefix(|record|)[..k], record);
      Concat3(old(down.sent), Prefix(|record|)[..k], record);
    }
  }

  method SendReply(down: Pipe, query: DNSHeader, domain: string, ip: string) returns (k1: nat, k2: nat)
    requires |ip| < FIELD_SIZE && (ip != "" ==> domain == VIDEO)
    modifies down
    ensures 0 < k1 <= PREFIX_SIZE && 0 < k2 <= PREFIX_SIZE
    ensures down.bytes == old(down.bytes) + ReplyBytes(query, ip, k1, k2)
    ensures down.sent == old(down.sent) + ReplyBytes(query, ip, k1, k2)
  {
    var header := query.(aa := true);
    if ip == "" {
      header := header.(rcode := 3);
      k1 := SendFrame(down, EncodeHeader(header));
      k2 := PREFIX_SIZE;
    } else {
      k1 := SendFrame(down, EncodeHeader(header));
      k2 := SendRecord(down, ip, domain);
      Concat3(old(down.bytes), Frame(EncodeHeader(header), k1), RecordBytes(ip, k2));
      Concat3(old(down.sent), Frame(EncodeHeader(header), k1), RecordBytes(ip, k2));
    }
  }
}
