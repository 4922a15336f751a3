/** The DNS exchange: the proxy's request, the name server's reply, and what the proxy gets back. */
module Exchange {
  import opened Text
  import opened Codec
  import opened Wire
  import opened NameServer
  import Address

  // ----- the proxy's side

  /** `make_dns_Header` and `make_dns_Question`. */
  const REQUEST_HEADER := DNSHeader(1, false, 1, false, false, false, false, 0, 0, 1, 0, 0, 0)

  const REQUEST_QUESTION := DNSQuestion(StrCpy(VIDEO), 1, 1)

  /** The bytes of a request when the sends of its length prefixes accept `k1` and `k2` bytes. */
  function RequestBytes(h: DNSHeader, q: DNSQuestion, k1: nat, k2: nat): string
    requires k1 <= PREFIX_SIZE && k2 <= PREFIX_SIZE
  {
    Frame(EncodeHeader(h), k1) + Frame(EncodeQuestion(q), k2)
  }

  /** What the proxy makes of the bytes of a reply, with whatever its memory held. It exits on a short
      read; a size beyond its buffer, or an address without a terminator, takes it out of its buffers. */
  function ReadReply(bytes: string, mem: Memory): Reading<string> {
    if |bytes| < PREFIX_SIZE then Exits
    else if Unprefix(bytes[..PREFIX_SIZE]) > MAX_MESSAGE_SIZE then Overruns
    else ReadRecord(Unread(bytes[PREFIX_SIZE..], Unprefix(bytes[..PREFIX_SIZE])), mem)
  }

  function ReadRecord(bytes: string, mem: Memory): Reading<string> {
    if |bytes| < PREFIX_SIZE then Exits
    else if Unprefix(bytes[..PREFIX_SIZE]) > MAX_MESSAGE_SIZE then Overruns
    else ReadAddress(DecodeRecord(Received(bytes[PREFIX_SIZE..], Unprefix(bytes[..PREFIX_SIZE])), mem.record, mem.beyond))
  }

  function ReadAddress(record: DNSRecord): Reading<string> {
    match CStr(record.rdata)
    case None => Overruns
    case Some(ip) => Read(ip)
  }

  method SendFrame(up: Pipe, text: string) returns (k: nat)
    modifies up
    ensures 0 < k <= PREFIX_SIZE
    ensures up.bytes == old(up.bytes) + Frame(text, k) && up.sent == old(up.sent) + Frame(text, k)
  {
    k := up.Send(Prefix(|text|));
    SendAll(up, text);
    Concat3(old(up.bytes), Prefix(|text|)[..k], text);
    Concat3(old(up.sent), Prefix(|text|)[..k], text);
  }

  /** `handle_dns_request`: the results of the two length sends are ignored by the program. */
  method HandleDnsRequest(up: Pipe, h: DNSHeader, q: DNSQuestion) returns (k1: nat, k2: nat)
    modifies up
    ensures 0 < k1 <= PREFIX_SIZE && 0 < k2 <= PREFIX_SIZE
    ensures up.bytes == old(up.bytes) + RequestBytes(h, q, k1, k2)
    ensures up.sent == old(up.sent) + RequestBytes(h, q, k1, k2)
  {
    var header := EncodeHeader(h);
    var question := EncodeQuestion(q);
    k1 := SendFrame(up, header);
    k2 := SendFrame(up, question);
    Concat3(old(up.bytes), Frame(header, k1), Frame(question, k2));
    Concat3(old(up.sent), Frame(header, k1), Frame(question, k2));
  }

  /** `handle_dns_response`. */
  method HandleDnsResponse(down: Pipe, mem: Memory) returns (r: Reading<string>)
    modifies down
    ensures r == ReadReply(old(down.bytes), mem) && down.sent == old(down.sent)
  {
    var size := down.Recv(PREFIX_SIZE);
    if |size| != PREFIX_SIZE {
      return Exits;
    }
    if Unprefix(size) > MAX_MESSAGE_SIZE {
      return Overruns;
    }
    var text := ReceiveAll(down, Unprefix(size), Unprefix(size));
    size := down.Recv(PREFIX_SIZE);
    if |size| != PREFIX_SIZE {
      return Exits;
    }
    if Unprefix(size) > MAX_MESSAGE_SIZE {
      return Overruns;
    }
    text := ReceiveAll(down, Unprefix(size), Unprefix(size));
    r := ReadAddress(DecodeRecord(text, mem.record, mem.beyond));
  }

  /** A reply whose sizes go before its texts: the buffer holds sizes up to 256. */
  lemma ReplySizes(text: string, record: string, mem: Memory)
    requires |text| < Address.TWO32 && |record| < Address.TWO32
    ensures ReadReply(Prefix(|text|) + (text + (Prefix(|record|) + record)), mem)
         == if |text| > 256 || |record| > 256 then Overruns else ReadAddress(DecodeRecord(record, mem.record, mem.beyond))
  {
    var rest := Prefix(|record|) + record;
    SizeBefore(|text|, text + rest);
    ReceivedExactly(text, rest);
    SizeBefore(|record|, record);
    ReceivedExactly(record, "");
    assert record + "" == record;
  }

  // ----- the texts themselves

  /** Single digits are separated by single spaces. */
  lemma {:induction false} SpacedDigitsAt(vs: seq<int>, i: nat)
    requires i < |vs| && forall j :: 0 <= j < |vs| ==> 0 <= vs[j] < 10
    ensures |Spaced(vs)| == 2 * |vs| - 1 && Spaced(vs)[2 * i] == "0123456789"[vs[i]]
    ensures i + 1 < |vs| ==> Spaced(vs)[2 * i + 1] == ' '
  {
    PrintDecimal(0, vs[0]);
    if |vs| > 1 {
      SpacedDigitsAt(vs[1..], if i == 0 then 0 else i - 1);
    }
  }

  /** A text of digits at even positions with spaces between them. */
  predicate IsDigitText(text: string, vs: seq<int>) {
    && |text| == 2 * |vs| - 1
    && (forall i :: 0 <= i < |vs| ==> 0 <= vs[i] < 10 && text[2 * i] == "0123456789"[vs[i]])
    && (forall i :: 0 <= i < |vs| - 1 ==> text[2 * i + 1] == ' ')
  }

  lemma DigitText(text: string, vs: seq<int>)
    requires IsDigitText(text, vs) && vs != []
    ensures Spaced(vs) == text
  {
    SpacedDigitsAt(vs, 0);
    forall k | 0 <= k < |text|
      ensures Spaced(vs)[k] == text[k]
    {
      SpacedDigitsAt(vs, k / 2);
      assert k == 2 * (k / 2) || k == 2 * (k / 2) + 1;
    }
  }

  lemma RequestHeaderText()
    ensures EncodeHeader(REQUEST_HEADER) == "1 0 1 0 0 0 0 0 0 1 0 0 0"
  {
    DigitText("1 0 1 0 0 0 0 0 0 1 0 0 0", HeaderValues(REQUEST_HEADER));
  }

  lemma ReplyHeaderText()
    ensures EncodeHeader(REQUEST_HEADER.(aa := true)) == "1 0 1 1 0 0 0 0 0 1 0 0 0"
  {
    DigitText("1 0 1 1 0 0 0 0 0 1 0 0 0", HeaderValues(REQUEST_HEADER.(aa := true)));
  }

  lemma NotFoundText()
    ensures EncodeHeader(NotFound(REQUEST_HEADER)) == "1 0 1 1 0 0 0 0 3 1 0 0 0"
  {
    DigitText("1 0 1 1 0 0 0 0 3 1 0 0 0", HeaderValues(NotFound(REQUEST_HEADER)));
  }

  lemma RequestQuestionText()
    ensures EncodeQuestion(REQUEST_QUESTION) == "1 1:video.cse.umich.edu" + Zeros(81)
  {
    QuestionText(REQUEST_QUESTION);
    assert REQUEST_QUESTION.qname == "video.cse.umich.edu" + Zeros(81);
    assert "1 1:" + ("video.cse.umich.edu" + Zeros(81)) == "1 1:video.cse.umich.edu" + Zeros(81);
  }

  lemma SpacedCons(v: int, vs: seq<int>)
    requires vs != []
    ensures Spaced([v] + vs) == Print(v) + (" " + Spaced(vs))
  {
    assert ([v] + vs)[1..] == vs;
  }

  lemma RecordHead(n: nat)
    ensures Spaced([1, 1, 0, n]) == "1 1 0 " + Print(n)
  {
    PrintDecimal(0, 0);
    PrintDecimal(0, 1);
    SpacedCons(0, [n]);
    SpacedCons(1, [0, n]);
    SpacedCons(1, [1, 0, n]);
    JoinHead(Print(n));
  }

  lemma JoinHead(s: string)
    ensures "1" + (" " + ("1" + (" " + ("0" + (" " + s))))) == "1 1 0 " + s
  {
  }

  lemma AnswerText(ip: string)
    requires IsHost(ip)
    ensures EncodeRecord(AnswerRecord(ip))
         == "1 1 0 " + Print(|ip|) + ":" + ("video.cse.umich.edu" + Zeros(81) + (ip + Zeros(100 - |ip|)))
  {
    RecordHead(|ip|);
    assert StrCpy(VIDEO) == "video.cse.umich.edu" + Zeros(81);
    JoinColon("1 1 0 " + Print(|ip|), StrCpy(VIDEO) + StrCpy(ip));
  }

  lemma JoinColon(a: string, b: string)
    ensures a + (":" + b) == a + ":" + b
  {
  }

  /** The bytes of the proxy's request, with `k1` and `k2` bytes of its length prefixes. */
  function SentRequest(k1: nat, k2: nat): string
    requires k1 <= 4 && k2 <= 4
  {
    Prefix(25)[..k1] + "1 0 1 0 0 0 0 0 0 1 0 0 0" + (Prefix(104)[..k2] + ("1 1:video.cse.umich.edu" + Zeros(81)))
  }

  /** The bytes of the server's reply to it, with `k3` and `k4` bytes of its length prefixes. */
  function SentReply(ip: string, k3: nat, k4: nat): string
    requires |ip| < 100 && k3 <= 4 && k4 <= 4
  {
    if ip == "" then Prefix(25)[..k3] + "1 0 1 1 0 0 0 0 3 1 0 0 0"
    else
      var record := "1 1 0 " + Print(|ip|) + ":" + ("video.cse.umich.edu" + Zeros(81) + (ip + Zeros(100 - |ip|)));
      Prefix(25)[..k3] + "1 0 1 1 0 0 0 0 0 1 0 0 0" + (Prefix(|record|)[..k4] + if k4 < 4 then "" else record)
  }

  /** The request and the reply, byte by byte. */
  lemma RequestSent(k1: nat, k2: nat)
    requires k1 <= 4 && k2 <= 4
    ensures RequestBytes(REQUEST_HEADER, REQUEST_QUESTION, k1, k2) == SentRequest(k1, k2)
  {
    RequestHeaderText();
    RequestQuestionText();
  }

  lemma ReplySent(ip: string, k3: nat, k4: nat)
    requires (ip == "" || IsHost(ip)) && k3 <= 4 && k4 <= 4
    ensures ReplyBytes(REQUEST_HEADER, ip, k3, k4) == SentReply(ip, k3, k4)
  {
    ReplyHeaderText();
    NotFoundText();
    if ip != "" {
      AnswerText(ip);
      var record := EncodeRecord(AnswerRecord(ip));
      assert RecordBytes(ip, k4) == Prefix(|record|)[..k4] + if k4 < 4 then "" else record;
    }
  }

  // ----- messages whose prefixes went out whole

  lemma FrameStart(text: string, tail: string)
    requires |text| < Address.TWO32
    ensures var s := Frame(text) + tail;
      |s| >= PREFIX_SIZE && Unprefix(s[..PREFIX_SIZE]) == |text| && s[PREFIX_SIZE..] == text + tail
  {
    var s := Frame(text) + tail;
    PrefixRoundTrip(|text|);
    assert s[..PREFIX_SIZE] == Prefix(|text|);
    assert s[PREFIX_SIZE..] == text + tail;
  }

  lemma ReadWholeQuestion(h: DNSHeader, q: DNSQuestion, mem: Memory)
    ensures ReadBody(h, Frame(EncodeQuestion(q)), mem) == Read(Request(h, Name(q.qname)))
  {
    var t := EncodeQuestion(q);
    QuestionWidth(q);
    FrameStart(t, "");
    assert Frame(t) + "" == Frame(t) && t + "" == t;
    ReceivedExactly(Prefix(|t|), t);
    ReceivedExactly(t, "");
    QuestionRoundTrip(q, mem.question, mem.beyond);
  }

  lemma ReadWholeHeader(h: DNSHeader, tail: string, mem: Memory)
    ensures ReadRequest(Frame(EncodeHeader(h)) + tail, mem) == ReadBody(h, tail, mem)
  {
    var t := EncodeHeader(h);
    HeaderWidth(h);
    FrameStart(t, tail);
    ReceivedExactly(t, tail);
    HeaderRoundTrip(h, mem.header);
  }

  lemma ReadWholeRecord(ip: string, mem: Memory)
    requires IsHost(ip)
    ensures ReadRecord(RecordBytes(ip, PREFIX_SIZE), mem) == Read(ip)
  {
    var record := AnswerRecord(ip);
    var r := EncodeRecord(record);
    RecordWidth(record);
    FrameStart(r, "");
    assert Frame(r) + "" == Frame(r) && r + "" == r;
    ReceivedExactly(r, "");
    RecordRoundTrip(record, mem.record, mem.beyond);
    FieldRoundTrip(ip);
  }

  lemma ReadWholeReply(h: DNSHeader, ip: string, k4: nat, mem: Memory)
    requires IsHost(ip) && k4 <= PREFIX_SIZE
    ensures ReadReply(ReplyBytes(h, ip, PREFIX_SIZE, k4), mem) == ReadRecord(RecordBytes(ip, k4), mem)
  {
    var t := EncodeHeader(h.(aa := true));
    HeaderWidth(h.(aa := true));
    FrameStart(t, RecordBytes(ip, k4));
    ReceivedExactly(t, RecordBytes(ip, k4));
  }

  lemma ReadNotFound(h: DNSHeader, k4: nat, mem: Memory)
    requires k4 <= PREFIX_SIZE
    ensures ReadReply(ReplyBytes(h, "", PREFIX_SIZE, k4), mem) == Exits
  {
    var t := EncodeHeader(NotFound(h));
    HeaderWidth(NotFound(h));
    FrameStart(t, "");
    assert Frame(t) + "" == Frame(t);
    ReceivedExactly(t, "");
  }

  // ----- what a prefix that went out in part does

  /** A size whose first three bytes are not all NUL is beyond every buffer. */
  lemma LargeSize(s: string)
    requires |s| == PREFIX_SIZE && forall i :: 0 <= i < PREFIX_SIZE ==> s[i] < 256 as char
    requires s[0] != NUL || s[1] != NUL || s[2] != NUL
    ensures Unprefix(s) >= MAX_MESSAGE_SIZE && (s[3] != NUL ==> Unprefix(s) > MAX_MESSAGE_SIZE)
  {
  }

  /** When only `k` bytes of a prefix precede a text that starts with a digit, the size read is either
      the code of that digit or more than any buffer holds. */
  lemma ShortPrefix(n: nat, k: nat, t: string)
    requires n < 256 && 0 < k < PREFIX_SIZE && |t| >= PREFIX_SIZE && IsDigit(t[0])
    requires forall i :: 0 <= i < PREFIX_SIZE ==> NUL < t[i] < 128 as char
    ensures var s := Prefix(n)[..k] + t;
      && |s| >= PREFIX_SIZE
      && (if k == 3 then Unprefix(s[..PREFIX_SIZE]) == t[0] as int && s[PREFIX_SIZE..] == t[1..]
          else Unprefix(s[..PREFIX_SIZE]) > MAX_MESSAGE_SIZE)
  {
    var p, s := Prefix(n), Prefix(n)[..k] + t;
    assert n / 0x100 == 0 && n / 0x1_0000 == 0 && n / 0x100_0000 == 0;
    assert p[0] == NUL && p[1] == NUL && p[2] == NUL;
    assert s[k] == t[0];
    if k == 3 {
      assert s[..PREFIX_SIZE] == [NUL, NUL, NUL, t[0]];
    } else if k == 2 {
      assert s[..PREFIX_SIZE] == [NUL, NUL, t[0], t[1]];
    } else {
      assert s[..PREFIX_SIZE] == [NUL, t[0], t[1], t[2]];
    }
  }

  lemma UnreadBehind(t: string, tail: string, n: nat)
    requires |t| <= n
    ensures Unread(t + tail, n) == Unread(tail, n - |t|)
  {
  }

  /** Digits, spaces and minus signs. */
  predicate IsNumeric(s: string) { forall i :: 0 <= i < |s| ==> ' ' <= s[i] <= '9' }

  lemma PrintNumeric(v: int)
    ensures IsNumeric(Print(v)) && Print(v) != "" && (v >= 0 ==> IsDigit(Print(v)[0]))
  {
    var d := if v < 0 then PrintNat(-v) else PrintNat(v);
    assert AllDigits(d);
  }

  lemma {:induction false} SpacedNumeric(vs: seq<int>)
    requires vs != []
    ensures IsNumeric(Spaced(vs)) && |Spaced(vs)| >= 2 * |vs| - 1 && (vs[0] >= 0 ==> IsDigit(Spaced(vs)[0]))
  {
    PrintNumeric(vs[0]);
    if |vs| > 1 {
      SpacedNumeric(vs[1..]);
    }
  }

  /** Every header text starts with the first digit of the identifier and has at least 25 characters. */
  lemma HeaderNumeric(h: DNSHeader)
    ensures IsNumeric(EncodeHeader(h)) && 25 <= |EncodeHeader(h)| <= 61 && IsDigit(EncodeHeader(h)[0])
  {
    SpacedNumeric(HeaderValues(h));
    HeaderWidth(h);
  }

  lemma {:induction false} SpacedDigits(vs: seq<int>)
    requires vs != [] && forall i :: 0 <= i < |vs| ==> 0 <= vs[i] < 10
    ensures |Spaced(vs)| == 2 * |vs| - 1 && Spaced(vs)[0] == DigitChar(vs[0])
  {
    if |vs| > 1 {
      SpacedDigits(vs[1..]);
    }
  }

  /** A header with identifier 1 whose values are single digits, such as the request's. */
  predicate IsPlain(h: DNSHeader) {
    h.id == 1 && !h.qr && forall i :: 0 <= i < |HeaderValues(h)| ==> 0 <= HeaderValues(h)[i] < 10
  }

  lemma PlainHeader(h: DNSHeader)
    requires IsPlain(h)
    ensures |EncodeHeader(h)| == 25 && EncodeHeader(h)[0] == '1'
    ensures exists rest :: EncodeHeader(h)[1..] == " " + (Print(0) + (" " + rest))
  {
    var vs := HeaderValues(h);
    SpacedDigits(vs);
    assert Spaced(vs) == Print(1) + (" " + Spaced(vs[1..]));
    assert Spaced(vs[1..]) == Print(0) + (" " + Spaced(vs[1..][1..]));
    assert Spaced(vs)[1..] == " " + Spaced(vs[1..]);
  }

  /** A query for the video name as the proxy makes it: an identifier of 1, single digits in the
      header and in both replies to it, and a question of type 1 and class 1 whose field holds the
      name and NULs. */
  ghost predicate IsQuery(h: DNSHeader, q: DNSQuestion) {
    && IsPlain(h) && IsPlain(h.(aa := true)) && IsPlain(NotFound(h))
    && q.qtype == 1 && q.qclass == 1 && q.qname == StrCpy(VIDEO)
  }

  /** `make_dns_Header` and `make_dns_Question` make such a query. */
  lemma RequestIsQuery()
    ensures IsQuery(REQUEST_HEADER, REQUEST_QUESTION)
  {
  }

  /** The field of the question: the name, its last characters, and the NULs behind it. */
  ghost predicate HoldsVideo(f: Field) {
    && |VIDEO| == 19 && NoNul(VIDEO) && f[..19] == VIDEO && f[17] == 'd' && f[18] == 'u'
    && forall i :: 19 <= i < FIELD_SIZE ==> f[i] == NUL
  }

  lemma VideoField(f: Field)
    requires f == StrCpy(VIDEO)
    ensures HoldsVideo(f) && CStr(f) == Some(VIDEO)
  {
    assert f[..19] == VIDEO;
    assert VIDEO[17] == 'd' && VIDEO[18] == 'u';
    TextOf(f, VIDEO);
  }

  lemma QuestionText(q: DNSQuestion)
    requires q.qtype == 1 && q.qclass == 1
    ensures EncodeQuestion(q) == "1 1:" + q.qname
  {
    assert Print(1) == "1";
    var one: seq<int>, both: seq<int> := [1], [1, 1];
    assert both[1..] == one && Spaced(one) == "1" && Spaced(both) == "1" + (" " + "1");
    assert "1" + (" " + "1") + (":" + q.qname) == "1 1:" + q.qname;
  }

  // ----- a short prefix of the question

  /** The 49 bytes behind the first digit hold the whole name and its NUL. */
  lemma NameBehindDigit(t: string, f: Field, local: DNSQuestion, beyond: Beyond)
    requires t == "1 1:" + f && HoldsVideo(f)
    ensures Name(DecodeQuestion(Received(t[1..], 49), local, beyond).qname) == VIDEO
  {
    var text := Received(t[1..], 49);
    assert text == " 1" + (":" + f[..46]);
    FirstColon(" 1", f[..46]);
    var copy := MemCpy(text, 3, beyond);
    assert forall i :: 0 <= i < 46 ==> copy[i] == f[i];
    assert copy[..19] == f[..19];
    TextOf(copy, VIDEO);
  }

  lemma ShortQuestionPrefix(h: DNSHeader, q: DNSQuestion, k2: nat, mem: Memory)
    requires 0 < k2 < PREFIX_SIZE && q.qtype == 1 && q.qclass == 1 && HoldsVideo(q.qname)
    ensures ReadBody(h, Frame(EncodeQuestion(q), k2), mem) == if k2 == 3 then Read(Request(h, VIDEO)) else Overruns
  {
    var t := EncodeQuestion(q);
    QuestionText(q);
    assert |t| == 104 && t[0] == '1' && t[1] == ' ' && t[2] == '1' && t[3] == ':';
    ShortPrefix(104, k2, t);
    var s := Frame(t, k2);
    assert Received(s, PREFIX_SIZE) == s[..PREFIX_SIZE];
    assert Unread(s, PREFIX_SIZE) == s[PREFIX_SIZE..];
    if k2 == 3 {
      NameBehindDigit(t, q.qname, mem.question, mem.beyond);
    }
  }

  // ----- a short prefix of the header

  lemma FirstNumber(msg: string, rest: string, local: DNSHeader)
    requires msg == " " + (Print(0) + (" " + rest))
    ensures DecodeHeader(msg, local).id == 0
  {
    HeaderValuesFit(local);
    var locals := HeaderValues(local);
    assert HEADER_IN[0] == Ushort;
    TakePrinted(Ushort, 0, " " + rest, locals[0]);
    assert TakeAll(HEADER_IN, msg, locals)[0] == 0;
  }

  /** A header text that lost its first character decodes with the identifier 0. */
  lemma ShiftedHeader(t: string, tail: string, local: DNSHeader)
    requires |t| == 25 && exists rest :: t[1..] == " " + (Print(0) + (" " + rest))
    ensures DecodeHeader(Received(t[1..] + tail, 49), local).id == 0
  {
    var rest :| t[1..] == " " + (Print(0) + (" " + rest));
    var msg := Received(t[1..] + tail, 49);
    var more := msg[24..];
    assert msg[..24] == t[1..];
    assert msg == t[1..] + more;
    assert msg == " " + (Print(0) + (" " + (rest + more)));
    FirstNumber(msg, rest + more, local);
  }

  /** With a short header prefix the server either overruns its buffer, or reads 49 bytes as the header:
      the 24 left of it and 25 of what follows. */
  lemma ShortHeaderPrefix(h: DNSHeader, k1: nat, tail: string, mem: Memory)
    requires IsPlain(h) && 0 < k1 < PREFIX_SIZE
    ensures var r := ReadRequest(Frame(EncodeHeader(h), k1) + tail, mem);
      if k1 < 3 then r == Overruns
      else exists d: DNSHeader :: d.id == 0 && r == ReadBody(d, Unread(tail, 25), mem)
  {
    var t := EncodeHeader(h);
    PlainHeader(h);
    HeaderNumeric(h);
    Concat3(Prefix(25)[..k1], t, tail);
    assert forall i :: 0 <= i < 25 ==> (t + tail)[i] == t[i];
    ShortPrefix(25, k1, t + tail);
    if k1 == 3 {
      assert (t + tail)[1..] == t[1..] + tail;
      ShiftedHeader(t, tail, mem.header);
      UnreadBehind(t[1..], tail, 49);
      var d := DecodeHeader(Received(t[1..] + tail, 49), mem.header);
      assert d.id == 0;
    }
  }

  /** The size of the question is then read from its name: two last letters, one, or NULs only. */
  lemma SizeFromQuestion(t: string, f: Field, k2: nat)
    requires 0 < k2 <= PREFIX_SIZE && t == "1 1:" + f && HoldsVideo(f)
    ensures var s := Unread(Frame(t, k2), 25);
      |s| >= PREFIX_SIZE
      && if k2 >= 3 then Unprefix(s[..PREFIX_SIZE]) >= MAX_MESSAGE_SIZE else Unprefix(s[..PREFIX_SIZE]) == 0
  {
    var s := Unread(Frame(t, k2), 25);
    assert s == f[21 - k2..];
    assert s[..PREFIX_SIZE] == [s[0], s[1], s[2], s[3]];
    assert s[0] == f[21 - k2] && s[1] == f[22 - k2] && s[2] == f[23 - k2] && s[3] == f[24 - k2];
    if k2 >= 3 {
      assert s[0] == (if k2 == 4 then 'd' else 'u') && s[1] == (if k2 == 4 then 'u' else NUL);
      LargeSize(s[..PREFIX_SIZE]);
    }
  }

  /** A question of no bytes: the copy starts at the terminator of the empty text. */
  lemma EmptyQuestion(local: DNSQuestion, beyond: Beyond)
    ensures Name(DecodeQuestion("", local, beyond).qname) == ""
  {
    TextOf(MemCpy("", 0, beyond), "");
  }

  lemma ShiftedQuestion(d: DNSHeader, q: DNSQuestion, k2: nat, mem: Memory)
    requires 0 < k2 <= PREFIX_SIZE && q.qtype == 1 && q.qclass == 1 && HoldsVideo(q.qname)
    ensures ReadBody(d, Unread(Frame(EncodeQuestion(q), k2), 25), mem)
         == if k2 >= 3 then Overruns else Read(Request(d, ""))
  {
    QuestionText(q);
    SizeFromQuestion(EncodeQuestion(q), q.qname, k2);
    var s := Unread(Frame(EncodeQuestion(q), k2), 25);
    assert Received(s, PREFIX_SIZE) == s[..PREFIX_SIZE];
    EmptyQuestion(mem.question, mem.beyond);
  }

  /** The proxy sends each length prefix in one call and ignores how much of it was accepted. Whatever
      the server's memory held, it reads the header and the name that were meant exactly when the header's
      prefix was accepted whole and at most one byte of the question's was lost. Of the other requests it
      reads just those with one byte of the first and two or more of the second lost, as asking for the
      empty name under the identifier 0; all the rest take it beyond its buffer. */
  lemma RequestRead(h: DNSHeader, q: DNSQuestion, k1: nat, k2: nat, mem: Memory)
    requires IsQuery(h, q) && 0 < k1 <= PREFIX_SIZE && 0 < k2 <= PREFIX_SIZE
    ensures var r := ReadRequest(RequestBytes(h, q, k1, k2), mem);
      && (r == Read(Request(h, "video.cse.umich.edu")) <==> k1 == 4 && k2 >= 3)
      && (r.Read? && r.value.header.id == 0 && r.value.domain == "" <==> k1 == 3 && k2 <= 2)
      && (r == Overruns <==> k1 <= 2 || (k1 == 3 && k2 >= 3) || (k1 == 4 && k2 <= 2))
  {
    VideoField(q.qname);
    if k1 == PREFIX_SIZE {
      ReadWholeHeader(h, Frame(EncodeQuestion(q), k2), mem);
      if k2 == PREFIX_SIZE {
        ReadWholeQuestion(h, q, mem);
      } else {
        ShortQuestionPrefix(h, q, k2, mem);
      }
    } else {
      ShortHeaderPrefix(h, k1, Frame(EncodeQuestion(q), k2), mem);
      if k1 == 3 {
        var d: DNSHeader :| d.id == 0 && ReadRequest(RequestBytes(h, q, k1, k2), mem)
          == ReadBody(d, Unread(Frame(EncodeQuestion(q), k2), 25), mem);
        ShiftedQuestion(d, q, k2, mem);
      }
    }
  }

  // ----- short prefixes of the reply

  /** Behind a header prefix that lost its last byte, the record's size is read from the name. */
  lemma SizeFromName(record: DNSRecord, mem: Memory)
    requires 7 <= |Spaced(RecordValues(record))| <= 8
    requires forall i :: 12 <= i < 17 ==> NUL < record.name[i] < 128 as char
    ensures |EncodeRecord(record)| > 25 && ReadRecord(EncodeRecord(record)[21..], mem) == Overruns
  {
    var s := Spaced(RecordValues(record));
    RecordWidth(record);
    NameInRecord(s, record.name, record.rdata);
    LargeSize(EncodeRecord(record)[21..][..PREFIX_SIZE]);
  }

  lemma NameInRecord(s: string, name: Field, rdata: Field)
    requires 7 <= |s| <= 8
    ensures var r := s + (":" + (name + rdata));
      |r| > 200 && r[21..][..PREFIX_SIZE] == [name[20 - |s|], name[21 - |s|], name[22 - |s|], name[23 - |s|]]
  {
    var r := s + (":" + (name + rdata));
    assert r[21..][..PREFIX_SIZE] == [r[21], r[22], r[23], r[24]];
  }

  lemma RecordMisread(ip: string, mem: Memory)
    requires IsHost(ip)
    ensures |EncodeRecord(AnswerRecord(ip))| > 25 && ReadRecord(EncodeRecord(AnswerRecord(ip))[21..], mem) == Overruns
  {
    ShortRecordValues(|ip|);
    var name := StrCpy(VIDEO);
    assert forall i :: 12 <= i < 17 ==> name[i] == VIDEO[i];
    SizeFromName(AnswerRecord(ip), mem);
  }

  lemma ShortRecordValues(n: nat)
    requires 0 < n < FIELD_SIZE
    ensures 7 <= |Spaced([1, 1, 0, n])| <= 8
  {
    assert Pow10(2) == 100;
    PrintNatLength(n, 2);
    var a: seq<int>, b: seq<int>, c: seq<int> := [1, 1, 0, n], [1, 0, n], [0, n];
    assert a[1..] == b && b[1..] == c && c[1..] == [n];
    assert |Spaced(c)| == 2 + |Print(n)| && |Spaced(b)| == 2 + |Spaced(c)| && |Spaced(a)| == 2 + |Spaced(b)|;
  }

  /** A reply whose header prefix went out in part: the 49 bytes read as its header take in 25 of what
      follows. */
  lemma ShortReplyPrefix(h: DNSHeader, k3: nat, record: string, mem: Memory)
    requires IsPlain(h) && 0 < k3 < PREFIX_SIZE
    ensures ReadReply(Frame(EncodeHeader(h), k3) + record, mem)
         == if k3 == 3 then ReadRecord(Unread(record, 25), mem) else Overruns
  {
    var t := EncodeHeader(h);
    PlainHeader(h);
    HeaderNumeric(h);
    Concat3(Prefix(25)[..k3], t, record);
    assert forall i :: 0 <= i < 25 ==> (t + record)[i] == t[i];
    ShortPrefix(25, k3, t + record);
    if k3 == 3 {
      assert (t + record)[1..] == t[1..] + record;
      UnreadBehind(t[1..], record, 49);
    }
  }

  lemma RecordBehindShortPrefix(ip: string, k4: nat, mem: Memory)
    requires IsHost(ip) && k4 <= PREFIX_SIZE
    ensures ReadRecord(Unread(RecordBytes(ip, k4), 25), mem) == if k4 == PREFIX_SIZE then Overruns else Exits
  {
    if k4 == PREFIX_SIZE {
      var r := EncodeRecord(AnswerRecord(ip));
      RecordMisread(ip, mem);
      assert RecordBytes(ip, k4) == Prefix(|r|) + r;
      UnreadBehind(Prefix(|r|), r, 25);
      assert Unread(r, 21) == r[21..];
    }
  }

  /** The proxy gets the address back exactly when both prefixes of the reply were accepted whole. If not
      it exits, or leaves its buffer when the header's prefix lost one byte and the record's none, or the
      header's lost more. */
  lemma ReplyRead(h: DNSHeader, ip: string, k3: nat, k4: nat, mem: Memory)
    requires IsPlain(h.(aa := true)) && IsHost(ip) && 0 < k3 <= PREFIX_SIZE && 0 < k4 <= PREFIX_SIZE
    ensures ReadReply(ReplyBytes(h, ip, k3, k4), mem)
         == if k3 == 4 && k4 == 4 then Read(ip) else if k3 >= 3 && k4 < 4 then Exits else Overruns
  {
    if k3 < PREFIX_SIZE {
      RecordBehindShortPrefix(ip, k4, mem);
      ShortReplyPrefix(h.(aa := true), k3, RecordBytes(ip, k4), mem);
    } else {
      ReadWholeReply(h, ip, k4, mem);
      if k4 == PREFIX_SIZE {
        ReadWholeRecord(ip, mem);
      }
    }
  }

  /** Digits, spaces and minus signs are read as a size that is beyond the buffer, if there are enough of them. */
  lemma NoRecord(t: string, mem: Memory)
    requires IsNumeric(t)
    ensures ReadRecord(t, mem) == if |t| < PREFIX_SIZE then Exits else Overruns
  {
    if |t| >= PREFIX_SIZE {
      LargeSize(t[..PREFIX_SIZE]);
    }
  }

  /** Without an answer the proxy never gets an address, whatever header the reply has: it exits, or
      leaves its buffer when two or more bytes of the prefix were lost, or one and the header is longer
      than 4 characters more than the code of its first digit. */
  lemma NotFoundReply(h: DNSHeader, k3: nat, k4: nat, mem: Memory)
    requires 0 < k3 <= PREFIX_SIZE && k4 <= PREFIX_SIZE
    ensures var t := EncodeHeader(NotFound(h));
      ReadReply(ReplyBytes(h, "", k3, k4), mem)
      == if k3 == 4 || (k3 == 3 && |t| < t[0] as int + 5) then Exits else Overruns
  {
    var t := EncodeHeader(NotFound(h));
    HeaderNumeric(NotFound(h));
    if k3 == PREFIX_SIZE {
      ReadNotFound(h, k4, mem);
    } else {
      ShortPrefix(|t|, k3, t);
      if k3 == 3 {
        NoRecord(Unread(t[1..], t[0] as int), mem);
      }
    }
  }

  // ----- the whole exchange

  /** What one query over a fresh connection comes to, when the sends of the four length prefixes accept
      `k1` to `k4` bytes and the memories of the server and the proxy held anything. The server answers what
      it reads: the chosen address for the video name, nothing for another. The proxy reads the reply. Once
      the server is beyond its buffer nothing is known. */
  ghost predicate IsExchange(h: DNSHeader, q: DNSQuestion, choice: string, server: Memory, proxy: Memory,
                             up: string, down: string, r: Reading<string>, k1: nat, k2: nat, k3: nat, k4: nat) {
    && 0 < k1 <= PREFIX_SIZE && 0 < k2 <= PREFIX_SIZE && 0 < k3 <= PREFIX_SIZE && 0 < k4 <= PREFIX_SIZE
    && up == RequestBytes(h, q, k1, k2)
    && (choice == "" || IsHost(choice))
    && down == Replied(ReadRequest(up, server), AnswerTo(ReadRequest(up, server), choice), k3, k4)
    && r == if ReadRequest(up, server).Overruns? then Overruns else ReadReply(down, proxy)
  }

  function AnswerTo(request: Reading<Request>, choice: string): string {
    if request.Read? && request.value.domain == "video.cse.umich.edu" then choice else ""
  }

  /** How an exchange ends, for every pattern of partial sends and all that memory may have held. The proxy
      gets an address exactly when there is one to get, at most one byte of the question's prefix was lost,
      and none of any other; the address is then the chosen one. When the server read the query that
      was meant, the proxy exits exactly when at most one byte of the reply's header prefix was lost, and
      there was no record or a part of its prefix was lost. */
  lemma ExchangeEnds(h: DNSHeader, q: DNSQuestion, choice: string, server: Memory, proxy: Memory,
                     up: string, down: string, r: Reading<string>, k1: nat, k2: nat, k3: nat, k4: nat)
    requires IsQuery(h, q) && IsExchange(h, q, choice, server, proxy, up, down, r, k1, k2, k3, k4)
    ensures r.Read? <==> choice != "" && k1 == 4 && k2 >= 3 && k3 == 4 && k4 == 4
    ensures r.Read? ==> r.value == choice
    ensures k1 == 4 && k2 >= 3 ==> (r.Exits? <==> k3 >= 3 && (choice == "" || k4 < 4))
  {
    RequestRead(h, q, k1, k2, server);
    var request := ReadRequest(up, server);
    if request.Read? {
      if request.value.domain == VIDEO && choice != "" {
        ReplyRead(h, choice, k3, k4, proxy);
      } else {
        NotFoundReply(request.value.header, k3, k4, proxy);
        if request.value.header == h {
          PlainHeader(NotFound(h));
        }
      }
    }
  }

  /** The server's part: it answers what it reads. */
  method Serve(server: Server, up: Pipe, down: Pipe, clientIP: string, mem: Memory)
    returns (request: Reading<Request>, ghost k3: nat, ghost k4: nat)
    requires server.Valid() && up != down && down.bytes == down.sent == ""
    modifies server.rr, server.geo, up, down
    ensures server.Valid() && request == old(ReadRequest(up.bytes, mem)) && up.sent == old(up.sent)
    ensures 0 < k3 <= PREFIX_SIZE && 0 < k4 <= PREFIX_SIZE
    ensures old(server.Choice(clientIP)) == "" || IsHost(old(server.Choice(clientIP)))
    ensures down.bytes == down.sent == Replied(request, AnswerTo(request, old(server.Choice(clientIP))), k3, k4)
  {
    server.AnswerFits(Query(VIDEO, clientIP));
    var read, ip, c, d := server.HandleConnection(up, down, clientIP, mem);
    request, k3, k4 := read, c, d;
  }

  /** The exchange of one query over one fresh connection. */
  method Ask(server: Server, up: Pipe, down: Pipe, clientIP: string, h: DNSHeader, q: DNSQuestion,
             serverMemory: Memory, proxyMemory: Memory)
    returns (r: Reading<string>, ghost k1: nat, ghost k2: nat, ghost k3: nat, ghost k4: nat)
    requires server.Valid() && up != down && IsQuery(h, q)
    requires up.bytes == up.sent == "" && down.bytes == down.sent == ""
    modifies server.rr, server.geo, up, down
    ensures server.Valid()
    ensures IsExchange(h, q, old(server.Choice(clientIP)), serverMemory, proxyMemory, up.sent, down.sent, r, k1, k2, k3, k4)
  {
    ghost var choice := server.Choice(clientIP);
    var a, b := HandleDnsRequest(up, h, q);
    assert server.Choice(clientIP) == choice;
    var request, c, d := Serve(server, up, down, clientIP, serverMemory);
    k1, k2, k3, k4 := a, b, c, d;
    if request.Overruns? {
      r := Overruns;
    } else {
      r := HandleDnsResponse(down, proxyMemory);
    }
  }

  /** `request_dns` over one fresh connection: the proxy returns the address that the server chose exactly
      when there is one, at most one byte of the question's length prefix was lost, and none of the others'. */
  method RequestDns(server: Server, up: Pipe, down: Pipe, clientIP: string, serverMemory: Memory, proxyMemory: Memory)
    returns (r: Reading<string>, ghost k1: nat, ghost k2: nat, ghost k3: nat, ghost k4: nat)
    requires server.Valid() && up != down && up.bytes == up.sent == "" && down.bytes == down.sent == ""
    modifies server.rr, server.geo, up, down
    ensures server.Valid()
    ensures IsExchange(REQUEST_HEADER, REQUEST_QUESTION, old(server.Choice(clientIP)), serverMemory, proxyMemory,
                       up.sent, down.sent, r, k1, k2, k3, k4)
    ensures 0 < k1 <= 4 && 0 < k2 <= 4 && 0 < k3 <= 4 && 0 < k4 <= 4 && up.sent == SentRequest(k1, k2)
    ensures |old(server.Choice(clientIP))| < 100
    ensures k1 == 4 && k2 >= 3 ==> down.sent == SentReply(old(server.Choice(clientIP)), k3, k4)
    ensures r.Read? <==> old(server.Choice(clientIP)) != "" && k1 == 4 && k2 >= 3 && k3 == 4 && k4 == 4
    ensures r.Read? ==> r.value == old(server.Choice(clientIP))
  {
    RequestIsQuery();
    ghost var choice := server.Choice(clientIP);
    r, k1, k2, k3, k4 := Ask(server, up, down, clientIP, REQUEST_HEADER, REQUEST_QUESTION, serverMemory, proxyMemory);
    ExchangeEnds(REQUEST_HEADER, REQUEST_QUESTION, choice, serverMemory, proxyMemory, up.sent, down.sent, r, k1, k2, k3, k4);
    RequestSent(k1, k2);
    RequestRead(REQUEST_HEADER, REQUEST_QUESTION, k1, k2, serverMemory);
    ReplySent(choice, k3, k4);
  }
}
