/** The text encoding of DNS headers, questions and records. */
module Codec {
  import opened Text

  type ushort = x: int | 0 <= x < 0x1_0000
  type int32 = x: int | IsInt32(x)
  /** A signed `char`. */
  type schar = x: int | -128 <= x < 128

  const NUL := 0 as char
  const FIELD_SIZE := 100

  function Zeros(n: nat): (z: string)
    ensures |z| == n && forall i :: 0 <= i < n ==> z[i] == NUL
  {
    seq(n, _ => NUL)
  }

  /** A `char[100]` member. */
  type Field = s: string | |s| == FIELD_SIZE witness Zeros(FIELD_SIZE)

  datatype DNSHeader = DNSHeader(id: ushort, qr: bool, opcode: int32, aa: bool, tc: bool, rd: bool, ra: bool,
                                 z: schar, rcode: schar, qdcount: ushort, ancount: ushort, nscount: ushort, arcount: ushort)

  datatype DNSQuestion = DNSQuestion(qname: Field, qtype: ushort, qclass: ushort)

  datatype DNSRecord = DNSRecord(name: Field, kind: ushort, class_: ushort, ttl: ushort, rdlength: ushort, rdata: Field)

  // ----- numbers separated by spaces

  /** The type of the variable a number is extracted into. */
  datatype Kind = Ushort | Bool | Int | Char

  predicate Fits(k: Kind, v: int) {
    match k
    case Ushort => 0 <= v < 0x1_0000
    case Bool => 0 <= v <= 1
    case Int => IsInt32(v)
    case Char => -128 <= v < 128
  }

  predicate AllFit(ks: seq<Kind>, vs: seq<int>) {
    |ks| == |vs| && forall i :: 0 <= i < |ks| ==> Fits(ks[i], vs[i])
  }

  /** What is stored for a number that the type does not hold. */
  function Clamp(k: Kind, v: int): (r: int)
    ensures !Fits(k, v) ==> Fits(k, r)
  {
    match k
    case Ushort => 0xffff
    case Bool => 1
    case Int => if v < 0 then -INT_MAX - 1 else INT_MAX
    case Char => if v < 0 then -128 else 127
  }

  /** The value left in the variable, and the unread text; None once the stream has failed. */
  datatype Taken = Taken(value: int, rest: Option<string>)

  /** `iss >> x` for a variable that holds `local`. With nothing left to read the variable keeps its
      value; text that is no number stores 0, and a number out of range the nearest end of the range. */
  function Take(k: Kind, s: string, local: int): (r: Taken)
    requires Fits(k, local)
    ensures Fits(k, r.value)
  {
    if SkipSpace(s) == "" then Taken(local, None)
    else match ScanInt(s)
      case NoNumber => Taken(0, None)
      case Number(neg, m, rest) =>
        var v := if k.Ushort? && neg && m < 0x1_0000 then (0x1_0000 - m) % 0x1_0000 else Signed(neg, m);
        if Fits(k, v) then Taken(v, Some(rest)) else Taken(Clamp(k, v), None)
  }

  /** A chain of extractions into variables that hold `locals`. Once one has failed the variables
      behind it keep their values. */
  function TakeAll(ks: seq<Kind>, s: string, locals: seq<int>): (r: seq<int>)
    requires AllFit(ks, locals)
    ensures AllFit(ks, r)
  {
    if ks == [] then []
    else
      var t := Take(ks[0], s, locals[0]);
      match t.rest
      case None => [t.value] + locals[1..]
      case Some(rest) => [t.value] + TakeAll(ks[1..], rest, locals[1..])
  }

  /** `oss << v0 << ' ' << v1 << ...` */
  function Spaced(vs: seq<int>): string {
    if vs == [] then ""
    else if |vs| == 1 then Print(vs[0])
    else Print(vs[0]) + (" " + Spaced(vs[1..]))
  }

  lemma PrintIsWord(v: int, tail: string)
    ensures SkipSpace(Print(v) + tail) == Print(v) + tail != ""
  {
    var d := if v < 0 then PrintNat(-v) else PrintNat(v);
    assert IsDigit(d[0]);
    assert (Print(v) + tail)[0] == Print(v)[0];
  }

  lemma SkipOneSpace(s: string)
    ensures SkipSpace(" " + s) == SkipSpace(s)
  {
    assert (" " + s)[1..] == s;
  }

  lemma TakePrinted(k: Kind, v: int, tail: string, local: int)
    requires Fits(k, v) && Fits(k, local) && EndsNumber(tail)
    ensures Take(k, Print(v) + tail, local) == Taken(v, Some(tail))
    ensures Take(k, " " + (Print(v) + tail), local) == Taken(v, Some(tail))
  {
    PrintIsWord(v, tail);
    SkipOneSpace(Print(v) + tail);
    ScanPrint(v, tail);
    ScanSpace(Print(v) + tail);
  }

  /** What a variable of each type takes from a number: the value if it fits, with a negative number wrapped
      around for an unsigned variable, and otherwise the nearest end of the range, after which nothing is read. */
  lemma TakeNumber(v: int, tail: string, a: ushort, b: int, c: int32)
    requires EndsNumber(tail) && 0 <= b <= 1
    ensures Take(Ushort, Print(v) + tail, a) == if 0 <= v <= 65535 then Taken(v, Some(tail))
      else if -65535 <= v < 0 then Taken(65536 + v, Some(tail)) else Taken(65535, None)
    ensures Take(Bool, Print(v) + tail, b) == if 0 <= v <= 1 then Taken(v, Some(tail)) else Taken(1, None)
    ensures Take(Int, Print(v) + tail, c) == if v < -2147483648 then Taken(-2147483648, None)
      else if v > 2147483647 then Taken(2147483647, None) else Taken(v, Some(tail))
  {
    PrintIsWord(v, tail);
    ScanPrint(v, tail);
  }

  /** With white space only the variable keeps its value, and other text that is no number stores 0. */
  lemma TakeOther(k: Kind, blank: string, t: string, local: int)
    requires Fits(k, local) && AllBlank(blank)
    requires t == "" || !(Blank(t[0]) || IsDigit(t[0]) || t[0] in {'+', '-'})
    ensures Take(k, blank + t, local) == Taken(if t == "" then local else 0, None)
  {
    SkipBlank(blank, t);
    ScanNone(blank, t);
  }

  lemma TakeSpace(k: Kind, s: string, local: int)
    requires Fits(k, local)
    ensures Take(k, " " + s, local) == Take(k, s, local)
  {
    ScanSpace(s);
    SkipOneSpace(s);
  }

  lemma TakeAfterSpace(ks: seq<Kind>, s: string, locals: seq<int>)
    requires AllFit(ks, locals)
    ensures TakeAll(ks, " " + s, locals) == TakeAll(ks, s, locals)
  {
    if ks != [] {
      TakeSpace(ks[0], s, locals[0]);
    }
  }

  lemma TakeAllCons(ks: seq<Kind>, s: string, v: int, rest: string, vs: seq<int>, locals: seq<int>)
    requires ks != [] && AllFit(ks, locals) && Take(ks[0], s, locals[0]) == Taken(v, Some(rest))
    requires TakeAll(ks[1..], rest, locals[1..]) == vs
    ensures TakeAll(ks, s, locals) == [v] + vs
  {
  }

  lemma TakeStep(ks: seq<Kind>, v: int, rest: string, vs: seq<int>, locals: seq<int>)
    requires ks != [] && Fits(ks[0], v) && AllFit(ks, locals) && TakeAll(ks[1..], rest, locals[1..]) == vs
    ensures TakeAll(ks, Print(v) + (" " + rest), locals) == [v] + vs
  {
    TakePrinted(ks[0], v, " " + rest, locals[0]);
    TakeAfterSpace(ks[1..], rest, locals[1..]);
    TakeAllCons(ks, Print(v) + (" " + rest), v, " " + rest, vs, locals);
  }

  lemma TakeLast(ks: seq<Kind>, v: int, tail: string, locals: seq<int>)
    requires |ks| == 1 && Fits(ks[0], v) && AllFit(ks, locals) && EndsNumber(tail)
    ensures TakeAll(ks, Print(v) + tail, locals) == [v]
  {
    TakePrinted(ks[0], v, tail, locals[0]);
    assert ks[1..] == [];
    var none: seq<int> := [];
    TakeAllCons(ks, Print(v) + tail, v, tail, none, locals);
    assert [v] + none == [v];
  }

  /** A spaced list of numbers reads back as the same list, whatever the variables held before. */
  lemma {:induction false} TakeSpaced(ks: seq<Kind>, vs: seq<int>, tail: string, locals: seq<int>)
    requires AllFit(ks, vs) && AllFit(ks, locals) && vs != [] && EndsNumber(tail)
    ensures TakeAll(ks, Spaced(vs) + tail, locals) == vs
  {
    if |vs| == 1 {
      TakeLast(ks, vs[0], tail, locals);
      assert vs == [vs[0]];
    } else {
      TakeSpaced(ks[1..], vs[1..], tail, locals[1..]);
      TakeStep(ks, vs[0], Spaced(vs[1..]) + tail, vs[1..], locals);
      Regroup(Print(vs[0]), Spaced(vs[1..]), tail);
      assert vs == [vs[0]] + vs[1..];
    }
  }

  lemma Regroup(a: string, b: string, c: string)
    ensures a + (" " + b) + c == a + (" " + (b + c))
  {
  }

  /** The words of a text, split at its spaces. */
  function Words(s: string): seq<string> { Split(s, ' ') }

  /** The text is the decimal form of each value, separated by single spaces. */
  lemma {:induction false} SpacedWords(vs: seq<int>)
    requires vs != []
    ensures |Words(Spaced(vs))| == |vs| && forall i :: 0 <= i < |vs| ==> Words(Spaced(vs))[i] == Print(vs[i])
  {
    PrintLacks(vs[0], ' ');
    if |vs| == 1 {
      SplitFirst(Print(vs[0]), ' ', "");
    } else {
      SpacedWords(vs[1..]);
      SplitFirst(Print(vs[0]), ' ', Spaced(vs[1..]));
    }
  }

  // ----- how long the encodings get

  function Width(k: Kind): nat {
    match k
    case Ushort => 5
    case Bool => 1
    case Int => 11
    case Char => 4
  }

  /** The longest text a list of numbers can take, with a space before each. */
  function Widths(ks: seq<Kind>): nat {
    if ks == [] then 0 else 1 + Width(ks[0]) + Widths(ks[1..])
  }

  lemma PrintWidth(k: Kind, v: int)
    requires Fits(k, v)
    ensures |Print(v)| <= Width(k)
  {
    assert Pow10(1) == 10 && Pow10(2) == 100 && Pow10(3) == 1000;
    assert Pow10(5) == 100 * Pow10(3) && Pow10(10) == 10 * 10 * 10 * 100 * Pow10(5) by {
      assert Pow10(7) == 100 * Pow10(5) && Pow10(9) == 100 * Pow10(7);
    }
    PrintNatLength(if v < 0 then -v else v, match k case Ushort => 5 case Bool => 1 case Int => 10 case Char => 3);
  }

  lemma {:induction false} SpacedWidth(ks: seq<Kind>, vs: seq<int>)
    requires AllFit(ks, vs) && vs != []
    ensures |Spaced(vs)| < Widths(ks)
  {
    PrintWidth(ks[0], vs[0]);
    if |vs| > 1 {
      SpacedWidth(ks[1..], vs[1..]);
    }
  }

  // ----- header

  function Bit(b: bool): int { if b then 1 else 0 }

  /** `static_cast<char>` of an int. */
  function ToChar(x: int): schar { (x + 128) % 256 - 128 }

  /** The variables of `DNSHeader::encode`; Z and RCODE are printed from a `char`. */
  const HEADER_OUT: seq<Kind> :=
    [Ushort, Bool, Int] + [Bool, Bool, Bool, Bool] + [Char, Char] + [Ushort, Ushort, Ushort, Ushort]
  /** The variables of `DNSHeader::decode`; Z and RCODE are read into an `int`. */
  const HEADER_IN: seq<Kind> := [Ushort, Bool, Int, Bool, Bool, Bool, Bool, Int, Int, Ushort, Ushort, Ushort, Ushort]

  function HeaderValues(h: DNSHeader): seq<int> {
    [h.id, Bit(h.qr), h.opcode, Bit(h.aa), Bit(h.tc), Bit(h.rd), Bit(h.ra), h.z, h.rcode,
     h.qdcount, h.ancount, h.nscount, h.arcount]
  }

  function EncodeHeader(h: DNSHeader): string { Spaced(HeaderValues(h)) }

  /** The kind of every header variable, by position. */
  lemma HeaderFits(v: seq<int>)
    requires AllFit(HEADER_IN, v)
    ensures Fits(Ushort, v[0]) && Fits(Int, v[2]) && Fits(Ushort, v[9])
         && Fits(Ushort, v[10]) && Fits(Ushort, v[11]) && Fits(Ushort, v[12])
  {
    assert Fits(HEADER_IN[0], v[0]) && Fits(HEADER_IN[2], v[2]) && Fits(HEADER_IN[9], v[9])
        && Fits(HEADER_IN[10], v[10]) && Fits(HEADER_IN[11], v[11]) && Fits(HEADER_IN[12], v[12]);
  }

  function HeaderFrom(v: seq<int>): DNSHeader
    requires AllFit(HEADER_IN, v)
  {
    HeaderFits(v);
    DNSHeader(v[0], v[1] != 0, v[2], v[3] != 0, v[4] != 0, v[5] != 0, v[6] != 0,
              ToChar(v[7]), ToChar(v[8]), v[9], v[10], v[11], v[12])
  }

  lemma HeaderValuesFit(h: DNSHeader)
    ensures AllFit(HEADER_IN, HeaderValues(h)) && AllFit(HEADER_OUT, HeaderValues(h))
  {
    var vs := HeaderValues(h);
    forall i | 0 <= i < 13
      ensures Fits(HEADER_IN[i], vs[i]) && Fits(HEADER_OUT[i], vs[i])
    {
    }
  }

  lemma HeaderFromValues(h: DNSHeader)
    ensures AllFit(HEADER_IN, HeaderValues(h)) && HeaderFrom(HeaderValues(h)) == h
  {
    HeaderValuesFit(h);
  }

  function BitText(b: bool): string { if b then "1" else "0" }

  /** Which field is which word. */
  lemma HeaderWords(h: DNSHeader)
    ensures Words(EncodeHeader(h))
         == [Print(h.id), BitText(h.qr), Print(h.opcode), BitText(h.aa), BitText(h.tc), BitText(h.rd), BitText(h.ra),
             Print(h.z), Print(h.rcode), Print(h.qdcount), Print(h.ancount), Print(h.nscount), Print(h.arcount)]
  {
    SpacedWords(HeaderValues(h));
    ThirteenWords(HeaderValues(h), Words(EncodeHeader(h)));
    BitTextIsPrint();
  }

  lemma ThirteenWords(vs: seq<int>, ws: seq<string>)
    requires |vs| == |ws| == 13 && forall i :: 0 <= i < |ws| ==> ws[i] == Print(vs[i])
    ensures ws == [Print(vs[0]), Print(vs[1]), Print(vs[2]), Print(vs[3]), Print(vs[4]), Print(vs[5]), Print(vs[6]),
                   Print(vs[7]), Print(vs[8]), Print(vs[9]), Print(vs[10]), Print(vs[11]), Print(vs[12])]
  {
  }

  lemma BitTextIsPrint()
    ensures forall b :: BitText(b) == Print(Bit(b))
  {
    PrintDecimal(0, 0);
    PrintDecimal(0, 1);
  }

  /** Which word is read into which field, for any numbers that fit the variables: Z and RCODE are read as `int`
      and keep their last byte. */
  lemma HeaderFields(vs: seq<int>, local: DNSHeader)
    requires AllFit(HEADER_IN, vs)
    ensures var h := DecodeHeader(Spaced(vs), local);
      && h.id == vs[0] && h.qr == (vs[1] == 1) && h.opcode == vs[2] && h.aa == (vs[3] == 1) && h.tc == (vs[4] == 1)
      && h.rd == (vs[5] == 1) && h.ra == (vs[6] == 1) && h.z % 256 == vs[7] % 256 && h.rcode % 256 == vs[8] % 256
      && h.qdcount == vs[9] && h.ancount == vs[10] && h.nscount == vs[11] && h.arcount == vs[12]
  {
    HeaderValuesFit(local);
    TakeSpaced(HEADER_IN, vs, "", HeaderValues(local));
    assert Spaced(vs) + "" == Spaced(vs);
    HeaderBits(vs);
    LastByteKept(vs[7]);
    LastByteKept(vs[8]);
  }

  lemma HeaderBits(v: seq<int>)
    requires AllFit(HEADER_IN, v)
    ensures 0 <= v[1] <= 1 && 0 <= v[3] <= 1 && 0 <= v[4] <= 1 && 0 <= v[5] <= 1 && 0 <= v[6] <= 1
  {
    assert Fits(HEADER_IN[1], v[1]) && Fits(HEADER_IN[3], v[3]) && Fits(HEADER_IN[4], v[4]) && Fits(HEADER_IN[5], v[5])
        && Fits(HEADER_IN[6], v[6]);
  }

  lemma LastByteKept(x: int)
    ensures ToChar(x) % 256 == x % 256
  {
  }

  /** `local` is what the variables hold before any is set. */
  function DecodeHeader(msg: string, local: DNSHeader): DNSHeader {
    HeaderValuesFit(local);
    HeaderFrom(TakeAll(HEADER_IN, msg, HeaderValues(local)))
  }

  lemma HeaderRoundTrip(h: DNSHeader, local: DNSHeader)
    ensures DecodeHeader(EncodeHeader(h), local) == h
  {
    var vs := HeaderValues(h);
    HeaderFromValues(h);
    HeaderValuesFit(local);
    TakeSpaced(HEADER_IN, vs, "", HeaderValues(local));
    assert Spaced(vs) + "" == Spaced(vs);
  }

  lemma {:induction false} WidthsConcat(a: seq<Kind>, b: seq<Kind>)
    ensures Widths(a + b) == Widths(a) + Widths(b)
  {
    if a == [] {
      assert a + b == b;
    } else {
      WidthsConcat(a[1..], b);
      assert (a + b)[1..] == a[1..] + b;
    }
  }

  lemma HeaderWidths()
    ensures Widths(HEADER_OUT) == 62
  {
    var a, b, c, d := [Ushort, Bool, Int], [Bool, Bool, Bool, Bool], [Char, Char], [Ushort, Ushort, Ushort, Ushort];
    WidthsConcat(a + b + c, d);
    WidthsConcat(a + b, c);
    WidthsConcat(a, b);
    assert a[1..] == [Bool, Int] && a[1..][1..] == [Int] && b[1..] == [Bool, Bool, Bool] && d[1..] == [Ushort, Ushort, Ushort];
    assert Widths([Bool, Int]) == 14 && Widths([Bool, Bool, Bool]) == 6 && Widths([Ushort, Ushort, Ushort]) == 18;
  }

  lemma HeaderWidth(h: DNSHeader)
    ensures 0 < |EncodeHeader(h)| <= 61
  {
    HeaderValuesFit(h);
    SpacedWidth(HEADER_OUT, HeaderValues(h));
    HeaderWidths();
  }

  // ----- fixed fields behind a colon

  /** The bytes in memory behind a text and its final NUL, as far as a copy can reach. */
  type Beyond = s: string | |s| == 2 * FIELD_SIZE witness Zeros(2 * FIELD_SIZE)

  /** A field copied from offset `i`, past the end of the text if it is too short. */
  function MemCpy(msg: string, i: nat, beyond: Beyond): Field
    requires i <= |msg| + FIELD_SIZE
  {
    (msg + [NUL] + beyond)[i..i + FIELD_SIZE]
  }

  predicate NoColon(s: string) { forall i :: 0 <= i < |s| ==> s[i] != ':' }

  lemma {:induction false} SpacedNoColon(vs: seq<int>)
    ensures NoColon(Spaced(vs))
  {
    if vs != [] {
      PrintNoColon(vs[0]);
      SpacedNoColon(vs[1..]);
    }
  }

  lemma PrintNoColon(v: int)
    ensures NoColon(Print(v))
  {
    var d := if v < 0 then PrintNat(-v) else PrintNat(v);
    assert AllDigits(d);
  }

  lemma FirstColon(s: string, tail: string)
    requires NoColon(s)
    ensures Find(s + (":" + tail), ":") == |s|
  {
    var t := s + (":" + tail);
    assert At(t, ":", |s|);
    var i := Find(t, ":");
    AtChar(t, ":", i, 0);
  }

  lemma CopyField(s: string, f: string, tail: string, beyond: Beyond)
    requires |f| == FIELD_SIZE
    ensures MemCpy(s + (f + tail), |s|, beyond) == f
  {
    assert (s + (f + tail) + [NUL] + beyond)[|s|..|s| + FIELD_SIZE] == f;
  }

  const QUESTION_KINDS: seq<Kind> := [Ushort, Ushort]

  function EncodeQuestion(q: DNSQuestion): string {
    Spaced([q.qtype, q.qclass]) + (":" + q.qname)
  }

  function DecodeQuestion(msg: string, local: DNSQuestion, beyond: Beyond): DNSQuestion {
    var v := TakeAll(QUESTION_KINDS, msg, [local.qtype, local.qclass]);
    assert Fits(QUESTION_KINDS[0], v[0]) && Fits(QUESTION_KINDS[1], v[1]);
    DNSQuestion(MemCpy(msg, Find(msg, ":") + 1, beyond), v[0], v[1])
  }

  lemma QuestionRoundTrip(q: DNSQuestion, local: DNSQuestion, beyond: Beyond)
    ensures DecodeQuestion(EncodeQuestion(q), local, beyond) == q
  {
    var vs := [q.qtype, q.qclass];
    var s := Spaced(vs);
    SpacedNoColon(vs);
    FirstColon(s, q.qname);
    TakeSpaced(QUESTION_KINDS, vs, ":" + q.qname, [local.qtype, local.qclass]);
    assert EncodeQuestion(q) == (s + ":") + (q.qname + "");
    CopyField(s + ":", q.qname, "", beyond);
  }

  /** Two words, the type and the class, a colon, and the field of the name. */
  lemma QuestionLayout(q: DNSQuestion)
    ensures var t, c := EncodeQuestion(q), Find(EncodeQuestion(q), ":");
      c != -1 && Words(t[..c]) == [Print(q.qtype), Print(q.qclass)] && t[c + 1..] == q.qname
  {
    var vs := [q.qtype, q.qclass];
    SpacedNoColon(vs);
    FirstColon(Spaced(vs), q.qname);
    SpacedWords(vs);
    Behind(Spaced(vs), q.qname);
  }

  lemma Behind(s: string, tail: string)
    ensures (s + (":" + tail))[..|s|] == s && (s + (":" + tail))[|s| + 1..] == tail
  {
  }

  lemma QuestionWidth(q: DNSQuestion)
    ensures 104 <= |EncodeQuestion(q)| <= 112
  {
    SpacedWidth(QUESTION_KINDS, [q.qtype, q.qclass]);
    assert Spaced([q.qtype, q.qclass]) == Print(q.qtype) + (" " + Print(q.qclass));
  }

  const RECORD_KINDS: seq<Kind> := [Ushort, Ushort, Ushort, Ushort]

  function RecordValues(r: DNSRecord): seq<int> { [r.kind, r.class_, r.ttl, r.rdlength] }

  function EncodeRecord(r: DNSRecord): string {
    Spaced(RecordValues(r)) + (":" + (r.name + r.rdata))
  }

  function DecodeRecord(msg: string, local: DNSRecord, beyond: Beyond): DNSRecord {
    var index := Find(msg, ":");
    var v := TakeAll(RECORD_KINDS, msg, RecordValues(local));
    assert Fits(RECORD_KINDS[0], v[0]) && Fits(RECORD_KINDS[1], v[1]) && Fits(RECORD_KINDS[2], v[2]) && Fits(RECORD_KINDS[3], v[3]);
    DNSRecord(MemCpy(msg, index + 1, beyond), v[0], v[1], v[2], v[3], MemCpy(msg, index + 101, beyond))
  }

  /** Both copies, behind any prefix without a colon. */
  lemma CopyFields(s: string, name: Field, rdata: Field, beyond: Beyond)
    requires NoColon(s)
    ensures var m := s + (":" + (name + rdata));
      Find(m, ":") == |s| && MemCpy(m, |s| + 1, beyond) == name && MemCpy(m, |s| + 101, beyond) == rdata
  {
    var m := s + (":" + (name + rdata));
    FirstColon(s, name + rdata);
    assert m == (s + ":") + (name + rdata);
    CopyField(s + ":", name, rdata, beyond);
    assert m == (s + ":" + name) + (rdata + "");
    CopyField(s + ":" + name, rdata, "", beyond);
  }

  lemma RecordRoundTrip(r: DNSRecord, local: DNSRecord, beyond: Beyond)
    ensures DecodeRecord(EncodeRecord(r), local, beyond) == r
  {
    var vs := RecordValues(r);
    SpacedNoColon(vs);
    CopyFields(Spaced(vs), r.name, r.rdata, beyond);
    TakeSpaced(RECORD_KINDS, vs, ":" + (r.name + r.rdata), RecordValues(local));
  }

  /** Four words, the type, the class, the time to live and the length of the data, a colon, the field of the
      name and the field of the data. */
  lemma RecordLayout(r: DNSRecord)
    ensures var t, c := EncodeRecord(r), Find(EncodeRecord(r), ":");
      && c != -1 && |t| == c + 201 && Words(t[..c]) == [Print(r.kind), Print(r.class_), Print(r.ttl), Print(r.rdlength)]
      && t[c + 1..c + 101] == r.name && t[c + 101..] == r.rdata
  {
    var vs := [r.kind, r.class_, r.ttl, r.rdlength];
    SpacedNoColon(vs);
    FirstColon(Spaced(vs), r.name + r.rdata);
    SpacedWords(vs);
    Behind(Spaced(vs), r.name + r.rdata);
    TwoFields(Spaced(vs) + (":" + (r.name + r.rdata)), |Spaced(vs)|, r.name, r.rdata);
  }

  lemma TwoFields(t: string, c: nat, name: Field, rdata: Field)
    requires c < |t| && t[c + 1..] == name + rdata
    ensures |t| == c + 201 && t[c + 1..c + 101] == name && t[c + 101..] == rdata
  {
    assert t[c + 1..][..100] == name && t[c + 1..][100..] == rdata;
  }

  lemma RecordWidth(r: DNSRecord)
    ensures 200 < |EncodeRecord(r)| <= 224
  {
    SpacedWidth(RECORD_KINDS, RecordValues(r));
    assert Widths(RECORD_KINDS[2..]) == 12;
    assert Widths(RECORD_KINDS) == 24;
  }

  // ----- NUL-terminated strings in fixed fields

  /** The string a fixed field holds; None when it has no terminator. */
  function CStr(f: Field): Option<string> {
    var i := Find(f, [NUL]);
    if i == -1 then None else Some(f[..i])
  }

  /** `strcpy` into a zeroed field. */
  function StrCpy(s: string): Field
    requires |s| < FIELD_SIZE
  {
    s + Zeros(FIELD_SIZE - |s|)
  }

  predicate NoNul(s: string) { forall i :: 0 <= i < |s| ==> s[i] != NUL }

  /** A string and its terminator decide what a field holds, whatever stands behind them. */
  lemma TextOf(f: Field, s: string)
    requires |s| < FIELD_SIZE && NoNul(s) && f[..|s|] == s && f[|s|] == NUL
    ensures CStr(f) == Some(s)
  {
    assert At(f, [NUL], |s|);
    var i := Find(f, [NUL]);
    AtChar(f, [NUL], i, 0);
    assert forall j :: 0 <= j < |s| ==> f[j] == s[j];
  }

  lemma FieldRoundTrip(s: string)
    requires |s| < FIELD_SIZE && NoNul(s)
    ensures CStr(StrCpy(s)) == Some(s)
  {
    TextOf(StrCpy(s), s);
  }
}
