/** Conversion between dotted-quad text and 32-bit addresses (`IP_UINT`, `UINT_IP`). */
module Address {
  import opened Text

  const TWO32 := 0x1_0000_0000
  const NO_IP := "NO_IP"

  type uint32 = x: int | 0 <= x < TWO32

  /** An input string stream: the unread text, and whether no extraction has failed yet. */
  datatype Reader = Reader(rest: string, good: bool)

  /** `iss >> x` into a `uint32_t` that holds 0. A number out of range leaves the largest value. */
  function TakeUint(r: Reader): (uint32, Reader) {
    if !r.good then (0, r)
    else match ScanInt(r.rest)
      case NoNumber => (0, Reader(r.rest, false))
      case Number(neg, m, rest) =>
        if m >= TWO32 then (TWO32 - 1, Reader(rest, false))
        else (if neg then (TWO32 - m) % TWO32 else m, Reader(rest, true))
  }

  /** `iss >> s` into a `char`, whose value is never looked at. */
  function TakeChar(r: Reader): Reader {
    var t := SkipSpace(r.rest);
    if !r.good || t == "" then r.(good := false) else r.(rest := t[1..])
  }

  /** The address with the given bytes, computed in 32-bit arithmetic. */
  function Pack(a: int, b: int, c: int, d: int): int {
    a * 0x100_0000 + b * 0x1_0000 + c * 0x100 + d
  }

  /** `n` times `iss >> s >> x`: a separator and the number after it. */
  function TakeFields(r: Reader, n: nat): (xs: seq<uint32>)
    ensures |xs| == n
    decreases n
  {
    if n == 0 then []
    else
      var (x, r') := TakeUint(TakeChar(r));
      [x] + TakeFields(r', n - 1)
  }

  function IpUint(ip: string): uint32 {
    if ip == NO_IP then 0
    else
      var (a, r) := TakeUint(Reader(ip, true));
      var xs := TakeFields(r, 3);
      Pack(a, xs[0], xs[1], xs[2]) % TWO32
  }

  predicate IsOctet(x: int) { 0 <= x < 256 }

  predicate IsUint(x: int) { 0 <= x < TWO32 }

  function Quad(a: int, b: int, c: int, d: int): string {
    Print(a) + "." + Print(b) + "." + Print(c) + "." + Print(d)
  }

  /** Bits 24-31, 16-23, 8-15 and 0-7 of the address, most significant first. */
  function UintIp(x: uint32): string {
    Quad(x / 0x100_0000, x / 0x1_0000 % 256, x / 0x100 % 256, x % 256)
  }

  /** A canonical dotted quad: four octets without leading zeros, signs or padding. */
  ghost predicate IsCanonical(s: string) {
    exists a, b, c, d :: IsOctet(a) && IsOctet(b) && IsOctet(c) && IsOctet(d) && s == Quad(a, b, c, d)
  }

  lemma TakePrinted(x: int, tail: string)
    requires 0 <= x < TWO32 && EndsNumber(tail)
    ensures TakeUint(Reader(Print(x) + tail, true)) == (x, Reader(tail, true))
  {
    ScanPrint(x, tail);
  }

  /** A negative number wraps around. */
  lemma TakeNegative(m: nat, tail: string)
    requires 0 < m < 4294967296 && EndsNumber(tail)
    ensures TakeUint(Reader(Print(-(m as int)) + tail, true)) == (4294967296 - m, Reader(tail, true))
  {
    ScanPrint(-(m as int), tail);
  }

  function DotTail(xs: seq<int>): string {
    if xs == [] then "" else "." + (Print(xs[0]) + DotTail(xs[1..]))
  }

  lemma {:induction false} TakeDotTail(xs: seq<int>)
    requires forall x :: x in xs ==> IsUint(x)
    ensures TakeFields(Reader(DotTail(xs), true), |xs|) == xs
  {
    if xs != [] {
      var rest := DotTail(xs[1..]);
      var s := DotTail(xs);
      assert s[0] == '.' && s[1..] == Print(xs[0]) + rest;
      assert IsUint(xs[0]);
      TakePrinted(xs[0], rest);
      TakeDotTail(xs[1..]);
    }
  }

  lemma RegroupQuad(a: string, b: string, c: string, d: string)
    ensures a + "." + b + "." + c + "." + d == a + ("." + (b + ("." + (c + ("." + (d + ""))))))
  {
  }

  lemma QuadText(a: int, b: int, c: int, d: int)
    ensures Quad(a, b, c, d) == Print(a) + DotTail([b, c, d])
  {
    assert [b, c, d][1..] == [c, d] && [c, d][1..] == [d] && [d][1..] == [];
    assert DotTail([d]) == "." + (Print(d) + "");
    assert DotTail([c, d]) == "." + (Print(c) + DotTail([d]));
    assert DotTail([b, c, d]) == "." + (Print(b) + DotTail([c, d]));
    RegroupQuad(Print(a), Print(b), Print(c), Print(d));
  }

  lemma PrintStartsWithDigit(x: nat, tail: string)
    ensures IsDigit((Print(x) + tail)[0])
  {
    assert IsDigit(Print(x)[0]);
  }

  lemma IpUintFields(ip: string, a: uint32, r: Reader, xs: seq<int>)
    requires ip != "" && IsDigit(ip[0])
    requires TakeUint(Reader(ip, true)) == (a, r) && |xs| == 3 && TakeFields(r, 3) == xs
    ensures IpUint(ip) == Pack(a, xs[0], xs[1], xs[2]) % TWO32
  {
    assert ip[0] != NO_IP[0];
  }

  lemma PackFits(a: int, b: int, c: int, d: int)
    requires IsOctet(a) && IsOctet(b) && IsOctet(c) && IsOctet(d)
    ensures Pack(a, b, c, d) % TWO32 == Pack(a, b, c, d)
  {
  }

  lemma IpUintText(s: string, a: int, xs: seq<int>)
    requires 0 <= a < TWO32 && |xs| == 3 && (forall x :: x in xs ==> IsUint(x))
    requires s == Print(a) + DotTail(xs)
    ensures IpUint(s) == Pack(a, xs[0], xs[1], xs[2]) % TWO32
  {
    var tail := DotTail(xs);
    TakePrinted(a, tail);
    TakeDotTail(xs);
    PrintStartsWithDigit(a, tail);
    IpUintFields(s, a, Reader(tail, true), xs);
  }

  lemma PackLiteral(a: int, b: int, c: int, d: int)
    ensures Pack(a, b, c, d) == a * 16777216 + b * 65536 + c * 256 + d
  {
  }

  lemma IpUintWraps(a: uint32, b: uint32, c: uint32, d: uint32)
    ensures IpUint(Quad(a, b, c, d)) == Pack(a, b, c, d) % TWO32
  {
    var xs: seq<int> := [b, c, d];
    QuadText(a, b, c, d);
    assert xs[0] == b && xs[1] == c && xs[2] == d;
    IpUintText(Quad(a, b, c, d), a, xs);
  }

  /** The first number is the most significant byte. Numbers that are no bytes wrap around. */
  lemma IpUintDots(a: uint32, b: uint32, c: uint32, d: uint32)
    ensures IpUint(Print(a) + "." + Print(b) + "." + Print(c) + "." + Print(d))
         == (a * 16777216 + b * 65536 + c * 256 + d) % 4294967296
  {
    IpUintWraps(a, b, c, d);
    PackLiteral(a, b, c, d);
  }

  /** A first number that does not fit 32 bits is read as the greatest one, and nothing is read behind it. */
  lemma IpUintOverflow(a: nat, tail: string)
    requires a >= 4294967296 && EndsNumber(tail)
    ensures IpUint(Print(a) + tail) == 255 * 16777216
  {
    ScanPrint(a, tail);
    PrintStartsWithDigit(a, tail);
    FieldsOfBad(Reader(tail, false), 3);
    IpUintFields(Print(a) + tail, TWO32 - 1, Reader(tail, false), [0, 0, 0]);
  }

  lemma {:induction false} FieldsOfBad(r: Reader, n: nat)
    requires !r.good
    ensures TakeFields(r, n) == seq(n, _ => 0)
  {
    if n > 0 {
      FieldsOfBad(TakeUint(TakeChar(r)).1, n - 1);
      assert TakeFields(r, n) == [0] + TakeFields(TakeUint(TakeChar(r)).1, n - 1);
    }
  }

  lemma IpUintQuad(a: int, b: int, c: int, d: int)
    requires IsOctet(a) && IsOctet(b) && IsOctet(c) && IsOctet(d)
    ensures IpUint(Quad(a, b, c, d)) == Pack(a, b, c, d)
  {
    QuadText(a, b, c, d);
    IpUintText(Quad(a, b, c, d), a, [b, c, d]);
    PackFits(a, b, c, d);
  }

  /** Dividing byte by byte. */
  lemma DivideTwice(x: nat)
    ensures x / 0x1_0000 == x / 0x100 / 0x100 && x / 0x100_0000 == x / 0x1_0000 / 0x100
  {
  }

  lemma LastByte(x: nat)
    ensures x == x / 0x100 * 0x100 + x % 0x100
  {
  }

  lemma PackBytes(x: uint32)
    ensures Pack(x / 0x100_0000, x / 0x1_0000 % 256, x / 0x100 % 256, x % 256) == x
  {
    DivideTwice(x);
    LastByte(x);
    LastByte(x / 0x100);
    LastByte(x / 0x1_0000);
  }

  /** `IP_UINT(UINT_IP(x)) == x` for every 32-bit address. */
  lemma AddressRoundTrip(x: uint32)
    ensures IpUint(UintIp(x)) == x
  {
    PackBytes(x);
    IpUintQuad(x / 0x100_0000, x / 0x1_0000 % 256, x / 0x100 % 256, x % 256);
  }

  lemma ByteStep(y: int, d: int)
    requires IsOctet(d)
    ensures (y * 0x100 + d) / 0x100 == y && (y * 0x100 + d) % 0x100 == d
  {
  }

  lemma Unpack(a: int, b: int, c: int, d: int)
    requires IsOctet(a) && IsOctet(b) && IsOctet(c) && IsOctet(d)
    ensures var x := Pack(a, b, c, d);
      0 <= x < TWO32 && x / 0x100_0000 == a && x / 0x1_0000 % 256 == b && x / 0x100 % 256 == c && x % 256 == d
  {
    var z := a * 0x100 + b;
    var y := z * 0x100 + c;
    DivideTwice(Pack(a, b, c, d));
    ByteStep(y, d);
    ByteStep(z, c);
    ByteStep(a, b);
  }

  lemma QuadBytes(a: int, b: int, c: int, d: int)
    requires IsOctet(a) && IsOctet(b) && IsOctet(c) && IsOctet(d)
    ensures 0 <= Pack(a, b, c, d) < TWO32 && UintIp(Pack(a, b, c, d)) == Quad(a, b, c, d)
  {
    Unpack(a, b, c, d);
  }

  /** Text survives the trip through an address exactly when it is a canonical dotted quad. */
  lemma TextRoundTrip(s: string)
    ensures UintIp(IpUint(s)) == s <==> IsCanonical(s)
  {
    if IsCanonical(s) {
      var a, b, c, d :| IsOctet(a) && IsOctet(b) && IsOctet(c) && IsOctet(d) && s == Quad(a, b, c, d);
      IpUintQuad(a, b, c, d);
      QuadBytes(a, b, c, d);
    } else {
      var x := IpUint(s);
      assert UintIp(x) == Quad(x / 0x100_0000, x / 0x1_0000 % 256, x / 0x100 % 256, x % 256);
    }
  }

  lemma SplitLast(w: string, sep: char, front: string, parts: seq<string>)
    requires Lacks(w, sep) && Split(front, sep) == parts
    ensures Split(w + [sep] + front, sep) == [w] + parts
  {
    SplitFirst(w, sep, front);
    assert w + [sep] + front == w + ([sep] + front);
  }

  /** Between its dots an address has the decimal form of each byte, the most significant one first. */
  lemma UintIpParts(x: uint32)
    ensures Split(UintIp(x), '.') == [Print(x / 16777216), Print(x / 65536 % 256), Print(x / 256 % 256), Print(x % 256)]
  {
    var a, b, c, d := Print(x / 16777216), Print(x / 65536 % 256), Print(x / 256 % 256), Print(x % 256);
    PrintLacks(x / 16777216, '.');
    PrintLacks(x / 65536 % 256, '.');
    PrintLacks(x / 256 % 256, '.');
    PrintLacks(x % 256, '.');
    SplitFirst(d, '.', "");
    SplitLast(c, '.', d, [d]);
    SplitLast(b, '.', c + ['.'] + d, [c, d]);
    SplitLast(a, '.', b + ['.'] + (c + ['.'] + d), [b, c, d]);
    FourParts(a, b, c, d);
  }

  lemma FourParts(a: string, b: string, c: string, d: string)
    ensures a + "." + b + "." + c + "." + d == a + ['.'] + (b + ['.'] + (c + ['.'] + d))
  {
  }
}
