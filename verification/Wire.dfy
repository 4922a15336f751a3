/** Byte streams, length prefixes, and the loops that send and receive whole messages. */
module Wire {
  import opened Text
  import opened Codec
  import Address

  const PREFIX_SIZE := 4
  const MAX_MESSAGE_SIZE := 256

  function Min(a: nat, b: nat): nat { if a < b then a else b }

  /** One direction of a connection: the bytes not yet received, and all that were ever sent. */
  class Pipe {
    var bytes: string
    ghost var sent: string

    constructor ()
      ensures bytes == sent == ""
    {
      bytes, sent := "", "";
    }

    /** `send`: the system accepts some positive part of what is offered. */
    method Send(data: string) returns (n: nat)
      modifies this
      ensures n <= |data| && (data != "" ==> n > 0)
      ensures bytes == old(bytes) + data[..n] && sent == old(sent) + data[..n]
    {
      if data == "" {
        n := 0;
      } else {
        n :| 0 < n <= |data|;
      }
      bytes, sent := bytes + data[..n], sent + data[..n];
    }

    /** `recv`: the requested number of bytes, or all that are left when the stream ends earlier. */
    method Recv(size: nat) returns (data: string)
      modifies this
      ensures data == old(bytes)[..Min(size, |old(bytes)|)] && bytes == Unread(old(bytes), size)
      ensures sent == old(sent)
    {
      data, bytes := bytes[..Min(size, |bytes|)], Unread(bytes, size);
    }
  }

  /** What a program makes of the bytes of a connection: a value, its own exit, or an access beyond one
      of its buffers, after which nothing is known of it. */
  datatype Reading<T> = Read(value: T) | Exits | Overruns

  function Unread(bytes: string, size: nat): string { bytes[Min(size, |bytes|)..] }

  /** What a zeroed buffer of the given size holds after one `recv`. */
  function Received(bytes: string, size: nat): (r: string)
    ensures |r| == size
  {
    bytes[..Min(size, |bytes|)] + Zeros(size - Min(size, |bytes|))
  }

  lemma ReceivedExactly(text: string, tail: string)
    ensures Received(text + tail, |text|) == text && Unread(text + tail, |text|) == tail
  {
    assert text + Zeros(0) == text;
  }

  // ----- length prefixes

  function Byte(x: nat): char
  {
    (x % 256) as char
  }

  /** `htonl`: most significant byte first. */
  function Prefix(n: nat): (s: string)
    ensures |s| == PREFIX_SIZE
  {
    [Byte(n / 0x100_0000), Byte(n / 0x1_0000), Byte(n / 0x100), Byte(n)]
  }

  /** `ntohl` of four received bytes. */
  function Unprefix(s: string): nat
    requires |s| == PREFIX_SIZE
  {
    Address.Pack(s[0] as int % 256, s[1] as int % 256, s[2] as int % 256, s[3] as int % 256)
  }

  lemma ByteValue(x: nat)
    ensures Byte(x) as int % 256 == x % 256
  {
  }

  lemma TopByte(n: nat)
    requires n < Address.TWO32
    ensures n / 0x100_0000 % 256 == n / 0x100_0000
  {
  }

  lemma PrefixRoundTrip(n: nat)
    requires n < Address.TWO32
    ensures Unprefix(Prefix(n)) == n
  {
    ByteValue(n / 0x100_0000);
    ByteValue(n / 0x1_0000);
    ByteValue(n / 0x100);
    ByteValue(n);
    TopByte(n);
    Address.PackBytes(n);
  }

  /** `s` and `t` differ first at index `i`, where `s` has the smaller byte. */
  predicate SmallerAt(s: string, t: string, i: int) {
    0 <= i < |s| == |t| && s[..i] == t[..i] && s[i] < t[i]
  }

  /** `s` comes before `t` when bytes are compared from the first one on. */
  ghost predicate Before(s: string, t: string) {
    exists i :: SmallerAt(s, t, i)
  }

  lemma Quotient(n: nat, m: nat)
    requires n <= m
    ensures n / 0x100 <= m / 0x100
    ensures n / 0x100 == m / 0x100 ==> n % 0x100 - m % 0x100 == n - m
  {
    Address.LastByte(n);
    Address.LastByte(m);
  }

  /** Network byte order: prefixes compare as the numbers do. */
  lemma PrefixOrder(n: nat, m: nat)
    requires n < m < Address.TWO32
    ensures Before(Prefix(n), Prefix(m))
  {
    Address.DivideTwice(n);
    Address.DivideTwice(m);
    Quotient(n, m);
    Quotient(n / 0x100, m / 0x100);
    Quotient(n / 0x1_0000, m / 0x1_0000);
    Quotient(n / 0x100_0000, m / 0x100_0000);
    var p, q := Prefix(n), Prefix(m);
    var i := if p[0] != q[0] then 0 else if p[1] != q[1] then 1 else if p[2] != q[2] then 2 else 3;
    assert SmallerAt(p, q, i);
  }

  /** A message as it is sent: the part of its length prefix that was accepted, then its text. */
  function Frame(text: string, accepted: nat := PREFIX_SIZE): string
    requires accepted <= PREFIX_SIZE
  {
    Prefix(|text|)[..accepted] + text
  }

  lemma Concat3(a: string, b: string, c: string)
    ensures a + b + c == a + (b + c)
  {
  }

  // ----- sending and receiving

  /** The proxy's `send_all`. */
  method SendAll(pipe: Pipe, data: string)
    modifies pipe
    ensures pipe.bytes == old(pipe.bytes) + data && pipe.sent == old(pipe.sent) + data
  {
    var total := 0;
    while total < |data|
      invariant total <= |data|
      invariant pipe.bytes == old(pipe.bytes) + data[..total] && pipe.sent == old(pipe.sent) + data[..total]
    {
      var n := pipe.Send(data[total..]);
      assert data[..total] + data[total..][..n] == data[..total + n];
      total := total + n;
    }
    assert data[..|data|] == data;
  }

  /** The name server's `send_all`, which always sends at least once. */
  method SendAtLeastOnce(pipe: Pipe, data: string)
    modifies pipe
    ensures pipe.bytes == old(pipe.bytes) + data && pipe.sent == old(pipe.sent) + data
  {
    var sent := pipe.Send(data);
    while sent < |data|
      invariant sent <= |data|
      invariant pipe.bytes == old(pipe.bytes) + data[..sent] && pipe.sent == old(pipe.sent) + data[..sent]
    {
      var n := pipe.Send(data[sent..]);
      assert data[..sent] + data[sent..][..n] == data[..sent + n];
      sent := sent + n;
    }
    assert data[..|data|] == data;
  }

  /** `receive_all`: one `recv` into a zeroed buffer, terminated at `stop`. The name server stops at
      `size + 1` and the proxy at `size`, and the buffer must hold that index. */
  method ReceiveAll(pipe: Pipe, size: nat, stop: nat) returns (text: string)
    requires size <= stop <= MAX_MESSAGE_SIZE
    modifies pipe
    ensures text == Received(old(pipe.bytes), size) && pipe.bytes == Unread(old(pipe.bytes), size)
    ensures pipe.sent == old(pipe.sent)
  {
    var msg := new char[MAX_MESSAGE_SIZE + 1](_ => NUL);
    var data := pipe.Recv(size);
    forall i | 0 <= i < |data| {
      msg[i] := data[i];
    }
    msg[stop] := NUL;
    text := msg[..size];
  }
}
