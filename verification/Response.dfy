/** Finding the end of a response in the bytes received so far. */
module Response {
  import opened Text

  const HEADER_END := "\r\n\r\n"
  const CRLF := "\r\n"
  const LENGTH_KEY := "Content-Length: "
  const TWO64 := 0x1_0000_0000_0000_0000

  /** No complete header with a length yet; a length that is no number; or the length of the message. */
  datatype HeaderScan = Incomplete | BadNumber | Length(n: nat)

  lemma LineAfterKey(msg: string, cl: int)
    requires At(msg, LENGTH_KEY, cl) && Find(msg, CRLF, cl) != -1
    ensures cl + |LENGTH_KEY| <= Find(msg, CRLF, cl)
  {
    var e := Find(msg, CRLF, cl);
    AtChar(msg, CRLF, e, 0);
    if e < cl + |LENGTH_KEY| {
      AtChar(msg, LENGTH_KEY, cl, e - cl);
    }
  }

  /** The text after the first `Content-Length: `, up to the end of its line. */
  function LengthText(msg: string): (r: Option<string>)
  {
    var cl := Find(msg, LENGTH_KEY);
    if cl == -1 then None
    else
      var e := Find(msg, CRLF, cl);
      if e == -1 then None
      else
        LineAfterKey(msg, cl);
        Some(msg[cl + |LENGTH_KEY|..e])
  }

  /** `parse_header`. A negative length is added as an unsigned number. */
  function ParseHeader(msg: string): HeaderScan {
    var end := Find(msg, HEADER_END);
    if end == -1 || LengthText(msg).None? then Incomplete
    else match StoI(LengthText(msg).value)
      case None => BadNumber
      case Some(length) => Length((end + |HEADER_END| + length) % TWO64)
  }

  // ----- well-framed responses

  /** A header that announces its own length before it ends, and exactly that many bytes after it. */
  ghost predicate IsResponse(r: string) {
    var end, cl := Find(r, "\r\n\r\n"), Find(r, "Content-Length: ");
    && 0 <= cl < end
    && cl + 16 <= Find(r, "\r\n", cl) && StoI(r[cl + 16..Find(r, "\r\n", cl)]) == Some(|r| - end - 4)
    && |r| < 18446744073709551616
  }

  /** The length of the header of a response, with its terminator. */
  ghost function HeaderLength(r: string): nat
    requires IsResponse(r)
  {
    Find(r, "\r\n\r\n") + 4
  }

  lemma ResponseLength(r: string)
    requires IsResponse(r)
    ensures ParseHeader(r) == Length(|r|) && 0 < HeaderLength(r) <= |r|
  {
  }

  /** The line of the length ends no later than the header. */
  lemma LengthLineInHeader(r: string)
    requires IsResponse(r)
    ensures 0 <= Find(r, CRLF, Find(r, LENGTH_KEY)) <= Find(r, HEADER_END)
  {
    var end := Find(r, HEADER_END);
    assert r[end..end + 4][..2] == r[end..end + 2];
    assert At(r, CRLF, end);
  }

  lemma LengthTextAt(msg: string, cl: nat, e: nat, value: string)
    requires Find(msg, LENGTH_KEY) == cl && Find(msg, CRLF, cl) == e
    requires cl + |LENGTH_KEY| <= e <= |msg| && msg[cl + |LENGTH_KEY|..e] == value
    ensures LengthText(msg) == Some(value)
  {
  }

  lemma SliceOfPrefix(p: string, rest: string, i: nat, j: nat)
    requires i <= j <= |p|
    ensures p[i..j] == (p + rest)[i..j]
  {
  }

  lemma LengthInPrefix(p: string, rest: string)
    requires IsResponse(p + rest) && |p| >= HeaderLength(p + rest)
    ensures LengthText(p) == LengthText(p + rest)
  {
    var r := p + rest;
    var cl := Find(r, LENGTH_KEY);
    var e := Find(r, CRLF, cl);
    LengthLineInHeader(r);
    LineAfterKey(r, cl);
    FindInPrefix(p, rest, LENGTH_KEY, 0);
    FindInPrefix(p, rest, CRLF, cl);
    SliceOfPrefix(p, rest, cl + |LENGTH_KEY|, e);
    LengthTextAt(p, cl, e, p[cl + |LENGTH_KEY|..e]);
  }

  lemma ShortScan(p: string, rest: string)
    requires IsResponse(p + rest) && |p| < HeaderLength(p + rest)
    ensures ParseHeader(p) == Incomplete
  {
    FindInPrefix(p, rest, HEADER_END, 0);
  }

  lemma ScanIs(msg: string, end: nat, text: string, n: int)
    requires Find(msg, HEADER_END) == end && LengthText(msg) == Some(text) && StoI(text) == Some(n)
    ensures ParseHeader(msg) == Length((end + 4 + n) % TWO64)
  {
  }

  lemma LengthOf(r: string)
    requires IsResponse(r)
    ensures LengthText(r).Some? && StoI(LengthText(r).value) == Some(|r| - HeaderLength(r))
  {
  }

  lemma EndInPrefix(p: string, rest: string)
    requires IsResponse(p + rest) && |p| >= HeaderLength(p + rest)
    ensures Find(p, HEADER_END) == HeaderLength(p + rest) - 4
  {
    FindInPrefix(p, rest, HEADER_END, 0);
  }

  lemma ScanLength(msg: string, end: nat, text: string, length: nat)
    requires Find(msg, HEADER_END) == end && LengthText(msg) == Some(text) && StoI(text) == Some(length - end - 4)
    requires length < TWO64
    ensures ParseHeader(msg) == Length(length)
  {
    ScanIs(msg, end, text, length - end - 4);
    assert length % TWO64 == length;
  }

  lemma LongScan(p: string, rest: string)
    requires IsResponse(p + rest) && |p| >= HeaderLength(p + rest)
    ensures ParseHeader(p) == Length(|p + rest|)
  {
    EndInPrefix(p, rest);
    LengthInPrefix(p, rest);
    LengthOf(p + rest);
    ScanLength(p, HeaderLength(p + rest) - 4, LengthText(p + rest).value, |p + rest|);
  }

  /** A part of a response that holds the whole header yields the same length as all of it; a shorter
      part yields none. */
  lemma PrefixScan(p: string, rest: string)
    requires IsResponse(p + rest)
    ensures ParseHeader(p) == if |p| < HeaderLength(p + rest) then Incomplete else Length(|p + rest|)
  {
    if |p| < HeaderLength(p + rest) {
      ShortScan(p, rest);
    } else {
      LongScan(p, rest);
    }
  }

  /** Bytes behind a response do not change its length. */
  lemma ScanBeyond(r: string, extra: string)
    requires IsResponse(r)
    ensures ParseHeader(r + extra) == Length(|r|)
  {
    var cl := Find(r, LENGTH_KEY);
    var e := Find(r, CRLF, cl);
    LengthLineInHeader(r);
    LineAfterKey(r, cl);
    FindExtends(r, extra, HEADER_END, 0);
    FindExtends(r, extra, LENGTH_KEY, 0);
    FindExtends(r, extra, CRLF, cl);
    SliceOfPrefix(r, extra, cl + |LENGTH_KEY|, e);
    LengthTextAt(r + extra, cl, e, r[cl + |LENGTH_KEY|..e]);
    LengthOf(r);
    LengthTextAt(r, cl, e, r[cl + |LENGTH_KEY|..e]);
    ScanLength(r + extra, HeaderLength(r) - 4, r[cl + |LENGTH_KEY|..e], |r|);
  }

  // ----- the format of a response

  predicate NoReturn(s: string) { forall i :: 0 <= i < |s| ==> s[i] != '\r' }

  lemma EndOfLine(line: string, tail: string, head: string)
    requires NoReturn(line)
    ensures Find(head + (line + (CRLF + tail)), CRLF, |head|) == |head + line|
  {
    var s := head + (line + (CRLF + tail));
    assert s[|head + line|..|head + line| + 2] == CRLF;
    assert At(s, CRLF, |head + line|);
    AtChar(s, CRLF, Find(s, CRLF, |head|), 0);
    assert forall i :: |head| <= i < |head + line| ==> s[i] == line[i - |head|];
  }

  lemma LinePieces(head: string, key: string, value: string, tail: string)
    ensures var s := head + (key + (value + tail));
      && s == head + ((key + value) + tail)
      && |head| + |key| <= |head + (key + value)| <= |s|
      && s[|head| + |key|..|head + (key + value)|] == value
  {
    assert head + (key + (value + tail)) == head + ((key + value) + tail);
  }

  lemma LengthLine(head: string, value: string, tail: string)
    requires !Contains(head, LENGTH_KEY) && NoReturn(value)
    ensures LengthText(head + (LENGTH_KEY + (value + (CRLF + tail)))) == Some(value)
    ensures Find(head + (LENGTH_KEY + (value + (CRLF + tail))), LENGTH_KEY) == |head|
  {
    FirstKey(head, LENGTH_KEY, value + (CRLF + tail));
    LinePieces(head, LENGTH_KEY, value, CRLF + tail);
    EndOfLine(LENGTH_KEY + value, tail, head);
    LengthTextAt(head + (LENGTH_KEY + (value + (CRLF + tail))), |head|, |head + (LENGTH_KEY + value)|, value);
  }

  lemma PrintNoReturn(n: nat)
    ensures NoReturn(Print(n))
  {
    assert AllDigits(PrintNat(n));
  }

  /** What is read from a header with a length line, once it is complete: the length of the message, modulo
      the size of an unsigned number if it is negative. A text without the line, or without a blank line, says
      nothing yet. */
  lemma HeaderRead(head: string, value: string, tail: string)
    requires !Contains(head, "Content-Length: ") && NoReturn(value)
    ensures var msg := head + ("Content-Length: " + (value + ("\r\n" + tail)));
      var end := Find(msg, "\r\n\r\n");
      ParseHeader(msg) == if end == -1 then Incomplete else match StoI(value)
        case None => BadNumber
        case Some(n) => Length((end + 4 + n) % 18446744073709551616)
  {
    LengthLine(head, value, tail);
  }

  lemma HeaderMissing(msg: string)
    requires !Contains(msg, "Content-Length: ") || !Contains(msg, "\r\n\r\n")
    ensures ParseHeader(msg) == Incomplete
  {
  }

  /** Any header lines, then a line with the length of the body, then more lines, a blank line and the
      body: this is a response, and its length is read from its header. */
  lemma ResponseFormat(head: string, more: string, body: string)
    requires !Contains(head, "Content-Length: ") && |body| <= INT_MAX
    requires var header := head + ("Content-Length: " + (Print(|body|) + ("\r\n" + more)));
      && Find(header + "\r\n\r\n", "\r\n\r\n") == |header|
      && |header| + 4 + |body| < TWO64
    ensures var header := head + ("Content-Length: " + (Print(|body|) + ("\r\n" + more)));
      IsResponse(header + "\r\n\r\n" + body) && HeaderLength(header + "\r\n\r\n" + body) == |header| + 4
  {
    var header := head + (LENGTH_KEY + (Print(|body|) + (CRLF + more)));
    var r := header + HEADER_END + body;
    FindExtends(header + HEADER_END, body, HEADER_END, 0);
    var tail := more + HEADER_END + body;
    assert r == head + (LENGTH_KEY + (Print(|body|) + (CRLF + tail)));
    PrintNoReturn(|body|);
    LengthLine(head, Print(|body|), tail);
    LineAfterKey(r, Find(r, LENGTH_KEY));
    StoIPrint(|body|);
  }
}
