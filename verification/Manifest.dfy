/** Reading the bitrates of a manifest by finding and erasing its attributes one after the other. */
module Manifest {
  import opened Text

  const KEY := "bitrate=\""
  const QUOTE := "\""

  /** The first attribute of a text: its value, and the text without it. */
  datatype Cut = NoKey | Unclosed | Cut(value: string, rest: string)

  function CutFirst(msg: string): (c: Cut)
    ensures c.NoKey? <==> !Contains(msg, KEY)
    ensures c.Cut? ==> |c.rest| < |msg|
  {
    var p := Find(msg, KEY);
    if p == -1 then NoKey
    else
      var e := Find(msg, QUOTE, p + |KEY|);
      if e == -1 then Unclosed else Cut(msg[p + |KEY|..e], msg[..p] + msg[e + 1..])
  }

  /** The loop of `parse_xml`: the text left over, and the bitrates in the order they were found. None
      when a quote is not closed or a value is no number. */
  function ParseAttributes(msg: string): Option<(string, seq<int>)>
    decreases |msg|
  {
    match CutFirst(msg)
    case NoKey => Some((msg, []))
    case Unclosed => None
    case Cut(value, rest) => Prepend(StoI(value), ParseAttributes(rest))
  }

  /** The bitrate just read, in front of the ones read after it. */
  function Prepend(b: Option<int>, r: Option<(string, seq<int>)>): Option<(string, seq<int>)> {
    if b.None? || r.None? then None else Some((r.value.0, [b.value] + r.value.1))
  }

  /** Several bitrates already read, in front of the ones read after them. */
  function PrependAll(bs: seq<int>, r: Option<(string, seq<int>)>): Option<(string, seq<int>)> {
    if r.None? then None else Some((r.value.0, bs + r.value.1))
  }

  lemma PrependAllStep(bs: seq<int>, b: int, r: Option<(string, seq<int>)>)
    ensures PrependAll([], r) == r
    ensures PrependAll(bs, Prepend(Some(b), r)) == PrependAll(bs + [b], r)
  {
    if r.Some? {
      assert [] + r.value.1 == r.value.1;
      assert bs + ([b] + r.value.1) == bs + [b] + r.value.1;
    }
  }

  lemma PrependAllEnd(bs: seq<int>, msg: string)
    requires CutFirst(msg) == NoKey
    ensures PrependAll(bs, ParseAttributes(msg)) == Some((msg, bs))
  {
    assert bs + [] == bs;
  }

  /** Nothing that looks like an attribute is left over. */
  lemma {:induction false} NothingLeft(msg: string)
    ensures ParseAttributes(msg).Some? ==> !Contains(ParseAttributes(msg).value.0, KEY)
    decreases |msg|
  {
    var c := CutFirst(msg);
    if c.Cut? {
      NothingLeft(c.rest);
    }
  }

  /** Every bitrate found fits an `int`. */
  lemma {:induction false} NumbersAreInts(msg: string)
    requires ParseAttributes(msg).Some?
    ensures forall b :: b in ParseAttributes(msg).value.1 ==> IsInt32(b)
    decreases |msg|
  {
    var c := CutFirst(msg);
    if c.Cut? {
      NumbersAreInts(c.rest);
    }
  }

  // ----- documents: texts with attributes between them

  /** `texts[0] bitrate="values[0]" texts[1] ... texts[n]` */
  function Document(texts: seq<string>, values: seq<string>): string
    requires |texts| == |values| + 1
  {
    if values == [] then texts[0]
    else texts[0] + ("bitrate=\"" + (values[0] + ("\"" + Document(texts[1..], values[1..]))))
  }

  /** The document without its attributes. */
  function Texts(texts: seq<string>): string {
    if texts == [] then "" else texts[0] + Texts(texts[1..])
  }

  predicate IsValue(v: string) { Lacks(v, '"') && StoI(v).Some? }

  ghost predicate AllValues(values: seq<string>) {
    forall i :: 0 <= i < |values| ==> IsValue(values[i])
  }

  function Numbers(values: seq<string>): seq<int>
    requires AllValues(values)
  {
    if values == [] then [] else [StoI(values[0]).value] + Numbers(values[1..])
  }

  lemma ClosingQuote(head: string, v: string, quote: string, tail: string)
    requires |quote| == 1 && Lacks(v, quote[0])
    ensures Find(head + (v + (quote + tail)), quote, |head|) == |head| + |v|
  {
    var s := head + (v + (quote + tail));
    assert s[|head| + |v|..|head| + |v| + 1] == quote;
    assert At(s, quote, |head| + |v|);
    var e := Find(s, quote, |head|);
    AtChar(s, quote, e, 0);
    assert forall i :: |head| <= i < |head| + |v| ==> s[i] == v[i - |head|];
  }

  lemma CutAt(msg: string, p: nat, e: nat, value: string, rest: string)
    requires Find(msg, KEY) == p && p + 9 <= e < |msg| && Find(msg, QUOTE, p + 9) == e
    requires msg[p + 9..e] == value && msg[..p] + msg[e + 1..] == rest
    ensures CutFirst(msg) == Cut(value, rest)
  {
  }

  lemma Pieces(t: string, key: string, v: string, quote: string, tail: string, msg: string)
    requires |quote| == 1 && msg == t + (key + (v + (quote + tail)))
    ensures msg == (t + key) + (v + (quote + tail)) && |t| + |key| + |v| < |msg|
    ensures msg[|t| + |key|..|t| + |key| + |v|] == v && msg[..|t|] + msg[|t| + |key| + |v| + 1..] == t + tail
  {
    assert msg == (t + key) + (v + (quote + tail));
    assert msg[..|t|] == t && msg[|t| + |key| + |v| + 1..] == tail;
  }

  /** Where an attribute stands behind a text without one. */
  lemma AttributeAt(t: string, key: string, v: string, quote: string, tail: string, msg: string)
    requires IsKey(key) && !Contains(t, key) && |quote| == 1 && Lacks(v, quote[0])
    requires msg == t + (key + (v + (quote + tail)))
    ensures Find(msg, key) == |t| && Find(msg, quote, |t| + |key|) == |t| + |key| + |v|
  {
    FirstKey(t, key, v + (quote + tail));
    Pieces(t, key, v, quote, tail, msg);
    ClosingQuote(t + key, v, quote, tail);
  }

  /** An attribute behind a text without one, with the value and the text around it. */
  lemma AttributeIs(t: string, key: string, v: string, quote: string, tail: string, msg: string, n: nat)
    requires IsKey(key) && !Contains(t, key) && |quote| == 1 && Lacks(v, quote[0]) && n == |key|
    requires msg == t + (key + (v + (quote + tail)))
    ensures Find(msg, key) == |t| && |t| + n + |v| < |msg| && Find(msg, quote, |t| + n) == |t| + n + |v|
    ensures msg[|t| + n..|t| + n + |v|] == v && msg[..|t|] + msg[|t| + n + |v| + 1..] == t + tail
  {
    AttributeAt(t, key, v, quote, tail, msg);
    Pieces(t, key, v, quote, tail, msg);
  }

  /** One turn of the loop on a text whose first attribute is known. */
  lemma ParseFirst(t: string, v: string, tail: string)
    requires !Contains(t, KEY) && Lacks(v, '"')
    ensures CutFirst(t + (KEY + (v + (QUOTE + tail)))) == Cut(v, t + tail)
  {
    CutOne(t, v, tail, t + (KEY + (v + (QUOTE + tail))));
  }

  lemma CutOne(t: string, v: string, tail: string, msg: string)
    requires !Contains(t, KEY) && Lacks(v, '"') && msg == t + (KEY + (v + (QUOTE + tail)))
    ensures CutFirst(msg) == Cut(v, t + tail)
  {
    AttributeIs(t, KEY, v, QUOTE, tail, msg, 9);
    CutAt(msg, |t|, |t| + 9 + |v|, v, t + tail);
  }

  lemma {:induction false} TextsLead(texts: seq<string>)
    requires texts != [] && !Contains(Texts(texts), KEY)
    ensures !Contains(texts[0], KEY)
  {
    if Contains(texts[0], KEY) {
      FindExtends(texts[0], Texts(texts[1..]), KEY, 0);
    }
  }

  /** Joining the first two texts, as erasing the attribute between them does. */
  lemma JoinFirst(texts: seq<string>, values: seq<string>)
    requires |texts| == |values| + 1 && values != []
    ensures var joined := [texts[0] + texts[1]] + texts[2..];
      |joined| == |values| && Texts(joined) == Texts(texts)
      && Document(joined, values[1..]) == texts[0] + Document(texts[1..], values[1..])
  {
    var joined := [texts[0] + texts[1]] + texts[2..];
    assert joined[1..] == texts[2..] == texts[1..][1..];
    assert Texts(texts) == texts[0] + (texts[1] + Texts(texts[1..][1..]));
    assert Texts(joined) == (texts[0] + texts[1]) + Texts(texts[2..]);
    if |values| > 1 {
      var rest := KEY + (values[1..][0] + (QUOTE + Document(texts[2..], values[1..][1..])));
      assert Document(joined, values[1..]) == (texts[0] + texts[1]) + rest;
      assert Document(texts[1..], values[1..]) == texts[1] + rest;
    }
  }

  lemma {:induction false} ParseDocument(texts: seq<string>, values: seq<string>)
    requires |texts| == |values| + 1 && AllValues(values)
    requires !Contains(Texts(texts), KEY)
    ensures ParseAttributes(Document(texts, values)) == Some((Texts(texts), Numbers(values)))
    decreases |values|
  {
    TextsLead(texts);
    if values == [] {
      assert Texts(texts) == texts[0] + Texts(texts[1..]) && texts[1..] == [];
      assert texts[0] + "" == texts[0];
    } else {
      assert IsValue(values[0]);
      var joined := [texts[0] + texts[1]] + texts[2..];
      JoinFirst(texts, values);
      ParseDocument(joined, values[1..]);
      ParseFirst(texts[0], values[0], Document(texts[1..], values[1..]));
    }
  }

  /** Erasing the attributes one by one yields exactly the listed bitrates, in document order, and the
      text between them, exactly when that text holds no attribute once it is joined. */
  lemma ManifestExact(texts: seq<string>, values: seq<string>)
    requires |texts| == |values| + 1 && AllValues(values)
    ensures ParseAttributes(Document(texts, values)) == Some((Texts(texts), Numbers(values)))
       <==> !Contains(Texts(texts), "bitrate=\"")
  {
    if !Contains(Texts(texts), KEY) {
      ParseDocument(texts, values);
    } else {
      NothingLeft(Document(texts, values));
    }
  }

  /** Values without quotes, but not all of them numbers: the program throws. */
  lemma {:induction false} ManifestThrows(texts: seq<string>, values: seq<string>)
    requires |texts| == |values| + 1 && !Contains(Texts(texts), "bitrate=\"")
    requires forall i :: 0 <= i < |values| ==> Lacks(values[i], '"')
    ensures ParseAttributes(Document(texts, values)).Some? <==> forall i :: 0 <= i < |values| ==> StoI(values[i]).Some?
    decreases |values|
  {
    if forall i :: 0 <= i < |values| ==> StoI(values[i]).Some? {
      assert forall i :: 0 <= i < |values| ==> IsValue(values[i]);
      ParseDocument(texts, values);
    } else {
      TextsLead(texts);
      ParseFirst(texts[0], values[0], Document(texts[1..], values[1..]));
      if StoI(values[0]).Some? {
        JoinFirst(texts, values);
        ManifestThrows([texts[0] + texts[1]] + texts[2..], values[1..]);
        assert !forall i :: 0 <= i < |values[1..]| ==> StoI(values[1..][i]).Some? by {
          var i :| 0 <= i < |values| && StoI(values[i]).None?;
          assert values[1..][i - 1] == values[i];
        }
      }
    }
  }
}
