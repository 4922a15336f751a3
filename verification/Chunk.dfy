/** Chunk requests: where the bitrate stands in the request, and replacing it. */
module Chunk {
  import opened Text

  const HTTP := " HTTP/1.1"
  const SEG := "Seg"
  const FRAG := "-Frag"
  const SLASH := "/"
  const TWO64 := 0x1_0000_0000_0000_0000

  /** The positions of the last `/`, `Seg` and `-Frag` before ` HTTP/1.1`; -1 stands for npos. */
  datatype Place = Place(slash: int, seg: int, frag: int)

  /** `msg.substr(0, msg.find(" HTTP/1.1"))` */
  function Front(msg: string): string {
    var h := Find(msg, HTTP);
    if h == -1 then msg else msg[..h]
  }

  /** Subtraction of unsigned positions, which wraps around. */
  function Gap(a: int, b: int): nat { (a - b) % TWO64 }

  function PlaceOf(front: string): Place {
    Place(RFind(front, SLASH), RFind(front, SEG), RFind(front, FRAG))
  }

  /** The request passes the check of `parse_bitrate`. */
  predicate IsChunk(p: Place) {
    p.seg != -1 && p.frag != -1 && Gap(p.frag, p.seg) >= 4 && Gap(p.seg, p.slash) >= 2
  }

  function Locate(msg: string): (r: Option<Place>)
    ensures r.Some? ==> -1 <= r.value.slash < |msg| && 0 <= r.value.seg < |msg|
  {
    var p := PlaceOf(Front(msg));
    if IsChunk(p) then Some(p) else None
  }

  function Rewritten(msg: string, p: Place, bitrate: int): string
    requires -1 <= p.slash < |msg| && 0 <= p.seg <= |msg|
  {
    msg[..p.slash + 1] + Print(bitrate) + msg[p.seg..]
  }

  /** `msg.substr(from, n)` for a position inside the text. */
  function Substr(msg: string, from: nat, n: nat): string
    requires from <= |msg|
  {
    if from + n > |msg| then msg[from..] else msg[from..from + n]
  }

  /** The file name logged for a rewritten request. */
  function ChunkName(msg: string, slash: int): string
    requires -1 <= slash < |msg|
  {
    Substr(msg, slash + 1, Gap(Find(msg, HTTP), slash + 1))
  }

  /** The request as it goes out: unchanged unless it passes the check. */
  function Rewrite(msg: string, bitrate: int): string {
    match Locate(msg)
    case None => msg
    case Some(p) => Rewritten(msg, p, bitrate)
  }

  // ----- the pieces of a rewritten request

  lemma HttpChars(s: string, j: int)
    requires At(s, HTTP, j)
    ensures s[j] == ' ' && s[j + 1] == 'H' && s[j + 2] == 'T' && s[j + 3] == 'T' && s[j + 4] == 'P'
    ensures s[j + 5] == '/' && s[j + 6] == '1' && s[j + 7] == '.' && s[j + 8] == '1'
  {
    var w := s[j..j + 9];
    assert forall k :: 0 <= k < 9 ==> w[k] == s[j + k];
    assert w == HTTP;
  }

  lemma FragChars(s: string, j: int)
    requires At(s, FRAG, j)
    ensures s[j] == '-' && s[j + 1] == 'F' && s[j + 2] == 'r' && s[j + 3] == 'a' && s[j + 4] == 'g'
  {
    var w := s[j..j + 5];
    assert forall k :: 0 <= k < 5 ==> w[k] == s[j + k];
    assert w == FRAG;
  }

  /** A printed bitrate: digits, possibly behind a minus sign. */
  predicate IsNumeral(P: string) {
    P != "" && forall i :: 0 <= i < |P| ==> IsDigit(P[i]) || (i == 0 && P[i] == '-')
  }

  lemma PrintIsNumeral(x: int)
    ensures IsNumeral(Print(x))
  {
    var d := if x < 0 then PrintNat(-x) else PrintNat(x);
    assert AllDigits(d);
  }

  lemma PrintLength(x: int)
    requires IsInt32(x)
    ensures 0 < |Print(x)| <= 11
  {
    assert Pow10(3) == 1000 && Pow10(6) == 1000 * Pow10(3) && Pow10(9) == 1000 * Pow10(6) && Pow10(10) == 10 * Pow10(9);
    PrintNatLength(if x < 0 then -x else x, 10);
  }

  lemma GapSmall(a: int, b: int)
    requires b <= a < b + TWO64
    ensures Gap(a, b) == a - b
  {
  }

  /** A difference below zero wraps around to a large number. */
  lemma GapWraps(a: int, b: int)
    requires a < b < a + TWO64
    ensures Gap(a, b) == a - b + TWO64
  {
  }

  /** The text before the rewrite is `A` up to the last slash, which may be missing. */
  predicate IsHead(A: string) { A == "" || A[|A| - 1] == '/' }

  /** ` HTTP/1.1` cannot lie across the numeral between a slash and `Seg`. */
  lemma NoStraddle(A: string, P: string, B: string, j: int)
    requires IsHead(A) && IsNumeral(P) && B != "" && B[0] == 'S'
    requires At(A + P + B, HTTP, j)
    ensures j + |HTTP| <= |A| || |A + P| <= j
  {
    var s := A + P + B;
    HttpChars(s, j);
    assert (A == "" || s[|A| - 1] == '/') && s[|A + P|] == 'S';
    assert forall i :: |A| <= i < |A + P| ==> s[i] == P[i - |A|];
    assert forall i :: |A| <= i < |A + P| ==> IsDigit(s[i]) || s[i] == '-';
  }

  /** `-Frag` cannot lie across the numeral either. */
  lemma NoFragStraddle(A: string, P: string, B: string, j: int)
    requires IsHead(A) && IsNumeral(P) && B != "" && B[0] == 'S'
    requires At(A + P + B, FRAG, j)
    ensures j + |FRAG| <= |A| || |A + P| <= j
  {
    var s := A + P + B;
    FragChars(s, j);
    assert (A == "" || s[|A| - 1] == '/') && s[|A + P|] == 'S';
    assert forall i :: |A| <= i < |A + P| ==> s[i] == P[i - |A|];
    assert forall i :: |A| <= i < |A + P| ==> IsDigit(s[i]) || s[i] == '-';
  }

  /** In the tail of a text, the last occurrence of a pattern moves with the tail. */
  lemma LastMoves(Y: string, Z: string, F: string, pat: string)
    ensures RFind(Y + F, pat) >= |Y| ==> RFind(Z + F, pat) == RFind(Y + F, pat) - |Y| + |Z|
    ensures RFind(Y + F, pat) < |Y| ==> RFind(Z + F, pat) < |Z|
  {
    var r, r' := RFind(Y + F, pat), RFind(Z + F, pat);
    if r >= |Y| {
      AtSuffix(Y, F, pat, r);
      AtSuffix(Z, F, pat, r - |Y| + |Z|);
    }
    if r' >= |Z| {
      AtSuffix(Z, F, pat, r');
      AtSuffix(Y, F, pat, r' - |Z| + |Y|);
    }
  }

  /** The front of a message starts with `A` and ends with `F`, which may overlap; `A` is empty or ends
      with a slash, and `F` starts with an S. */
  predicate Covers(front: string, A: string, F: string) {
    && |A| <= |front| && front[..|A|] == A && IsHead(A)
    && |F| <= |front| && front[|front| - |F|..] == F && F != "" && F[0] == 'S'
  }

  /** They are what stands before and behind the piece that the rewrite replaces. */
  predicate IsCut(front: string, A: string, F: string) {
    Covers(front, A, F) && RFind(front, SEG) == |front| - |F| && RFind(front, SLASH) == |A| - 1
  }

  lemma CutOf(front: string)
    requires RFind(front, SEG) != -1
    ensures IsCut(front, front[..RFind(front, SLASH) + 1], front[RFind(front, SEG)..])
    ensures RFind(front, SLASH) != RFind(front, SEG)
  {
    AtChar(front, SEG, RFind(front, SEG), 0);
    if RFind(front, SLASH) != -1 {
      AtChar(front, SLASH, RFind(front, SLASH), 0);
    }
  }

  /** `pat` first occurs where the front ends, or there is no more text and no occurrence. */
  ghost predicate EndsAt(front: string, T: string, pat: string) {
    Find(front + T, pat) == |front| || (Find(front + T, pat) == -1 && T == "")
  }

  lemma NotInHead(front: string, T: string, A: string, B: string, pat: string, j: int)
    requires |A| <= |front| && front[..|A|] == A && EndsAt(front, T, pat) && pat != ""
    requires At(A + B, pat, j)
    ensures |A| < j + |pat|
  {
    var rest := front[|A|..] + T;
    assert front + T == A + rest;
    if j + |pat| <= |A| {
      AtPrefix(A, B, pat, j);
      AtPrefix(A, rest, pat, j);
    }
  }

  /** An occurrence behind the numeral is one in the message, and conversely. */
  lemma AtInTail(front: string, Z: string, F: string, T: string, pat: string, j: int)
    requires |F| <= |front| && front[|front| - |F|..] == F && |Z| <= j
    ensures At(Z + (F + T), pat, j) <==> At(front + T, pat, j - |Z| + |front| - |F|)
  {
    var Y := front[..|front| - |F|];
    assert front == Y + F;
    assert front + T == Y + (F + T);
    AtSuffix(Z, F + T, pat, j);
    AtSuffix(Y, F + T, pat, j - |Z| + |Y|);
  }

  /** An occurrence in the new text that does not lie across the numeral is not before the end of the front. */
  lemma AtInRest(front: string, A: string, P: string, F: string, T: string, pat: string, j: int)
    requires Covers(front, A, F) && EndsAt(front, T, pat) && pat != ""
    requires At(A + P + (F + T), pat, j) && (j + |pat| <= |A| || |A + P| <= j)
    ensures Find(front + T, pat) == |front| && |A + P + F| <= j
  {
    RestNotInHead(front, A, P, F + T, T, pat, j);
    AtInTail(front, A + P, F, T, pat, j);
  }

  lemma RestNotInHead(front: string, A: string, P: string, B: string, T: string, pat: string, j: int)
    requires |A| <= |front| && front[..|A|] == A && EndsAt(front, T, pat) && pat != ""
    requires At(A + P + B, pat, j)
    ensures |A| < j + |pat|
  {
    assert A + P + B == A + (P + B);
    NotInHead(front, T, A, P + B, pat, j);
  }

  lemma FrontAt(front: string, T: string)
    ensures Front(front + T) == front <==> EndsAt(front, T, HTTP)
  {
    assert T == "" ==> front + T == front;
    assert (front + T)[..|front|] == front;
  }

  /** The end of the front moves with the text. */
  lemma EndStays(front: string, A: string, P: string, F: string, T: string, pat: string)
    requires Covers(front, A, F) && EndsAt(front, T, pat) && pat != ""
    requires var j := Find(A + P + (F + T), pat); j == -1 || j + |pat| <= |A| || |A + P| <= j
    ensures Find(A + P + (F + T), pat) == (if Find(front + T, pat) == -1 then -1 else |A + P + F|)
  {
    var j := Find(A + P + (F + T), pat);
    if j != -1 {
      AtInRest(front, A, P, F, T, pat, j);
    }
    if Find(front + T, pat) != -1 {
      AtInTail(front, A + P, F, T, pat, |A + P + F|);
    }
  }

  /** The front of the new text is the new front. */
  lemma FrontStays(front: string, A: string, P: string, F: string, T: string)
    requires Covers(front, A, F) && IsNumeral(P) && Front(front + T) == front
    ensures Front(A + P + F + T) == A + P + F
    ensures Find(A + P + F + T, HTTP) == (if Find(front + T, HTTP) == -1 then -1 else |A + P + F|)
  {
    assert A + P + F + T == A + P + (F + T);
    FrontAt(front, T);
    var j := Find(A + P + (F + T), HTTP);
    if j != -1 {
      NoStraddle(A, P, F + T, j);
    }
    EndStays(front, A, P, F, T, HTTP);
    FrontAt(A + P + F, T);
  }

  /** The last `Seg` of the new front stands right behind the numeral. */
  lemma SegMoves(front: string, A: string, P: string, F: string)
    requires IsCut(front, A, F)
    ensures RFind(A + P + F, SEG) == |A + P|
  {
    var Y := front[..|front| - |F|];
    assert front == Y + F;
    LastMoves(Y, A + P, F, SEG);
  }

  /** The last slash stays in place when it was before `Seg`, and is a later one otherwise. */
  lemma SlashMoves(front: string, A: string, P: string, F: string)
    requires IsCut(front, A, F) && IsNumeral(P)
    ensures RFind(A + P + F, SLASH)
         == if |A| <= |front| - |F| then |A| - 1 else |A + P| + (|A| - 1 - (|front| - |F|))
  {
    var Y, s := front[..|front| - |F|], A + P + F;
    assert front == Y + F;
    LastMoves(Y, A + P, F, SLASH);
    if |A| <= |Y| {
      var r := RFind(s, SLASH);
      if r != -1 {
        AtChar(s, SLASH, r, 0);
      }
      assert forall i :: |A| <= i < |A + P| ==> s[i] == P[i - |A|];
      assert A != "" ==> s[|A| - 1..|A|] == SLASH && At(s, SLASH, |A| - 1);
    }
  }

  /** `-Frag` in the new text before the numeral's end is in the text before the slash. */
  lemma FragBefore(front: string, A: string, P: string, F: string, j: int)
    requires Covers(front, A, F) && IsNumeral(P) && At(A + P + F, FRAG, j) && j < |A + P|
    ensures At(A, FRAG, j) && At(front, FRAG, j)
  {
    NoFragStraddle(A, P, F, j);
    assert A + P + F == A + (P + F) && front == A + front[|A|..];
    AtPrefix(A, P + F, FRAG, j);
    AtPrefix(A, front[|A|..], FRAG, j);
  }

  lemma AtHead(A: string, B: string, pat: string, j: int)
    requires At(A, pat, j)
    ensures At(A + B, pat, j)
  {
    AtPrefix(A, B, pat, j);
  }

  /** The last `-Frag` is lost unless one stands in the text before the slash. */
  lemma FragStays(front: string, A: string, P: string, F: string)
    requires Covers(front, A, F) && IsNumeral(P) && RFind(A + P + F, FRAG) < |A + P|
    ensures RFind(A + P + F, FRAG) < |A| && RFind(A + P + F, FRAG) <= RFind(front, FRAG)
    ensures RFind(A + P + F, FRAG) != -1 <==> Contains(A, FRAG)
  {
    var frag' := RFind(A + P + F, FRAG);
    if frag' != -1 {
      FragBefore(front, A, P, F, frag');
    }
    if Contains(A, FRAG) {
      assert A + P + F == A + (P + F);
      AtHead(A, P + F, FRAG, Find(A, FRAG));
    }
  }

  /** The last `-Frag` moves with the text behind `Seg`, stays in the text before the slash, and is lost
      from the piece in between. */
  lemma FragMoves(front: string, A: string, P: string, F: string)
    requires Covers(front, A, F) && IsNumeral(P) && RFind(front, FRAG) != -1
    ensures var frag, frag', seg := RFind(front, FRAG), RFind(A + P + F, FRAG), |front| - |F|;
      && (frag >= seg ==> frag' == frag - seg + |A + P|)
      && (frag < seg ==> frag' < |A| && frag' <= frag && (frag' != -1 <==> Contains(A, FRAG)))
      && (frag < seg && frag < |A| ==> frag' == frag)
  {
    var frag, Y := RFind(front, FRAG), front[..|front| - |F|];
    assert front == Y + F;
    LastMoves(Y, A + P, F, FRAG);
    if frag < |Y| {
      FragStays(front, A, P, F);
      FragInHead(front, A, P, F, frag);
    }
  }

  /** An occurrence that starts before the last slash ends before it. */
  lemma FragInHead(front: string, A: string, P: string, F: string, j: nat)
    requires |A| <= |front| && front[..|A|] == A && IsHead(A) && At(front, FRAG, j)
    ensures j < |A| ==> At(A, FRAG, j) && At(A + P + F, FRAG, j)
  {
    if j < |A| {
      FragChars(front, j);
      assert A[|A| - 1] == front[|A| - 1];
      assert front == A + front[|A|..] && A + P + F == A + (P + F);
      AtPrefix(A, front[|A|..], FRAG, j);
      AtPrefix(A, P + F, FRAG, j);
    }
  }

  // ----- rewriting a request that passes the check

  /** The request has less than half the length of the address space, as every string has. */
  predicate Fits(msg: string) { 2 * |msg| + 32 < TWO64 }

  /** The pieces of a request that passes the check. */
  lemma Pieces(msg: string) returns (A: string, F: string, T: string)
    requires IsChunk(PlaceOf(Front(msg)))
    ensures var p, front := PlaceOf(Front(msg)), Front(msg);
      && msg == front + T && IsCut(front, A, F) && p.slash == |A| - 1 && p.seg == |front| - |F| && p.slash != p.seg
      && F == front[p.seg..] && A == msg[..p.slash + 1] && F + T == msg[p.seg..]
  {
    var p, front := PlaceOf(Front(msg)), Front(msg);
    A, F, T := front[..p.slash + 1], front[p.seg..], msg[|front|..];
    CutOf(front);
    PlaceBounds(front);
    Slices(msg, |front|, p.slash + 1, p.seg);
  }

  lemma Slices(msg: string, n: nat, i: nat, j: nat)
    requires i <= n <= |msg| && j <= n
    ensures msg == msg[..n] + msg[n..] && msg[..n][..i] == msg[..i] && msg[..n][j..] + msg[n..] == msg[j..]
  {
  }

  /** The same request rewritten. */
  lemma NewPieces(msg: string, bitrate: int, A: string, F: string, T: string)
    requires IsChunk(PlaceOf(Front(msg))) && msg == Front(msg) + T && IsCut(Front(msg), A, F)
    requires A == msg[..PlaceOf(Front(msg)).slash + 1] && F + T == msg[PlaceOf(Front(msg)).seg..]
    ensures Rewrite(msg, bitrate) == A + Print(bitrate) + F + T && IsNumeral(Print(bitrate))
    ensures Front(Rewrite(msg, bitrate)) == A + Print(bitrate) + F
  {
    PrintIsNumeral(bitrate);
    assert A + Print(bitrate) + F + T == A + Print(bitrate) + (F + T);
    FrontStays(Front(msg), A, Print(bitrate), F, T);
  }

  /** Where the last slash and `Seg` are after the rewrite. Behind `Seg`, the slash keeps its distance. */
  lemma RewriteMoves(msg: string, bitrate: int)
    requires IsChunk(PlaceOf(Front(msg)))
    ensures var p, p', P := PlaceOf(Front(msg)), PlaceOf(Front(Rewrite(msg, bitrate))), Print(bitrate);
      && p'.seg == p.slash + 1 + |P|
      && p'.slash == (if p.slash < p.seg then p.slash else p'.seg + p.slash - p.seg)
      && (p.frag >= p.seg ==> p'.frag == p.frag - p.seg + p'.seg)
      && (p.frag < p.seg ==> p'.frag <= p.slash && (p.frag <= p.slash ==> p'.frag != -1))
      && (p.frag < p.seg ==> (p'.frag != -1 <==> Contains(msg[..p.slash + 1], FRAG)))
      && (p.frag < p.slash < p.seg ==> p'.frag == p.frag)
  {
    var A, F, T := Pieces(msg);
    NewPieces(msg, bitrate, A, F, T);
    var front, P := Front(msg), Print(bitrate);
    SegMoves(front, A, P, F);
    SlashMoves(front, A, P, F);
    FragMoves(front, A, P, F);
  }

  /** The check passes again unless `-Frag` was lost with the replaced piece. */
  lemma CheckAgain(p: Place, p': Place, n: int)
    requires IsChunk(p) && 0 < n <= 11 && -1 <= p.slash && p.slash != p.seg
    requires p.slash < TWO64 - 32 && 0 <= p.seg < TWO64 - 32 && 0 <= p.frag < TWO64 - 32
    requires p'.seg == p.slash + 1 + n && p'.slash == (if p.slash < p.seg then p.slash else p'.seg + p.slash - p.seg)
    requires p.frag >= p.seg ==> p'.frag == p.frag - p.seg + p'.seg
    requires p.frag < p.seg ==> -1 <= p'.frag <= p.slash
    ensures IsChunk(p') <==> p'.frag != -1
  {
    if p.slash < p.seg {
      GapSmall(p'.seg, p'.slash);
    } else {
      GapWraps(p'.seg, p'.slash);
    }
    if p.frag < p.seg && p'.frag != -1 {
      GapWraps(p'.frag, p'.seg);
    }
  }

  lemma PlaceBounds(front: string)
    ensures var p := PlaceOf(front); -1 <= p.slash < |front| && -1 <= p.seg < |front| && -1 <= p.frag < |front|
  {
  }

  /** `parse_bitrate` finds the rewritten request, unless its `-Frag` was lost. */
  lemma LocateAgain(msg: string, bitrate: int)
    requires IsChunk(PlaceOf(Front(msg))) && Fits(msg) && IsInt32(bitrate)
    ensures var p' := PlaceOf(Front(Rewrite(msg, bitrate)));
      Locate(Rewrite(msg, bitrate)) == if p'.frag != -1 then Some(p') else None
  {
    RewriteMoves(msg, bitrate);
    PrintLength(bitrate);
    PlaceBounds(Front(msg));
    PlaceBounds(Front(Rewrite(msg, bitrate)));
    CutOf(Front(msg));
    CheckAgain(PlaceOf(Front(msg)), PlaceOf(Front(Rewrite(msg, bitrate))), |Print(bitrate)|);
  }

  /** The rewrite replaces one piece, between the last slash and `Seg`, and `-Frag` is not in it. */
  predicate IsApart(p: Place) { p.slash < p.seg && (p.frag < p.slash || p.seg < p.frag) }

  /** Where the marks are once the piece between the last slash and `Seg` has `n` characters. */
  function Moved(p: Place, n: nat): Place {
    var seg' := p.slash + 1 + n;
    Place(p.slash, seg', if p.frag < p.seg then p.frag else p.frag - p.seg + seg')
  }

  lemma MovedApart(p: Place, p': Place, n: nat)
    requires -1 <= p.slash != p.seg && p.frag != p.seg && p.frag != p.slash && p.frag >= 0 && p.seg >= 0
    requires p'.seg == p.slash + 1 + n && p'.slash == (if p.slash < p.seg then p.slash else p'.seg + p.slash - p.seg)
    requires p.frag >= p.seg ==> p'.frag == p.frag - p.seg + p'.seg
    requires p.frag < p.seg ==> p'.frag <= p.slash
    requires p.frag < p.slash < p.seg ==> p'.frag == p.frag
    ensures (p' == Moved(p, n) && p'.frag != -1) <==> IsApart(p)
  {
  }

  /** Parsing the rewritten request finds each mark where it was, relative to the text that was kept, and
      the bitrate between the last slash and `Seg`. */
  ghost predicate Reparses(msg: string, bitrate: int)
    requires IsChunk(PlaceOf(Front(msg)))
  {
    var p, msg' := PlaceOf(Front(msg)), Rewrite(msg, bitrate);
    var seg' := p.slash + 1 + |Print(bitrate)|;
    && Locate(msg') == Some(Moved(p, |Print(bitrate)|))
    && StoI(msg'[p.slash + 1..seg']) == Some(bitrate)
  }

  /** The new bitrate stands behind the head, and the rest of the front follows it. */
  lemma RewriteFront(msg: string, bitrate: int)
    requires IsChunk(PlaceOf(Front(msg)))
    ensures var p := PlaceOf(Front(msg));
      Front(Rewrite(msg, bitrate)) == msg[..p.slash + 1] + Print(bitrate) + Front(msg)[p.seg..]
  {
    var A, F, T := Pieces(msg);
    NewPieces(msg, bitrate, A, F, T);
  }

  lemma RewriteText(msg: string, bitrate: int)
    requires IsChunk(PlaceOf(Front(msg))) && IsInt32(bitrate)
    ensures var p, msg', P := PlaceOf(Front(msg)), Rewrite(msg, bitrate), Print(bitrate);
      && msg' == msg[..p.slash + 1] + P + msg[p.seg..]
      && msg'[p.slash + 1..p.slash + 1 + |P|] == P && StoI(P) == Some(bitrate)
  {
    PlaceBounds(Front(msg));
    var p := PlaceOf(Front(msg));
    Middle(msg[..p.slash + 1], Print(bitrate), msg[p.seg..]);
    StoIPrint(bitrate);
  }

  lemma Middle(A: string, P: string, B: string)
    ensures (A + P + B)[|A|..|A| + |P|] == P
  {
  }

  /** For every request that passes the check, with or without wrapping around, and every bitrate: the
      rewritten request parses to that bitrate, with the same path, segment and fragment, exactly when the
      last slash comes before `Seg` and `-Frag` is not between them. */
  lemma RewriteReparses(msg: string, bitrate: int)
    requires IsChunk(PlaceOf(Front(msg))) && Fits(msg) && IsInt32(bitrate)
    ensures Reparses(msg, bitrate) <==> IsApart(PlaceOf(Front(msg)))
  {
    RewriteMoves(msg, bitrate);
    LocateAgain(msg, bitrate);
    RewriteText(msg, bitrate);
    CutOf(Front(msg));
    FragNotSeg(Front(msg));
    PlaceBounds(Front(msg));
    MovedApart(PlaceOf(Front(msg)), PlaceOf(Front(Rewrite(msg, bitrate))), |Print(bitrate)|);
  }

  lemma FragNotSeg(front: string)
    requires RFind(front, SEG) != -1 && RFind(front, FRAG) != -1
    ensures RFind(front, FRAG) != RFind(front, SEG) && RFind(front, FRAG) != RFind(front, SLASH)
  {
    AtChar(front, SEG, RFind(front, SEG), 0);
    AtChar(front, FRAG, RFind(front, FRAG), 0);
    if RFind(front, SLASH) != -1 {
      AtChar(front, SLASH, RFind(front, SLASH), 0);
    }
  }

  /** When `-Frag` is between the last slash and `Seg` it is replaced with the bitrate: the rewritten request
      passes the check only if another `-Frag` stands before the slash. */
  lemma FragmentLost(msg: string, bitrate: int)
    requires IsChunk(PlaceOf(Front(msg))) && Fits(msg) && IsInt32(bitrate)
    requires var p := PlaceOf(Front(msg)); p.slash < p.frag < p.seg
    ensures Locate(Rewrite(msg, bitrate)).Some? <==> Contains(msg[..PlaceOf(Front(msg)).slash + 1], FRAG)
  {
    RewriteMoves(msg, bitrate);
    LocateAgain(msg, bitrate);
  }

  lemma PutBack(msg: string, p: Place, bitrate: int, A: string, B: string)
    requires Locate(msg) == None || Locate(msg) == Some(p)
    requires msg == A + Print(bitrate) + B && p.slash == |A| - 1 && p.seg == |A| + |Print(bitrate)|
    ensures Rewrite(msg, bitrate) == msg
  {
    assert msg[..|A|] == A && msg[|A| + |Print(bitrate)|..] == B;
  }

  lemma MarksAgain(msg: string, bitrate: int)
    requires IsChunk(PlaceOf(Front(msg))) && Fits(msg) && IsInt32(bitrate)
    requires PlaceOf(Front(msg)).slash < PlaceOf(Front(msg)).seg
    ensures var p, p' := PlaceOf(Front(msg)), PlaceOf(Front(Rewrite(msg, bitrate)));
      && p'.slash == p.slash && p'.seg == p.slash + 1 + |Print(bitrate)|
      && (Locate(Rewrite(msg, bitrate)) == None || Locate(Rewrite(msg, bitrate)) == Some(p'))
  {
    RewriteMoves(msg, bitrate);
    LocateAgain(msg, bitrate);
  }

  lemma SlashBeforeSeg(p: Place)
    requires IsChunk(p) && p.slash < p.seg < p.slash + TWO64
    ensures p.slash + 1 < p.seg
  {
    GapSmall(p.seg, p.slash);
  }

  lemma RewriteParts(msg: string, bitrate: int, p: Place)
    requires IsChunk(p) && p == PlaceOf(Front(msg))
    ensures -1 <= p.slash < |msg| && 0 <= p.seg < |msg|
    ensures Rewrite(msg, bitrate) == msg[..p.slash + 1] + Print(bitrate) + msg[p.seg..]
  {
    PlaceBounds(Front(msg));
  }

  lemma SameAgain(msg: string, bitrate: int)
    requires IsChunk(PlaceOf(Front(msg))) && Fits(msg) && IsInt32(bitrate)
    requires PlaceOf(Front(msg)).slash < PlaceOf(Front(msg)).seg
    ensures Rewrite(Rewrite(msg, bitrate), bitrate) == Rewrite(msg, bitrate)
  {
    MarksAgain(msg, bitrate);
    var p := PlaceOf(Front(msg));
    RewriteParts(msg, bitrate, p);
    PutBack(Rewrite(msg, bitrate), PlaceOf(Front(Rewrite(msg, bitrate))), bitrate, msg[..p.slash + 1], msg[p.seg..]);
  }

  /** When the last slash stands behind `Seg` it still does after a pass, at the same distance, and the
      request still passes the check. */
  lemma OnePass(msg: string, bitrate: int)
    requires IsChunk(PlaceOf(Front(msg))) && Fits(msg) && IsInt32(bitrate)
    requires PlaceOf(Front(msg)).seg < PlaceOf(Front(msg)).slash
    ensures var p, p' := PlaceOf(Front(msg)), PlaceOf(Front(Rewrite(msg, bitrate)));
      IsChunk(p') && p'.slash - p'.seg == p.slash - p.seg
  {
    RewriteMoves(msg, bitrate);
    LocateAgain(msg, bitrate);
    PlaceBounds(Front(msg));
  }

  /** The text between `Seg` and the last slash is there twice after a pass. */
  lemma RewriteDoubles(msg: string, bitrate: int)
    requires IsChunk(PlaceOf(Front(msg))) && IsInt32(bitrate)
    requires PlaceOf(Front(msg)).seg < PlaceOf(Front(msg)).slash
    ensures var p := PlaceOf(Front(msg));
      Rewrite(msg, bitrate)
      == msg[..p.seg] + msg[p.seg..p.slash + 1] + Print(bitrate) + msg[p.seg..p.slash + 1] + msg[p.slash + 1..]
  {
    var p := PlaceOf(Front(msg));
    PlaceBounds(Front(msg));
    Doubled(msg, p.seg, p.slash + 1, Print(bitrate));
  }

  lemma Doubled(msg: string, seg: nat, end: nat, P: string)
    requires seg <= end <= |msg|
    ensures msg[..end] + P + msg[seg..] == msg[..seg] + msg[seg..end] + P + msg[seg..end] + msg[end..]
  {
    assert msg[..end] == msg[..seg] + msg[seg..end];
    assert msg[seg..] == msg[seg..end] + msg[end..];
  }

  lemma RewriteLength(msg: string, bitrate: int)
    requires IsChunk(PlaceOf(Front(msg)))
    ensures |Rewrite(msg, bitrate)| == |msg| + |Print(bitrate)| + 1 + PlaceOf(Front(msg)).slash - PlaceOf(Front(msg)).seg
  {
    PlaceBounds(Front(msg));
  }

  /** Rewriting again with the same bitrate changes nothing exactly when the last slash comes before `Seg`. */
  lemma RewriteTwice(msg: string, bitrate: int)
    requires IsChunk(PlaceOf(Front(msg))) && Fits(msg) && IsInt32(bitrate)
    ensures Rewrite(Rewrite(msg, bitrate), bitrate) == Rewrite(msg, bitrate)
       <==> PlaceOf(Front(msg)).slash < PlaceOf(Front(msg)).seg
  {
    CutOf(Front(msg));
    if PlaceOf(Front(msg)).slash < PlaceOf(Front(msg)).seg {
      SameAgain(msg, bitrate);
    } else {
      OnePass(msg, bitrate);
      RewriteLength(Rewrite(msg, bitrate), bitrate);
    }
  }

  /** Passes over a request with the same bitrate, one after the other. */
  ghost predicate ArePasses(trail: seq<string>, bitrate: int) {
    trail != [] && forall k :: 0 < k < |trail| ==> trail[k] == Rewrite(trail[k - 1], bitrate)
  }

  lemma {:induction false} PassesFixed(trail: seq<string>, bitrate: int, n: nat, msg: string)
    requires ArePasses(trail, bitrate) && 0 < n < |trail| && trail[1] == msg && Rewrite(msg, bitrate) == msg
    ensures trail[n] == msg
  {
    if n > 1 {
      PassesFixed(trail, bitrate, n - 1, msg);
    }
  }

  /** Any number of passes beyond the first changes nothing when the last slash comes before `Seg`. */
  lemma RewriteSettles(trail: seq<string>, bitrate: int, n: nat)
    requires ArePasses(trail, bitrate) && 0 < n < |trail|
    requires IsChunk(PlaceOf(Front(trail[0]))) && Fits(trail[0]) && IsInt32(bitrate)
    requires PlaceOf(Front(trail[0])).slash < PlaceOf(Front(trail[0])).seg
    ensures trail[n] == trail[1]
  {
    SameAgain(trail[0], bitrate);
    PassesFixed(trail, bitrate, n, trail[1]);
  }

  /** The last slash stands behind `Seg`, and a pass makes the request longer by `step`. */
  ghost predicate Grows(msg: string, bitrate: int, step: nat) {
    var p := PlaceOf(Front(msg));
    IsChunk(p) && p.seg < p.slash && step == |Print(bitrate)| + 1 + p.slash - p.seg
  }

  lemma GrowsAgain(msg: string, bitrate: int, step: nat)
    requires Grows(msg, bitrate, step) && Fits(msg) && IsInt32(bitrate)
    ensures Grows(Rewrite(msg, bitrate), bitrate, step) && |Rewrite(msg, bitrate)| == |msg| + step
  {
    OnePass(msg, bitrate);
    RewriteLength(msg, bitrate);
  }

  /** `n` times `step`, by addition. */
  function Steps(n: nat, step: nat): nat { if n == 0 then 0 else step + Steps(n - 1, step) }

  lemma {:induction false} StepsIsProduct(n: nat, step: nat)
    ensures Steps(n, step) == n * step
  {
    if n > 0 {
      StepsIsProduct(n - 1, step);
    }
  }

  lemma {:induction false} PassesGrow(trail: seq<string>, bitrate: int, n: nat, step: nat)
    requires ArePasses(trail, bitrate) && n < |trail|
    requires Grows(trail[0], bitrate, step) && IsInt32(bitrate) && 2 * (|trail[0]| + Steps(n, step)) + 32 < TWO64
    ensures Grows(trail[n], bitrate, step) && |trail[n]| == |trail[0]| + Steps(n, step)
  {
    if n > 0 {
      PassesGrow(trail, bitrate, n - 1, step);
      GrowsAgain(trail[n - 1], bitrate, step);
    }
  }

  /** Otherwise every pass makes the request longer by the same amount, as long as there is room. */
  lemma RewriteGrows(trail: seq<string>, bitrate: int, n: nat, step: nat)
    requires ArePasses(trail, bitrate) && n < |trail| && IsInt32(bitrate)
    requires IsChunk(PlaceOf(Front(trail[0]))) && PlaceOf(Front(trail[0])).seg < PlaceOf(Front(trail[0])).slash
    requires step == |Print(bitrate)| + 1 + PlaceOf(Front(trail[0])).slash - PlaceOf(Front(trail[0])).seg
    requires 2 * (|trail[0]| + n * step) + 32 < TWO64
    ensures |trail[n]| == |trail[0]| + n * step
  {
    StepsIsProduct(n, step);
    PassesGrow(trail, bitrate, n, step);
  }

  /** The logged name is the new front from behind the head on. */
  lemma RewriteLogged(msg: string, bitrate: int)
    requires IsChunk(PlaceOf(Front(msg))) && Fits(msg) && IsInt32(bitrate)
    ensures var p := PlaceOf(Front(msg));
      ChunkName(Rewrite(msg, bitrate), p.slash) == Print(bitrate) + Front(msg)[p.seg..]
  {
    var A, F, T := Pieces(msg);
    NewPieces(msg, bitrate, A, F, T);
    PrintLength(bitrate);
    var P := Print(bitrate);
    assert |A| <= |msg| && |F + T| <= |msg|;
    NameOfPieces(Front(msg), A, P, F, T);
    SameName(Rewrite(msg, bitrate), A + P + F + T, PlaceOf(Front(msg)).slash, |A| - 1);
  }

  lemma SameName(msg: string, text: string, slash: int, n: int)
    requires msg == text && slash == n && -1 <= n < |text|
    ensures ChunkName(msg, slash) == ChunkName(text, n)
  {
  }

  /** The logged name is the new bitrate with the text from `Seg` on. It is the new file name, the text behind
      the last slash, exactly when that slash comes before `Seg`. */
  lemma RewriteName(msg: string, bitrate: int)
    requires IsChunk(PlaceOf(Front(msg))) && Fits(msg) && IsInt32(bitrate)
    ensures var p, msg' := PlaceOf(Front(msg)), Rewrite(msg, bitrate);
      && ChunkName(msg', p.slash) == Print(bitrate) + Front(msg)[p.seg..]
      && (ChunkName(msg', p.slash) == Front(msg')[PlaceOf(Front(msg')).slash + 1..] <==> p.slash < p.seg)
  {
    RewriteLogged(msg, bitrate);
    LastName(msg, bitrate);
  }

  lemma SlashBehind(p: Place, p': Place, n: nat)
    requires p.slash != p.seg && p'.seg == p.slash + 1 + n
    requires p'.slash == (if p.slash < p.seg then p.slash else p'.seg + p.slash - p.seg)
    ensures p'.slash >= p.slash && (p'.slash == p.slash <==> p.slash < p.seg)
  {
  }

  /** The text behind the last slash of the new front. */
  lemma LastName(msg: string, bitrate: int)
    requires IsChunk(PlaceOf(Front(msg)))
    ensures var p, front' := PlaceOf(Front(msg)), Front(Rewrite(msg, bitrate));
      Print(bitrate) + Front(msg)[p.seg..] == front'[PlaceOf(front').slash + 1..] <==> p.slash < p.seg
  {
    RewriteMoves(msg, bitrate);
    RewriteFront(msg, bitrate);
    var p, front' := PlaceOf(Front(msg)), Front(Rewrite(msg, bitrate));
    PlaceBounds(front');
    CutOf(Front(msg));
    SlashBehind(p, PlaceOf(front'), |Print(bitrate)|);
    NameIsLast(msg[..p.slash + 1], Print(bitrate), Front(msg)[p.seg..], PlaceOf(front').slash + 1);
  }

  lemma NameIsLast(A: string, P: string, F: string, i: nat)
    requires |A| <= i <= |A + P + F|
    ensures P + F == (A + P + F)[i..] <==> i == |A|
  {
    assert (A + P + F)[|A|..] == P + F;
  }

  lemma NameOfPieces(front: string, A: string, P: string, F: string, T: string)
    requires Covers(front, A, F) && IsNumeral(P) && Front(front + T) == front && |A + P + F + T| < TWO64 - 1
    ensures ChunkName(A + P + F + T, |A| - 1) == P + F
  {
    var msg := A + P + F + T;
    FrontStays(front, A, P, F, T);
    if Find(msg, HTTP) == -1 {
      assert msg == A + P + F;
      GapWraps(-1, |A|);
      assert msg[|A|..] == P + F;
    } else {
      GapSmall(|A + P + F|, |A|);
      assert msg[|A|..|A + P + F|] == P + F;
    }
  }

  lemma LastAt(s: string, pat: string, i: nat)
    requires pat != "" && i + |pat| <= |s|
    requires forall k :: 0 <= k < |pat| ==> s[i + k] == pat[k]
    requires forall j :: i < j < |s| ==> s[j] != pat[0]
    ensures RFind(s, pat) == i
  {
    assert s[i..i + |pat|] == pat;
    assert At(s, pat, i);
    AtChar(s, pat, RFind(s, pat), 0);
  }

  // ----- the format of a chunk request

  lemma ChunkPlace(pre: string, x: string, y: string, z: string)
    requires AllDigits(x) && AllDigits(y) && AllDigits(z)
    ensures PlaceOf(pre + "/" + x + "Seg" + y + "-Frag" + z)
         == Place(|pre|, |pre| + 1 + |x|, |pre| + 1 + |x| + 3 + |y|)
  {
    var s := pre + SLASH + x + SEG + y + FRAG + z;
    var i := |pre| + 1 + |x|;
    var f := i + 3 + |y|;
    assert s[|pre|] == '/';
    assert s[i] == 'S' && s[i + 1] == 'e' && s[i + 2] == 'g';
    assert s[f] == '-' && s[f + 1] == 'F' && s[f + 2] == 'r' && s[f + 3] == 'a' && s[f + 4] == 'g';
    assert forall j :: |pre| < j < i ==> s[j] == x[j - |pre| - 1];
    assert forall j :: i + 3 <= j < f ==> s[j] == y[j - i - 3];
    assert forall j :: f + 5 <= j < |s| ==> s[j] == z[j - f - 5];
    LastAt(s, SLASH, |pre|);
    LastAt(s, SEG, i);
    LastAt(s, FRAG, f);
  }

  lemma LocateAt(front: string, rest: string, p: Place)
    requires PlaceOf(front) == p && Find(front + rest, " HTTP/1.1") == |front| < TWO64
    requires 0 <= p.slash < p.seg < p.frag < |front|
    ensures Front(front + rest) == front
    ensures Locate(front + rest) == if p.seg - p.slash >= 2 && p.frag - p.seg >= 4 then Some(p) else None
  {
    assert (front + rest)[..|front|] == front;
    GapSmall(p.frag, p.seg);
    GapSmall(p.seg, p.slash);
  }

  /** `<pre>/<bitrate>Seg<num>-Frag<num> HTTP/1.1...` is a chunk request, with its parts found where they stand,
      exactly when there is a bitrate and a segment number. */
  lemma ChunkFormat(pre: string, x: string, y: string, z: string, rest: string)
    requires AllDigits(x) && AllDigits(y) && AllDigits(z)
    requires var front := pre + "/" + x + "Seg" + y + "-Frag" + z; Find(front + rest, " HTTP/1.1") == |front| < TWO64
    ensures var front := pre + "/" + x + "Seg" + y + "-Frag" + z;
      && Front(front + rest) == front
      && Locate(front + rest)
         == if x != "" && y != "" then Some(Place(|pre|, |pre| + 1 + |x|, |pre| + 1 + |x| + 3 + |y|)) else None
  {
    ChunkPlace(pre, x, y, z);
    LocateAt(pre + SLASH + x + SEG + y + FRAG + z, rest, Place(|pre|, |pre| + 1 + |x|, |pre| + 1 + |x| + 3 + |y|));
  }

  lemma CheckExactly(p: Place)
    requires -1 <= p.slash < TWO64 - 32 && -1 <= p.seg < TWO64 - 32 && -1 <= p.frag < TWO64 - 32
    ensures IsChunk(p) <==> p.seg != -1 && p.frag != -1 && p.seg != p.slash && p.seg != p.slash + 1 && !(p.seg <= p.frag < p.seg + 4)
  {
    if p.slash <= p.seg {
      GapSmall(p.seg, p.slash);
    } else {
      GapWraps(p.seg, p.slash);
    }
    if p.seg <= p.frag {
      GapSmall(p.frag, p.seg);
    } else {
      GapWraps(p.frag, p.seg);
    }
  }

  /** What the check accepts: a `Seg` and a `-Frag` before ` HTTP/1.1`, the last `Seg` not right behind the last slash,
      and the last `-Frag` not less than 4 characters behind it; either may also stand before it. */
  lemma ChunkAccepted(msg: string)
    requires Fits(msg)
    ensures var h := Find(msg, " HTTP/1.1");
      var front := if h == -1 then msg else msg[..h];
      var slash, seg, frag := RFind(front, "/"), RFind(front, "Seg"), RFind(front, "-Frag");
      Locate(msg) == if seg != -1 && frag != -1 && seg != slash + 1 && !(seg <= frag < seg + 4)
                     then Some(Place(slash, seg, frag)) else None
  {
    var front := Front(msg);
    PlaceBounds(front);
    CheckExactly(PlaceOf(front));
    if RFind(front, SEG) != -1 {
      CutOf(front);
    }
  }

  // ----- requests that pass the check only because positions wrap around

  const SLASH_LAST := "GET /1Seg2/3-Frag4"
  const FRAG_FIRST := "GET /1-Frag2Seg3"

  lemma RequestLine(line: string)
    requires |line| > 4 && line[4] == '/' && forall i :: 0 <= i < |line| && i != 3 ==> line[i] != ' '
    ensures Front(line + HTTP) == line
  {
    var s := line + HTTP;
    AtSuffix(line, HTTP, HTTP, |line|);
    assert At(HTTP, HTTP, 0);
    var j := Find(s, HTTP);
    HttpChars(s, j);
    assert forall i :: 0 <= i < |line| ==> s[i] == line[i];
    assert j < |line| ==> j == 3;
    assert s[4] == '/';
    assert s[..|line|] == line;
  }

  lemma SlashLastPlace()
    ensures PlaceOf(SLASH_LAST) == Place(10, 6, 12)
  {
    LastAt(SLASH_LAST, SLASH, 10);
    LastAt(SLASH_LAST, SEG, 6);
    LastAt(SLASH_LAST, FRAG, 12);
  }

  lemma FragFirstPlace()
    ensures PlaceOf(FRAG_FIRST) == Place(4, 12, 6)
  {
    LastAt(FRAG_FIRST, SLASH, 4);
    LastAt(FRAG_FIRST, SEG, 12);
    LastAt(FRAG_FIRST, FRAG, 6);
  }

  /** Requests with the last slash behind `Seg`, and with `-Frag` between the slash and `Seg`, pass the check:
      the differences of the positions wrap around. */
  lemma CheckWrapsAround()
    ensures var p := PlaceOf(Front(SLASH_LAST + HTTP)); IsChunk(p) && p.seg < p.slash
    ensures var p := PlaceOf(Front(FRAG_FIRST + HTTP)); IsChunk(p) && p.slash < p.frag < p.seg
  {
    RequestLine(SLASH_LAST);
    SlashLastPlace();
    RequestLine(FRAG_FIRST);
    FragFirstPlace();
  }
}
