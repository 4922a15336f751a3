/** The bitrates requested over whole runs of a connection. */
module ProxyStreams {
  import opened Text
  import opened Proxy
  import opened ProxyRuns
  import opened ProxyRules
  import Response
  import Chunk
  import Manifest
  import Bitrate

  // ----- what a step means for the bitrates

  /** A chunk was requested at a bitrate, the throughput was sampled, a manifest was read, or none of these. */
  datatype Seen = Quiet | Chose(b: int) | Sampled(x: real) | Listed

  function SeenRequest(c: Conn): Seen {
    if Contains(c.clientMessage, "\r\n\r\n") && Chunk.Locate(c.clientMessage).Some? && c.bitrates != []
    then Chose(Bitrate.Choose(c.bitrates, c.throughput)) else Quiet
  }

  function SeenResponse(a: Arrival, now: real): Seen {
    if !a.Complete? then Quiet
    else if a.c.noListMessage != "" then Listed
    else if CarriesVideo(a.c.serverMessage) && a.c.connStart < now then Sampled(Rate(a.c.serverMessageLen, now - a.c.connStart))
    else Quiet
  }

  function See(c: Conn, e: Event): Seen {
    match e
    case ClientBytes(bytes) => SeenRequest(c.(clientMessage := c.clientMessage + bytes))
    case ServerBytes(bytes, before, now) => SeenResponse(Receive(c, bytes, before), now)
  }

  /** What is seen along a run. */
  function Trace(alpha: real, c: Conn, es: seq<Event>): seq<Seen>
    decreases es
  {
    if es == [] then []
    else [See(c, es[0])] + match Step(alpha, c, es[0])
      case Stopped => []
      case Next(d) => Trace(alpha, d, es[1..])
  }

  /** A chunk request goes out rewritten to the chosen bitrate. */
  lemma ChoiceIsSent(alpha: real, c: Conn, e: Event)
    requires Step(alpha, c, e).Next? && See(c, e).Chose?
    ensures var d, msg := Step(alpha, c, e).c, c.clientMessage + e.bytes;
      && e.ClientBytes? && Chunk.Locate(msg).Some?
      && d.bitrate == See(c, e).b == Bitrate.Choose(c.bitrates, c.throughput)
      && d.wire == c.wire + [ToServer(Chunk.Rewritten(msg, Chunk.Locate(msg).value, See(c, e).b))]
      && d.chunkname == Chunk.ChunkName(Chunk.Rewritten(msg, Chunk.Locate(msg).value, See(c, e).b), Chunk.Locate(msg).value.slash)
  {
  }

  /** The list and the estimate are as before, but for what was seen. */
  ghost predicate Changed(alpha: real, c: Conn, d: Conn, seen: Seen) {
    match seen
    case Listed => d.bitrates != [] && Bitrate.IsSorted(d.bitrates) && d.throughput == d.bitrates[0] as real * 1.5
    case Sampled(x) => d.bitrates == c.bitrates && d.throughput == Bitrate.Average(alpha, c.throughput, x)
    case _ => d.bitrates == c.bitrates && d.throughput == c.throughput
  }

  lemma ResponseSeen(alpha: real, c: Conn, now: real)
    requires HandleResponse(alpha, c, now).Next?
    ensures Changed(alpha, c, HandleResponse(alpha, c, now).c, SeenResponse(Complete(c), now))
  {
    if c.noListMessage != "" {
      Bitrate.SortSorts(c.bitrates + Manifest.ParseAttributes(c.serverMessage).value.1);
    } else {
      IsVideoExactly(c.serverMessage);
      if c.connStart < now {
        SampleIsRate(c.serverMessageLen, now - c.connStart);
      }
    }
  }

  lemma ReceiveKeeps(c: Conn, bytes: string, before: real)
    ensures var a := Receive(c, bytes, before);
      !a.Failed? ==> a.c.bitrates == c.bitrates && a.c.throughput == c.throughput && a.c.noListMessage == c.noListMessage
  {
  }

  /** Every step changes the list and the estimate only as seen. */
  lemma StepSeen(alpha: real, c: Conn, e: Event)
    requires Step(alpha, c, e).Next?
    ensures Changed(alpha, c, Step(alpha, c, e).c, See(c, e))
  {
    match e
    case ClientBytes(bytes) =>
    case ServerBytes(bytes, before, now) =>
      var a := Receive(c, bytes, before);
      ReceiveKeeps(c, bytes, before);
      if a.Complete? {
        ResponseSeen(alpha, a.c, now);
      }
  }

  lemma TraceStep(alpha: real, c: Conn, es: seq<Event>)
    requires es != []
    ensures Trace(alpha, c, es) != [] && Trace(alpha, c, es)[0] == See(c, es[0])
    ensures Step(alpha, c, es[0]).Next? ==> Trace(alpha, c, es)[1..] == Trace(alpha, Step(alpha, c, es[0]).c, es[1..])
    ensures Step(alpha, c, es[0]).Stopped? ==> |Trace(alpha, c, es)| == 1
  {
  }

  // ----- runs

  /** The list is sorted whenever it is used. */
  lemma {:induction false} RunKeepsSorted(alpha: real, c: Conn, es: seq<Event>)
    requires Bitrate.IsSorted(c.bitrates) && Run(alpha, c, es).Next?
    ensures Bitrate.IsSorted(Run(alpha, c, es).c.bitrates)
    decreases es
  {
    if es != [] {
      StepSeen(alpha, c, es[0]);
      RunKeepsSorted(alpha, Step(alpha, c, es[0]).c, es[1..]);
    }
  }

  /** At any moment of a run from a new connection, a chunk is requested at the largest listed bitrate
      that the estimate supports, or at the lowest when it supports none. */
  lemma ChoiceIsBest(alpha: real, c: Conn, es: seq<Event>, e: Event)
    requires c.bitrates == [] && Run(alpha, c, es).Next?
    requires See(Run(alpha, c, es).c, e).Chose?
    ensures var d, b := Run(alpha, c, es).c, See(Run(alpha, c, es).c, e).b;
      && b in d.bitrates
      && (Bitrate.Supports(d.throughput, b) <==> exists x :: x in d.bitrates && Bitrate.Supports(d.throughput, x))
      && (forall x :: x in d.bitrates && Bitrate.Supports(d.throughput, x) ==> x <= b)
      && (!Bitrate.Supports(d.throughput, b) ==> forall x :: x in d.bitrates ==> b <= x)
  {
    RunKeepsSorted(alpha, c, es);
    var d := Run(alpha, c, es).c;
    Bitrate.ChooseIsBest(d.bitrates, d.throughput);
  }

  /** Every bitrate of a run fits an `int`, since it was read as one. */
  ghost predicate AreInts(list: seq<int>) { forall b :: b in list ==> IsInt32(b) }

  lemma {:induction false} StepKeepsInts(alpha: real, c: Conn, e: Event)
    requires AreInts(c.bitrates) && Step(alpha, c, e).Next?
    ensures AreInts(Step(alpha, c, e).c.bitrates)
  {
    StepSeen(alpha, c, e);
    if See(c, e).Listed? {
      var a := Receive(c, e.bytes, e.before);
      ReceiveKeeps(c, e.bytes, e.before);
      var read := Manifest.ParseAttributes(a.c.serverMessage).value.1;
      Manifest.NumbersAreInts(a.c.serverMessage);
      Bitrate.SortContents(c.bitrates + read);
      assert forall b :: b in Bitrate.Sort(c.bitrates + read) ==> b in multiset(c.bitrates + read);
    }
  }

  lemma {:induction false} RunKeepsInts(alpha: real, c: Conn, es: seq<Event>)
    requires AreInts(c.bitrates) && Run(alpha, c, es).Next?
    ensures AreInts(Run(alpha, c, es).c.bitrates)
    decreases es
  {
    if es != [] {
      StepKeepsInts(alpha, c, es[0]);
      RunKeepsInts(alpha, Step(alpha, c, es[0]).c, es[1..]);
    }
  }

  /** The request and the name for a chunk request rewritten to `b`: parsing what is sent finds the bitrate,
      and the segment and the fragment where they were. */
  ghost predicate IsRewritten(msg: string, b: int, sent: string, name: string)
    requires Chunk.IsChunk(Chunk.PlaceOf(Chunk.Front(msg)))
  {
    var p := Chunk.PlaceOf(Chunk.Front(msg));
    && 0 <= p.slash + 1 < p.seg < |msg| && p.seg <= |Chunk.Front(msg)|
    && sent == Chunk.Rewrite(msg, b) == msg[..p.slash + 1] + Print(b) + msg[p.seg..] && Chunk.Reparses(msg, b)
    && name == Print(b) + Chunk.Front(msg)[p.seg..]
  }

  /** A chunk request whose marks the rewrite leaves alone. */
  ghost predicate IsChunkRequest(msg: string) {
    var p := Chunk.PlaceOf(Chunk.Front(msg));
    Chunk.IsChunk(p) && Chunk.IsApart(p) && Chunk.Fits(msg)
  }

  lemma RewriteIsRewritten(msg: string, b: int)
    requires IsChunkRequest(msg) && IsInt32(b)
    ensures Chunk.Locate(msg).Some?
    ensures var p := Chunk.Locate(msg).value;
      var sent := Chunk.Rewritten(msg, p, b);
      IsRewritten(msg, b, sent, Chunk.ChunkName(sent, p.slash))
  {
    var p := Chunk.PlaceOf(Chunk.Front(msg));
    Chunk.RewriteReparses(msg, b);
    Chunk.RewriteLogged(msg, b);
    Chunk.RewriteParts(msg, b, p);
    Chunk.SlashBeforeSeg(p);
  }

  lemma ChoiceIsInt(c: Conn, e: Event)
    requires AreInts(c.bitrates) && Bitrate.IsSorted(c.bitrates) && See(c, e).Chose?
    ensures IsInt32(See(c, e).b)
  {
    Bitrate.ChooseIsBest(c.bitrates, c.throughput);
  }

  lemma StepRewrites(alpha: real, c: Conn, e: Event)
    requires AreInts(c.bitrates) && Bitrate.IsSorted(c.bitrates)
    requires See(c, e).Chose? && Step(alpha, c, e).Next?
    requires IsChunkRequest(c.clientMessage + e.bytes)
    ensures var d := Step(alpha, c, e).c;
      && |d.wire| == |c.wire| + 1 && d.wire[..|c.wire|] == c.wire && d.wire[|c.wire|].ToServer?
      && IsRewritten(c.clientMessage + e.bytes, See(c, e).b, d.wire[|c.wire|].bytes, d.chunkname)
      && d.bitrate == See(c, e).b
  {
    ChoiceIsInt(c, e);
    ChoiceIsSent(alpha, c, e);
    RewriteIsRewritten(c.clientMessage + e.bytes, See(c, e).b);
  }

  /** In any run from a new connection, one request goes out for a chunk request whose marks the rewrite
      leaves alone: at the same path, for the same segment and fragment, at the chosen bitrate. The logged
      name is its file name. */
  lemma ChunkRequestRewritten(alpha: real, c: Conn, es: seq<Event>, e: Event)
    requires c.bitrates == [] && Run(alpha, c, es).Next?
    requires See(Run(alpha, c, es).c, e).Chose? && Step(alpha, Run(alpha, c, es).c, e).Next?
    requires IsChunkRequest(Run(alpha, c, es).c.clientMessage + e.bytes)
    ensures var c', d := Run(alpha, c, es).c, Step(alpha, Run(alpha, c, es).c, e).c;
      && |d.wire| == |c'.wire| + 1 && d.wire[..|c'.wire|] == c'.wire && d.wire[|c'.wire|].ToServer?
      && IsRewritten(c'.clientMessage + e.bytes, See(c', e).b, d.wire[|c'.wire|].bytes, d.chunkname)
      && d.bitrate == See(c', e).b
  {
    RunKeepsSorted(alpha, c, es);
    RunKeepsInts(alpha, c, es);
    StepRewrites(alpha, Run(alpha, c, es).c, e);
  }

  predicate NoManifest(trace: seq<Seen>) {
    forall i :: 0 <= i < |trace| ==> !trace[i].Listed?
  }

  function Samples(trace: seq<Seen>): seq<real> {
    if trace == [] then []
    else (if trace[0].Sampled? then [trace[0].x] else []) + Samples(trace[1..])
  }

  /** Between manifests the estimate is the moving average of all the samples seen. */
  lemma {:induction false} RunAverages(alpha: real, c: Conn, es: seq<Event>)
    requires Run(alpha, c, es).Next? && NoManifest(Trace(alpha, c, es))
    ensures Run(alpha, c, es).c.bitrates == c.bitrates
    ensures Run(alpha, c, es).c.throughput == Bitrate.AverageAll(alpha, c.throughput, Samples(Trace(alpha, c, es)))
    decreases es
  {
    if es != [] {
      var d, t := Step(alpha, c, es[0]).c, Trace(alpha, c, es);
      assert t[1..] == Trace(alpha, d, es[1..]) && t[0] == See(c, es[0]);
      assert NoManifest(t[1..]);
      StepSeen(alpha, c, es[0]);
      RunAverages(alpha, d, es[1..]);
      if t[0].Sampled? {
        assert Samples(t) == [t[0].x] + Samples(t[1..]);
      } else {
        assert Samples(t) == Samples(t[1..]);
      }
    }
  }

  /** Every chunk of the trace was requested at `lo` or above, and at `hi` or below. */
  predicate ChosenBetween(trace: seq<Seen>, lo: int, hi: int) {
    forall i :: 0 <= i < |trace| && trace[i].Chose? ==> lo <= trace[i].b <= hi
  }

  predicate ChosenFrom(trace: seq<Seen>, lo: int) {
    forall i :: 0 <= i < |trace| && trace[i].Chose? ==> lo <= trace[i].b
  }

  predicate SamplesSupport(trace: seq<Seen>, b: int) {
    forall i :: 0 <= i < |trace| && trace[i].Sampled? ==> Bitrate.Supports(trace[i].x, b)
  }

  lemma TailChosen(trace: seq<Seen>, lo: int, hi: int)
    requires trace != [] && (trace[0].Chose? ==> lo <= trace[0].b)
    ensures ChosenFrom(trace[1..], lo) ==> ChosenFrom(trace, lo)
    ensures (trace[0].Chose? ==> trace[0].b <= hi) && ChosenBetween(trace[1..], lo, hi) ==> ChosenBetween(trace, lo, hi)
  {
  }

  /** The estimate supports a listed bitrate. */
  ghost predicate Affords(c: Conn, b: int) {
    Bitrate.IsSorted(c.bitrates) && b in c.bitrates && Bitrate.Supports(c.throughput, b)
  }

  lemma AffordsStep(alpha: real, c: Conn, e: Event, b: int)
    requires 0.0 <= alpha <= 1.0 && Affords(c, b) && !See(c, e).Listed?
    requires See(c, e).Sampled? ==> Bitrate.Supports(See(c, e).x, b)
    ensures See(c, e).Chose? ==> b <= See(c, e).b
    ensures Step(alpha, c, e).Next? ==> Affords(Step(alpha, c, e).c, b)
  {
    Bitrate.ChooseIsBest(c.bitrates, c.throughput);
    if Step(alpha, c, e).Next? {
      StepSeen(alpha, c, e);
      if See(c, e).Sampled? {
        Bitrate.ConvexAbove(alpha, See(c, e).x, c.throughput, 1.5 * b as real);
      }
    }
  }

  /** Once the estimate supports a listed bitrate, and as long as every sample does and no manifest is
      read, no chunk is requested below it. */
  lemma {:induction false} NoChunkBelow(alpha: real, c: Conn, es: seq<Event>, b: int)
    requires 0.0 <= alpha <= 1.0 && Affords(c, b)
    requires NoManifest(Trace(alpha, c, es)) && SamplesSupport(Trace(alpha, c, es), b)
    ensures ChosenFrom(Trace(alpha, c, es), b)
    decreases es
  {
    if es != [] {
      var t := Trace(alpha, c, es);
      TraceStep(alpha, c, es);
      AffordsStep(alpha, c, es[0], b);
      if Step(alpha, c, es[0]).Next? {
        NoChunkBelow(alpha, Step(alpha, c, es[0]).c, es[1..], b);
      }
      TailChosen(t, b, 0);
    }
  }

  /** The estimate is where reading a manifest leaves it. */
  ghost predicate AtLowest(c: Conn) {
    c.bitrates != [] && Bitrate.IsSorted(c.bitrates) && c.throughput == c.bitrates[0] as real * 1.5
  }

  lemma LowestChosen(b: int, list: seq<int>, estimate: real)
    requires list != [] && Bitrate.IsSorted(list) && estimate == list[0] as real * 1.5
    requires b == Bitrate.Choose(list, estimate)
    ensures b == list[0]
  {
    Bitrate.ChooseLowest(list);
  }

  lemma AtLowestChoice(c: Conn, e: Event)
    requires AtLowest(c) && See(c, e).Chose?
    ensures See(c, e).b == c.bitrates[0]
  {
    LowestChosen(See(c, e).b, c.bitrates, c.throughput);
  }

  lemma AtLowestKept(alpha: real, c: Conn, e: Event)
    requires AtLowest(c) && !See(c, e).Listed? && !See(c, e).Sampled? && Step(alpha, c, e).Next?
    ensures AtLowest(Step(alpha, c, e).c) && Step(alpha, c, e).c.bitrates == c.bitrates
  {
    StepSeen(alpha, c, e);
  }

  predicate NoSample(trace: seq<Seen>) {
    forall i :: 0 <= i < |trace| ==> !trace[i].Sampled?
  }

  /** Reading a manifest leaves the estimate at 1.5 times the lowest bitrate; from then on until the
      next sample or manifest, every chunk is requested at the lowest bitrate. */
  lemma FirstChunksLowest(alpha: real, c: Conn, e: Event, es: seq<Event>)
    requires See(c, e).Listed? && Step(alpha, c, e).Next?
    requires NoManifest(Trace(alpha, Step(alpha, c, e).c, es)) && NoSample(Trace(alpha, Step(alpha, c, e).c, es))
    ensures var d := Step(alpha, c, e).c;
      d.bitrates != [] && ChosenBetween(Trace(alpha, d, es), d.bitrates[0], d.bitrates[0])
  {
    StepSeen(alpha, c, e);
    LowestUntilSample(alpha, Step(alpha, c, e).c, es);
  }

  lemma {:induction false} LowestUntilSample(alpha: real, c: Conn, es: seq<Event>)
    requires AtLowest(c) && NoManifest(Trace(alpha, c, es)) && NoSample(Trace(alpha, c, es))
    ensures ChosenBetween(Trace(alpha, c, es), c.bitrates[0], c.bitrates[0])
    decreases es
  {
    if es != [] {
      var t := Trace(alpha, c, es);
      TraceStep(alpha, c, es);
      if See(c, es[0]).Chose? {
        AtLowestChoice(c, es[0]);
      }
      if Step(alpha, c, es[0]).Next? {
        AtLowestKept(alpha, c, es[0]);
        LowestUntilSample(alpha, Step(alpha, c, es[0]).c, es[1..]);
      }
      TailChosen(t, c.bitrates[0], c.bitrates[0]);
    }
  }
}
