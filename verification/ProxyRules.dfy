/** What the proxy goes by, in terms of the texts themselves. */
module ProxyRules {
  import opened Text
  import Bitrate

  /** Kilobits per second of so many bytes in so many seconds. */
  function Rate(bytes: nat, elapsed: real): real
    requires elapsed > 0.0
  {
    8.0 * (bytes as real / elapsed) / 1000.0
  }

  /** The rate times the time is the number of kilobits: 8 bits a byte, 1000 bits a kilobit. */
  predicate IsRate(kbps: real, bytes: nat, elapsed: real) {
    kbps * elapsed * 1000.0 == 8.0 * bytes as real
  }

  lemma RateMeans(bytes: nat, elapsed: real)
    requires elapsed > 0.0
    ensures IsRate(Rate(bytes, elapsed), bytes, elapsed)
  {
    var q := bytes as real / elapsed;
    assert q * elapsed == bytes as real;
    assert 8.0 * q / 1000.0 * elapsed * 1000.0 == 8.0 * (q * elapsed);
  }

  /** The header of the response announces a chunk. */
  predicate CarriesVideo(r: string) {
    var end := Find(r, "\r\n\r\n");
    end != -1 && Contains(r[..end], "Content-Type: video/f4f")
  }

  /** The estimate once a response of this length has arrived in this time: a chunk gives a sample, which counts
      for `alpha` of the new estimate. */
  function Measured(alpha: real, estimate: real, r: string, length: nat, elapsed: real): real {
    if CarriesVideo(r) && elapsed > 0.0 then Bitrate.Average(alpha, estimate, Rate(length, elapsed)) else estimate
  }

  /** With `alpha` 1 the new estimate is the sample alone. */
  lemma MeasuredAlone(estimate: real, r: string, length: nat, elapsed: real)
    requires CarriesVideo(r) && elapsed > 0.0
    ensures IsRate(Measured(1.0, estimate, r, length, elapsed), length, elapsed)
  {
    RateMeans(length, elapsed);
    AverageAlone(estimate, Rate(length, elapsed));
  }

  lemma AverageAlone(estimate: real, x: real)
    ensures Bitrate.Average(1.0, estimate, x) == x
  {
  }

  /** The request for the manifest without a list, made from a request for the manifest; nothing for others. */
  function NextRequest(q: string): string {
    var p := Find(q, "big_buck_bunny.f4m");
    if p == -1 then "" else q[..p] + "big_buck_bunny_nolist.f4m" + q[p + 18..]
  }

  /** The first name of the manifest is replaced, and does not stand there any more. */
  lemma NextRequestText(a: string, b: string)
    requires Find(a + "big_buck_bunny.f4m" + b, "big_buck_bunny.f4m") == |a|
    ensures NextRequest(a + "big_buck_bunny.f4m" + b) == a + "big_buck_bunny_nolist.f4m" + b
    ensures !At(NextRequest(a + "big_buck_bunny.f4m" + b), "big_buck_bunny.f4m", |a|)
  {
    var q, n := a + "big_buck_bunny.f4m" + b, a + "big_buck_bunny_nolist.f4m" + b;
    assert q[..|a|] == a && q[|a| + 18..] == b;
    assert n[|a| + 14] == '_';
    if At(n, "big_buck_bunny.f4m", |a|) {
      AtChar(n, "big_buck_bunny.f4m", |a|, 14);
    }
  }
}
