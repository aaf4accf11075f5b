/** The capture path on top of the ring: chunked downmixing, the hop loop and the sliding analysis
    window. Spectral features computed from a window are not part of this model; a hop's result is
    the window it was computed from and its timestamp. */
module Capture {
  import opened PowersOfTwo
  import opened WrappingIndex
  import opened BoundedFifo
  import opened SpscRing
  import opened RingBuffer

  const DOWNMIX_CHUNK: nat := 256
  const FFT_SIZE: nat := 1024
  const HOP_SIZE: nat := 256

  function Sum(frame: seq<Sample>): real {
    if frame == [] then 0.0 else frame[0] + Sum(frame[1..])
  }

  function Average(frame: seq<Sample>, channels: nat): Sample
    requires channels > 0
  {
    Sum(frame) / channels as real
  }

  /** The mono mix of interleaved frames; an incomplete last frame is dropped. */
  function Mono(data: seq<Sample>, channels: nat): (m: seq<Sample>)
    requires channels > 0
    ensures |m| <= |data|
    decreases |data|
  {
    if |data| < channels then []
    else [Average(data[..channels], channels)] + Mono(data[channels..], channels)
  }

  lemma {:induction false} SumMoves(frame: seq<Sample>, i: nat, x: Sample)
    requires i < |frame|
    ensures Sum(frame[i := x]) == Sum(frame) + (x - frame[i])
  {
    if i == 0 {
      assert frame[i := x][1..] == frame[1..];
    } else {
      SumMoves(frame[1..], i - 1, x);
      assert frame[i := x][1..] == frame[1..][i - 1 := x];
    }
  }

  /** Every channel counts, and each with the same weight: moving one sample moves the average by that
      over the number of channels. */
  lemma AverageMoves(frame: seq<Sample>, channels: nat, i: nat, x: Sample)
    requires channels > 0 && i < |frame|
    ensures Average(frame[i := x], channels) == Average(frame, channels) + (x - frame[i]) / channels as real
  {
    SumMoves(frame, i, x);
  }

  lemma {:induction false} SumOfEqual(frame: seq<Sample>, x: Sample)
    requires forall i :: 0 <= i < |frame| ==> frame[i] == x
    ensures Sum(frame) == |frame| as real * x
  {
    if frame != [] {
      SumOfEqual(frame[1..], x);
      Distributes((|frame| - 1) as real, x);
    }
  }

  lemma Distributes(a: real, x: real)
    ensures x + a * x == (a + 1.0) * x
  {
  }

  /** Equal channels are mixed to what they carry. */
  lemma AverageOfEqual(frame: seq<Sample>, x: Sample)
    requires frame != [] && forall i :: 0 <= i < |frame| ==> frame[i] == x
    ensures Average(frame, |frame|) == x
  {
    SumOfEqual(frame, x);
    Quotient(|frame| as real, x);
  }

  lemma Quotient(a: real, x: real)
    requires a != 0.0
    ensures a * x / a == x
  {
  }

  lemma OneMore(n: nat, channels: nat)
    ensures (n + 1) * channels == n * channels + channels
  {
  }

  /** One mono sample per complete frame. */
  lemma {:induction false} MonoLength(data: seq<Sample>, channels: nat)
    requires channels > 0
    ensures |Mono(data, channels)| * channels <= |data| < |Mono(data, channels)| * channels + channels
    decreases |data|
  {
    hide Average;
    if |data| >= channels {
      MonoLength(data[channels..], channels);
      OneMore(|Mono(data[channels..], channels)|, channels);
    }
  }

  /** Sample `k` of the mix is the average of the `k`-th frame. */
  lemma {:induction false} MonoAt(data: seq<Sample>, channels: nat, k: nat)
    requires channels > 0 && k < |Mono(data, channels)|
    ensures (k + 1) * channels == k * channels + channels <= |data|
    ensures Mono(data, channels)[k] == Average(data[k * channels..(k + 1) * channels], channels)
    decreases k
  {
    hide Average;
    OneMore(k, channels);
    if k == 0 {
      NoneBefore(channels);
    } else {
      var rest := data[channels..];
      MonoAt(rest, channels, k - 1);
      OneMore(k - 1, channels);
      Shifted(data, channels, (k - 1) * channels, k * channels);
    }
  }

  lemma NoneBefore(channels: nat)
    ensures 0 * channels == 0
  {
  }

  lemma Shifted(data: seq<Sample>, skip: nat, from: nat, to: nat)
    requires from <= to && skip + to <= |data|
    ensures data[skip..][from..to] == data[skip + from..skip + to]
  {
  }

  /** As much of `m` as still fits behind `queued` samples. */
  function Fitting(m: seq<Sample>, queued: nat, cap: nat): seq<Sample>
    requires queued <= cap
  {
    if |m| <= cap - queued then m else m[..cap - queued]
  }

  /** Pushing in two batches keeps what pushing at once would keep. */
  lemma FittingBatches(a: seq<Sample>, b: seq<Sample>, queued: nat, cap: nat)
    requires queued <= cap
    ensures queued + |Fitting(a, queued, cap)| <= cap
    ensures Fitting(a + b, queued, cap)
         == Fitting(a, queued, cap) + Fitting(b, queued + |Fitting(a, queued, cap)|, cap)
  {
  }

  lemma FittingNothing(queued: nat, cap: nat)
    requires queued <= cap
    ensures Fitting([], queued, cap) == []
  {
  }

  lemma MonoUnfolds(data: seq<Sample>, p: nat, channels: nat)
    requires channels > 0 && p + channels <= |data|
    ensures Mono(data[p..], channels) == [Average(data[p..p + channels], channels)] + Mono(data[p + channels..], channels)
  {
    assert data[p..][..channels] == data[p..p + channels] && data[p..][channels..] == data[p + channels..];
  }

  /** The batches in which a mix is pushed. */
  function Pieces(m: seq<Sample>): seq<seq<Sample>>
    decreases |m|
  {
    if m == [] then []
    else if |m| <= DOWNMIX_CHUNK then [m]
    else [m[..DOWNMIX_CHUNK]] + Pieces(m[DOWNMIX_CHUNK..])
  }

  lemma FullPiece(chunk: seq<Sample>, rest: seq<Sample>)
    requires |chunk| == DOWNMIX_CHUNK
    ensures Pieces(chunk + rest) == [chunk] + Pieces(rest)
  {
    var m := chunk + rest;
    if rest == [] {
      assert m == chunk;
    } else {
      assert m[..DOWNMIX_CHUNK] == chunk && m[DOWNMIX_CHUNK..] == rest;
    }
  }

  lemma LastPiece(chunk: seq<Sample>)
    requires |chunk| <= DOWNMIX_CHUNK
    ensures Pieces(chunk) == if chunk == [] then [] else [chunk]
  {
  }

  lemma MonoEnds(data: seq<Sample>, channels: nat)
    requires channels > 0 && |data| < channels
    ensures Mono(data, channels) == []
  {
  }

  /** Flushes the filled part of the chunk into the ring. */
  method Flush(ring: Ring, chunk: array<Sample>, filled: nat, ghost before: seq<Sample>, ghost done: seq<Sample>)
    requires ring.Valid() && chunk != ring.buf && filled <= chunk.Length && |before| <= ring.buf.Length
    requires ring.Contents() == before + Fitting(done, |before|, ring.buf.Length)
    modifies ring`write, ring`written, ring`offers, ring.buf
    ensures ring.Valid() && chunk[..] == old(chunk[..]) && ring.offers == old(ring.offers) + [chunk[..filled]]
    ensures ring.Contents() == before + Fitting(done + old(chunk[..filled]), |before|, ring.buf.Length)
  {
    hide Fitting, CellsFrom, Wrap, IsPowerOfTwo, Ring.Valid, Ring.Contents;
    ghost var pending, queued := chunk[..filled], |ring.Contents()|;
    QueueFits(ring);
    FittingBatches(done, pending, |before|, ring.buf.Length);
    var n := ring.PushSlice(chunk[..filled]);
    PrefixFits(pending, queued, ring.buf.Length, n);
    assert before + Fitting(done, |before|, ring.buf.Length) + pending[..n]
      == before + (Fitting(done, |before|, ring.buf.Length) + pending[..n]);
  }

  lemma PrefixFits(m: seq<Sample>, queued: nat, cap: nat, n: nat)
    requires queued <= cap && n == if |m| < cap - queued then |m| else cap - queued
    ensures m[..n] == Fitting(m, queued, cap)
  {
  }

  /** Downmixes and pushes in chunks. While nobody reads the ring, as in the synchronous pipeline, the
      chunking is invisible, also when the ring fills up; `CaptureRuns` is about a ring that is read
      meanwhile. */
  method PushDownmixed(ring: Ring, data: seq<Sample>, channels: nat)
    requires ring.Valid()
    modifies ring`write, ring`written, ring`offers, ring.buf
    ensures ring.Valid()
    ensures var before := old(ring.Contents()); var ch := if channels == 0 then 1 else channels;
            && ring.Contents() == before + Fitting(Mono(data, ch), |before|, ring.buf.Length)
            && ring.offers == old(ring.offers) + Pieces(Mono(data, ch))
  {
    hide Pieces, Mono, Fitting, Average, Sum, Wrap, IsPowerOfTwo, CellsFrom, Ring.Valid, Ring.Contents;
    var ch := if channels == 0 then 1 else channels;
    QueueFits(ring);
    FittingNothing(|ring.Contents()|, ring.buf.Length);
    var chunk := new Sample[DOWNMIX_CHUNK];
    var filled, p := 0, 0;
    ghost var before, offered := ring.Contents(), ring.offers;
    ghost var done, mixed: seq<Sample> := [], []; // mono samples already pushed, and those mixed so far
    assert data[0..] == data;
    NothingBefore(chunk[..filled], Mono(data, ch));
    while p + ch <= |data|
      invariant p <= |data| && filled < DOWNMIX_CHUNK == chunk.Length
      invariant ring.Valid() && chunk != ring.buf
      invariant Mono(data, ch) == mixed + Mono(data[p..], ch) && mixed == done + chunk[..filled]
      invariant ring.Contents() == before + Fitting(done, |before|, ring.buf.Length)
      invariant offered + Pieces(Mono(data, ch)) == ring.offers + Pieces(chunk[..filled] + Mono(data[p..], ch))
      decreases |data| - p
    {
      var sample := Average(data[p..p + ch], ch);
      MonoUnfolds(data, p, ch);
      OneMoreMixed(mixed, sample, Mono(data[p + ch..], ch));
      OneMoreMixed(chunk[..filled], sample, Mono(data[p + ch..], ch));
      AddSample(chunk, filled, sample, done, mixed);
      mixed := mixed + [sample];
      filled := filled + 1;
      p := p + ch;
      if filled == DOWNMIX_CHUNK {
        OnePieceLess(ring.offers, chunk[..filled], Mono(data[p..], ch));
        Flush(ring, chunk, filled, before, done);
        done := mixed;
        filled := 0;
        NothingPending(done, chunk[..filled]);
        NothingBefore(chunk[..filled], Mono(data[p..], ch));
      }
    }
    MonoEnds(data[p..], ch);
    NothingPending(mixed, Mono(data[p..], ch));
    NothingPending(chunk[..filled], Mono(data[p..], ch));
    LastPiece(chunk[..filled]);
    if filled > 0 {
      Flush(ring, chunk, filled, before, done);
    } else {
      NothingPending(done, chunk[..filled]);
    }
  }

  lemma QueueFits(ring: Ring)
    requires ring.Valid()
    ensures |ring.Contents()| <= ring.buf.Length
  {
  }

  /** One sample into the chunk, behind those pending. */
  method AddSample(chunk: array<Sample>, filled: nat, sample: Sample, ghost done: seq<Sample>, ghost mixed: seq<Sample>)
    requires filled < chunk.Length && mixed == done + chunk[..filled]
    modifies chunk
    ensures mixed + [sample] == done + chunk[..filled + 1]
    ensures chunk[..filled + 1] == old(chunk[..filled]) + [sample]
  {
    chunk[filled] := sample;
  }

  lemma OneMoreMixed(mixed: seq<Sample>, sample: Sample, rest: seq<Sample>)
    ensures mixed + ([sample] + rest) == mixed + [sample] + rest
  {
  }

  lemma OnePieceLess(offers: seq<seq<Sample>>, chunk: seq<Sample>, rest: seq<Sample>)
    requires |chunk| == DOWNMIX_CHUNK
    ensures offers + Pieces(chunk + rest) == offers + [chunk] + Pieces(rest)
  {
    FullPiece(chunk, rest);
  }

  lemma NothingBefore(pending: seq<Sample>, rest: seq<Sample>)
    requires pending == []
    ensures pending + rest == rest
  {
  }

  lemma NothingPending(done: seq<Sample>, pending: seq<Sample>)
    requires pending == []
    ensures done + pending == done
  {
  }

  /** The analyzer's sliding window; everything else it computes per hop is left out. */
  class Analyzer {
    const windowBuf: array<Sample>

    constructor ()
      ensures fresh(windowBuf) && windowBuf.Length == FFT_SIZE && windowBuf[..] == Zeros()
    {
      windowBuf := new Sample[FFT_SIZE](_ => 0.0);
    }

    method ProcessHop(hop: array<Sample>)
      requires windowBuf.Length == FFT_SIZE && hop.Length == HOP_SIZE && hop != windowBuf
      modifies windowBuf
      ensures windowBuf[..] == old(windowBuf[..])[HOP_SIZE..] + hop[..]
    {
      forall i | 0 <= i < FFT_SIZE - HOP_SIZE {
        windowBuf[i] := windowBuf[i + HOP_SIZE];
      }
      forall i | 0 <= i < HOP_SIZE {
        windowBuf[FFT_SIZE - HOP_SIZE + i] := hop[i];
      }
    }
  }

  function Zeros(): (z: seq<Sample>)
    ensures |z| == FFT_SIZE
  {
    seq(FFT_SIZE, _ => 0.0)
  }

  /** The last `FFT_SIZE` samples of `FFT_SIZE` zeros followed by the first `hops` hops of `mono`. */
  function WindowAfter(mono: seq<Sample>, hops: nat): (w: seq<Sample>)
    requires HOP_SIZE * hops <= |mono|
    ensures |w| == FFT_SIZE
  {
    (Zeros() + mono[..HOP_SIZE * hops])[HOP_SIZE * hops..]
  }

  /** Element by element: silence at first, then the samples in their places. */
  lemma WindowHolds(mono: seq<Sample>, hops: nat, i: nat)
    requires 256 * hops <= |mono| && i < 1024
    ensures |WindowAfter(mono, hops)| == 1024
    ensures WindowAfter(mono, hops)[i] == if 256 * hops + i < 1024 then 0.0 else mono[256 * hops + i - 1024]
  {
  }

  lemma WindowSlides(mono: seq<Sample>, hops: nat)
    requires HOP_SIZE * (hops + 1) <= |mono|
    ensures WindowAfter(mono, hops + 1)
         == WindowAfter(mono, hops)[HOP_SIZE..] + mono[HOP_SIZE * hops..HOP_SIZE * (hops + 1)]
  {
  }

  method NextPowerOfTwo(n: nat) returns (p: nat)
    requires n >= 1
    ensures IsPowerOfTwo(p) && n <= p < 2 * n
  {
    p := 1;
    while p < n
      invariant IsPowerOfTwo(p) && p < 2 * n
    {
      p := 2 * p;
    }
  }

  function HopMs(sampleRate: nat): nat
    requires sampleRate > 0
  {
    HOP_SIZE * 1000 / sampleRate
  }

  /** The timestamp of hop `k`: hops are equally spaced from zero. */
  function Timestamp(k: nat, sampleRate: nat): nat
    requires sampleRate > 0
  {
    k * HopMs(sampleRate)
  }

  lemma TimestampStep(k: nat, sampleRate: nat)
    requires sampleRate > 0
    ensures Timestamp(0, sampleRate) == 0
    ensures Timestamp(k + 1, sampleRate) == Timestamp(k, sampleRate) + HopMs(sampleRate)
  {
  }

  /** A hop's timestamp is never ahead of the sound, and less than a millisecond per hop behind. */
  lemma TimestampLags(k: nat, sampleRate: nat)
    requires sampleRate > 0
    ensures Timestamp(k, sampleRate) * sampleRate <= k * 256_000 <= (Timestamp(k, sampleRate) + k) * sampleRate
  {
    var hop := HopMs(sampleRate);
    assert 256_000 == hop * sampleRate + 256_000 % sampleRate;
    Scaled(k, hop * sampleRate, 256_000);
    Scaled(k, 256_000, hop * sampleRate + sampleRate);
    Regrouped(k, hop, sampleRate);
  }

  lemma Scaled(k: nat, a: nat, b: nat)
    requires a <= b
    ensures k * a <= k * b
  {
  }

  lemma Regrouped(k: nat, hop: nat, rate: nat)
    ensures k * (hop * rate) == k * hop * rate
    ensures k * (hop * rate + rate) == (k * hop + k) * rate
  {
  }

  lemma AllFits(m: seq<Sample>, cap: nat)
    requires |m| <= cap
    ensures Fitting(m, 0, cap) == m
  {
  }

  lemma FirstWindow(mono: seq<Sample>)
    ensures WindowAfter(mono, 0) == Zeros()
  {
  }

  datatype Hop = Hop(window: seq<Sample>, timestampMs: nat)

  /** Takes the next hop, if a complete one is queued. */
  method NextHop(ring: Ring, hopBuf: array<Sample>, ghost mono: seq<Sample>, ghost hops: nat) returns (more: bool)
    requires ring.Valid() && hopBuf != ring.buf && hopBuf.Length == HOP_SIZE
    requires HOP_SIZE * hops <= |mono| && ring.Contents() == mono[HOP_SIZE * hops..]
    modifies ring`read, ring`consumed, hopBuf
    ensures ring.Valid()
    ensures more <==> HOP_SIZE * (hops + 1) <= |mono|
    ensures more ==> hopBuf[..] == mono[HOP_SIZE * hops..HOP_SIZE * (hops + 1)]
    ensures more ==> ring.Contents() == mono[HOP_SIZE * (hops + 1)..]
  {
    more := ring.PopExact(hopBuf);
    if more {
      assert mono[HOP_SIZE * hops..][..HOP_SIZE] == mono[HOP_SIZE * hops..HOP_SIZE * (hops + 1)];
      assert mono[HOP_SIZE * hops..][HOP_SIZE..] == mono[HOP_SIZE * (hops + 1)..];
    }
  }

  ghost predicate HopsOk(results: seq<Hop>, mono: seq<Sample>, sampleRate: nat)
    requires sampleRate > 0
  {
    && HOP_SIZE * |results| <= |mono|
    && forall k :: 0 <= k < |results| ==>
         && results[k].window == WindowAfter(mono, k + 1)
         && results[k].timestampMs == Timestamp(k, sampleRate)
  }

  lemma NoHops(mono: seq<Sample>, sampleRate: nat)
    requires sampleRate > 0
    ensures HopsOk([], mono, sampleRate)
  {
  }

  lemma HopsSnoc(results: seq<Hop>, hop: Hop, mono: seq<Sample>, sampleRate: nat)
    requires sampleRate > 0 && HopsOk(results, mono, sampleRate) && HOP_SIZE * (|results| + 1) <= |mono|
    requires hop == Hop(WindowAfter(mono, |results| + 1), Timestamp(|results|, sampleRate))
    ensures HOP_SIZE * |results| <= |mono| && HopsOk(results + [hop], mono, sampleRate)
  {
    hide WindowAfter, Timestamp;
  }

  /** The hop loop over a ring that holds all of `mono`. */
  method HopLoop(ring: Ring, analyzer: Analyzer, sampleRate: nat, ghost mono: seq<Sample>) returns (results: seq<Hop>)
    requires ring.Valid() && ring.Contents() == mono && sampleRate > 0
    requires analyzer.windowBuf != ring.buf && analyzer.windowBuf.Length == FFT_SIZE && analyzer.windowBuf[..] == Zeros()
    modifies ring`read, ring`consumed, analyzer.windowBuf
    ensures HopsOk(results, mono, sampleRate) && |mono| < HOP_SIZE * (|results| + 1)
  {
    hide WindowAfter, Zeros, Timestamp, IsPowerOfTwo, Wrap, HopsOk, Ring.Valid, Ring.Contents;
    var hopBuf := new Sample[HOP_SIZE];
    var ts := 0;
    results := [];
    NoHops(mono, sampleRate);
    FirstWindow(mono);
    TimestampStep(0, sampleRate);
    assert mono == mono[HOP_SIZE * 0..];
    var more := NextHop(ring, hopBuf, mono, 0);
    while more
      invariant ring.Valid() && HopsOk(results, mono, sampleRate) && HOP_SIZE * |results| <= |mono|
      invariant analyzer.windowBuf[..] == WindowAfter(mono, |results|)
      invariant more <==> HOP_SIZE * (|results| + 1) <= |mono|
      invariant more ==> hopBuf[..] == mono[HOP_SIZE * |results|..HOP_SIZE * (|results| + 1)]
      invariant more ==> ring.Contents() == mono[HOP_SIZE * (|results| + 1)..]
      invariant ts == Timestamp(|results|, sampleRate)
      decreases |mono| - HOP_SIZE * |results|
    {
      WindowSlides(mono, |results|);
      TimestampStep(|results|, sampleRate);
      analyzer.ProcessHop(hopBuf);
      HopsSnoc(results, Hop(analyzer.windowBuf[..], ts), mono, sampleRate);
      results := results + [Hop(analyzer.windowBuf[..], ts)];
      ts := ts + HopMs(sampleRate);
      more := NextHop(ring, hopBuf, mono, |results|);
    }
  }

  /** The whole synchronous pipeline: every complete hop of the mono mix is analysed once, in order,
      over exactly the samples that precede its end. */
  method AnalyzeAll(samples: seq<Sample>, channels: nat, sampleRate: nat, word: nat) returns (results: seq<Hop>)
    requires sampleRate > 0
    requires IsPowerOfTwo(word) && 2 * (|samples| + 4 * HOP_SIZE) < word
    ensures var mono := Mono(samples, if channels == 0 then 1 else channels);
            && |results| == |mono| / HOP_SIZE
            && HopsOk(results, mono, sampleRate)
  {
    hide WindowAfter, Zeros, Timestamp, IsPowerOfTwo, Wrap, Mono, Fitting;
    var cap := NextPowerOfTwo(|samples| + 4 * HOP_SIZE);
    var ring := new Ring(cap, word);
    PushDownmixed(ring, samples, channels);
    ghost var mono := Mono(samples, if channels == 0 then 1 else channels);
    AllFits(mono, cap);
    assert ring.Contents() == mono;
    var analyzer := new Analyzer();
    results := HopLoop(ring, analyzer, sampleRate, mono);
  }
}
