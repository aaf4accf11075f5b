/** One call of the capture callback beside a thread that reads hops from the ring: what of the mono mix
    the ring takes, over every interleaving of their accesses. */
module CaptureRuns {
  import opened Basics
  import opened PowersOfTwo
  import opened WrappingIndex
  import opened BoundedFifo
  import opened SpscRing
  import opened Capture

  /** `run` leads from `s` to `t`, and its pushes offered `offered`. */
  ghost predicate Leads(s: State, run: seq<Action>, word: nat, t: State, offered: seq<seq<Sample>>) {
    Runs(s, run, word) && After(s, run, word) == t && Offered(Trace(s, run, word)) == offered
  }

  // ---- what a run stores ----

  /** The samples accepted over a run are the accepted parts of its offers. */
  lemma {:induction false} RunStores(s: State, run: seq<Action>, word: nat)
    requires Inv(s, word) && Runs(s, run, word)
    ensures var trace := Trace(s, run, word);
            CountsFit(Offered(trace), Counts(trace))
            && After(s, run, word).pushed == s.pushed + Kept(Offered(trace), Counts(trace))
    decreases |run|
  {
    hide Step, Observe, Inv, CountsFit, Kept, InRange;
    if run == [] {
      NothingKept();
    } else {
      var m := Step(s, run[0], word);
      StepInv(s, run[0], word);
      RunStores(m, run[1..], word);
      var trace := Trace(m, run[1..], word);
      assert Trace(s, run, word)[0] == Observe(s, run[0], word) && Trace(s, run, word)[1..] == trace;
      StepStores(s, run[0], word, Offered(trace), Counts(trace));
    }
  }

  lemma StepStores(s: State, a: Action, word: nat, pieces: seq<seq<Sample>>, ns: seq<int>)
    requires Inv(s, word) && Enabled(s, a) && word > 0 && InRange(s, word) && CountsFit(pieces, ns)
    ensures var e := Observe(s, a, word);
            var ps, counts := (if e.Pushed? then [e.data] else []) + pieces, (if e.Pushed? then [e.n] else []) + ns;
            CountsFit(ps, counts) && s.pushed + Kept(ps, counts) == Step(s, a, word).pushed + Kept(pieces, ns)
  {
    hide Kept, CountsFit, Counters, ConsumerOk, Queue, WrappingAdd, WrappingSub;
    assert [] + pieces == pieces && [] + ns == ns;
    var kept := Kept(pieces, ns);
    if a.PushPublish? {
      var p := s.producer;
      KeptCons(p.data, p.n, pieces, ns);
      assert s.pushed + (p.data[..p.n] + kept) == s.pushed + p.data[..p.n] + kept;
    }
  }

  // ---- prefixes ----

  function Flat(pieces: seq<seq<Sample>>): seq<Sample> {
    if pieces == [] then [] else pieces[0] + Flat(pieces[1..])
  }

  lemma {:induction false} PiecesAreTheMix(m: seq<Sample>)
    ensures Flat(Pieces(m)) == m
    decreases |m|
  {
    if |m| > DOWNMIX_CHUNK {
      PiecesAreTheMix(m[DOWNMIX_CHUNK..]);
      assert Pieces(m)[1..] == Pieces(m[DOWNMIX_CHUNK..]);
      assert m == m[..DOWNMIX_CHUNK] + m[DOWNMIX_CHUNK..];
    } else if m != [] {
      assert [m][1..] == [] && m + [] == m;
    }
  }

  /** Every piece but the last is a full chunk, and none is empty. */
  lemma {:induction false} PieceLengths(m: seq<Sample>, k: nat)
    requires k < |Pieces(m)|
    ensures 1 <= |Pieces(m)[k]| <= 256 && (k < |Pieces(m)| - 1 ==> |Pieces(m)[k]| == 256)
    decreases k
  {
    if k > 0 {
      PieceLengths(m[DOWNMIX_CHUNK..], k - 1);
    }
  }

  /** After a piece that was not taken whole, nothing of any later piece is taken. */
  predicate NothingAfterTruncation(pieces: seq<seq<Sample>>, ns: seq<int>)
    requires |ns| == |pieces|
  {
    forall i, j :: 0 <= i < j < |ns| && ns[i] < |pieces[i]| ==> ns[j] == 0
  }

  ghost predicate Distinct(m: seq<Sample>) {
    forall i, j :: 0 <= i < j < |m| ==> m[i] != m[j]
  }

  lemma {:induction false} NothingTaken(pieces: seq<seq<Sample>>, ns: seq<int>)
    requires CountsFit(pieces, ns)
    ensures Kept(pieces, ns) == [] <==> forall j :: 0 <= j < |ns| ==> ns[j] == 0
  {
    if pieces != [] {
      NothingTaken(pieces[1..], ns[1..]);
      assert ns == [ns[0]] + ns[1..];
    }
  }

  lemma {:induction false} KeptAreFromTheMix(pieces: seq<seq<Sample>>, ns: seq<int>)
    requires CountsFit(pieces, ns)
    ensures forall k :: 0 <= k < |Kept(pieces, ns)| ==> Kept(pieces, ns)[k] in Flat(pieces)
  {
    if pieces != [] {
      KeptAreFromTheMix(pieces[1..], ns[1..]);
    }
  }

  /** When nothing follows a truncated piece, what is kept is a prefix of the whole, whatever it holds;
      and with distinct samples only then. */
  lemma {:induction false} PrefixIffNothingAfterTruncation(pieces: seq<seq<Sample>>, ns: seq<int>)
    requires CountsFit(pieces, ns)
    ensures NothingAfterTruncation(pieces, ns) ==> Kept(pieces, ns) <= Flat(pieces)
    ensures Distinct(Flat(pieces)) && Kept(pieces, ns) <= Flat(pieces) ==> NothingAfterTruncation(pieces, ns)
  {
    hide Kept, Flat, NothingAfterTruncation, Distinct;
    if pieces == [] {
      NothingToTruncate(pieces, ns);
    } else {
      var p, n, ps, rest := pieces[0], ns[0], pieces[1..], ns[1..];
      KeptUnfolds(pieces, ns);
      PrefixIffNothingAfterTruncation(ps, rest);
      TruncationUnfolds(pieces, ns);
      NothingTaken(ps, rest);
      DistinctRest(p, Flat(ps));
      if n == |p| {
        assert p[..n] == p;
        PrefixCancels(p, Kept(ps, rest), Flat(ps));
      } else {
        if Kept(ps, rest) == [] {
          assert p[..n] + [] <= p + Flat(ps);
        }
        if Distinct(p + Flat(ps)) && Kept(ps, rest) != [] {
          KeptAreFromTheMix(ps, rest);
          ElsewhereInTheMix(p, n, Kept(ps, rest), Flat(ps));
        }
      }
    }
  }

  lemma KeptUnfolds(pieces: seq<seq<Sample>>, ns: seq<int>)
    requires CountsFit(pieces, ns) && pieces != []
    ensures CountsFit(pieces[1..], ns[1..])
    ensures Kept(pieces, ns) == pieces[0][..ns[0]] + Kept(pieces[1..], ns[1..])
    ensures Flat(pieces) == pieces[0] + Flat(pieces[1..])
  {
  }

  lemma NothingToTruncate(pieces: seq<seq<Sample>>, ns: seq<int>)
    requires CountsFit(pieces, ns) && pieces == []
    ensures NothingAfterTruncation(pieces, ns) && Kept(pieces, ns) == [] == Flat(pieces)
  {
  }

  lemma TruncationUnfolds(pieces: seq<seq<Sample>>, ns: seq<int>)
    requires CountsFit(pieces, ns) && pieces != []
    ensures NothingAfterTruncation(pieces, ns)
      <==> NothingAfterTruncation(pieces[1..], ns[1..])
           && (ns[0] < |pieces[0]| ==> forall j :: 0 <= j < |ns[1..]| ==> ns[1..][j] == 0)
  {
    var ps, rest := pieces[1..], ns[1..];
    if NothingAfterTruncation(pieces, ns) {
      forall i, j | 0 <= i < j < |rest| && rest[i] < |ps[i]| ensures rest[j] == 0 {
        assert ns[i + 1] < |pieces[i + 1]| && ns[j + 1] == 0;
      }
      if ns[0] < |pieces[0]| {
        forall j | 0 <= j < |rest| ensures rest[j] == 0 {
          assert ns[j + 1] == 0;
        }
      }
    }
    if NothingAfterTruncation(ps, rest) && (ns[0] < |pieces[0]| ==> forall j :: 0 <= j < |rest| ==> rest[j] == 0) {
      forall i, j | 0 <= i < j < |ns| && ns[i] < |pieces[i]| ensures ns[j] == 0 {
        assert ns[j] == rest[j - 1];
        if i > 0 {
          assert rest[i - 1] < |ps[i - 1]|;
        }
      }
    }
  }

  lemma DistinctRest(p: seq<Sample>, rest: seq<Sample>)
    ensures Distinct(p + rest) ==> Distinct(rest)
  {
    if Distinct(p + rest) {
      forall i, j | 0 <= i < j < |rest| ensures rest[i] != rest[j] {
        assert (p + rest)[|p| + i] != (p + rest)[|p| + j];
      }
    }
  }

  lemma PrefixCancels(p: seq<Sample>, a: seq<Sample>, b: seq<Sample>)
    ensures p + a <= p + b <==> a <= b
  {
    if p + a <= p + b {
      assert (p + b)[|p|..|p| + |a|] == b[..|a|] && (p + a)[|p|..] == a;
      assert (p + a)[|p|..] == (p + b)[|p|..|p| + |a|];
    }
  }

  lemma ElsewhereInTheMix(p: seq<Sample>, n: nat, kept: seq<Sample>, rest: seq<Sample>)
    requires n < |p| && kept != [] && Distinct(p + rest) && kept[0] in rest
    ensures !(p[..n] + kept <= p + rest)
  {
    var j :| 0 <= j < |rest| && rest[j] == kept[0];
    var m := p + rest;
    assert m[n] == p[n] && m[|p| + j] == kept[0];
    assert (p[..n] + kept)[n] == kept[0];
  }

  // ---- one call of the callback ----

  /** What one call adds to the ring, whatever the reader does meanwhile: the accepted parts of its
      pieces. That is a prefix of the mix when nothing is taken after a truncated piece, and with
      distinct samples only then. */
  lemma CallStores(s: State, run: seq<Action>, word: nat, m: seq<Sample>)
    requires Inv(s, word) && Runs(s, run, word) && Offered(Trace(s, run, word)) == Pieces(m)
    ensures var ns := Counts(Trace(s, run, word));
            && CountsFit(Pieces(m), ns)
            && After(s, run, word).pushed == s.pushed + Kept(Pieces(m), ns)
            && (NothingAfterTruncation(Pieces(m), ns) ==> Kept(Pieces(m), ns) <= m)
            && (Distinct(m) && Kept(Pieces(m), ns) <= m ==> NothingAfterTruncation(Pieces(m), ns))
  {
    hide Runs, Trace, After, Kept, Pieces, Inv, CountsFit, NothingAfterTruncation, Distinct;
    RunStores(s, run, word);
    PiecesAreTheMix(m);
    PrefixIffNothingAfterTruncation(Pieces(m), Counts(Trace(s, run, word)));
  }

  lemma {:induction false} TotalOfMix(m: seq<Sample>)
    ensures Total(Pieces(m)) == |m|
    decreases |m|
  {
    if |m| > DOWNMIX_CHUNK {
      TotalOfMix(m[DOWNMIX_CHUNK..]);
      TotalCons(m[..DOWNMIX_CHUNK], Pieces(m[DOWNMIX_CHUNK..]));
    }
  }

  lemma {:induction false} AllKept(pieces: seq<seq<Sample>>, ns: seq<int>)
    requires CountsFit(pieces, ns) && forall k :: 0 <= k < |pieces| ==> ns[k] == |pieces[k]|
    ensures Kept(pieces, ns) == Flat(pieces)
  {
    if pieces != [] {
      AllKept(pieces[1..], ns[1..]);
      assert pieces[0][..ns[0]] == pieces[0];
    }
  }

  /** A call that starts with room for its whole mix stores all of it, under every interleaving. */
  lemma RoomyCallStoresAll(s: State, run: seq<Action>, word: nat, m: seq<Sample>)
    requires Inv(s, word) && Runs(s, run, word) && s.producer.PushIdle? && Offered(Trace(s, run, word)) == Pieces(m)
    requires |Queue(s)| + |m| <= |s.cells|
    ensures After(s, run, word).pushed == s.pushed + m
  {
    hide Runs, Trace, After, Kept, Pieces, Inv, CountsFit, FifoRun, FifoAfter, Queue, Flat, Total;
    var trace := Trace(s, run, word);
    RunRefinesFifo(s, run, word);
    RunStores(s, run, word);
    TotalOfMix(m);
    RoomyRunTakesAll(|s.cells|, Shown(s), trace);
    AllKept(Pieces(m), Counts(trace));
    PiecesAreTheMix(m);
  }

  /** Nothing is given out during `trace`. */
  predicate Unread(trace: seq<Event>) {
    forall k :: 0 <= k < |trace| ==> !trace[k].Popped?
  }

  /** While nobody reads, pushes accept together what one push of everything would. */
  lemma {:induction false} UnreadRunFits(cap: nat, f: Fifo, trace: seq<Event>)
    requires FifoRun(cap, f, trace) && Unread(trace) && |f.q| <= cap
    requires f.push.Some? ==> f.push.value.fill == |f.q|
    ensures CountsFit(Offered(trace), Counts(trace))
    ensures Kept(Offered(trace), Counts(trace)) == Fitting(Flat(Offered(trace)), |f.q|, cap)
    decreases |trace|
  {
    hide Fitting, Kept, CountsFit, Allows, Moved, Unread, Flat, Offered, Counts;
    if trace == [] {
      NothingOffered();
      FittingNothing(|f.q|, cap);
    } else {
      var e, rest := trace[0], trace[1..];
      UnreadStep(cap, f, trace);
      OfferedUnfolds(trace);
      UnreadRunFits(cap, Moved(cap, f, e), rest);
      if e.Pushed? {
        PushFits(cap, f, e, Offered(rest), Counts(rest));
      }
    }
  }

  lemma NothingOffered()
    ensures Offered([]) == [] && Counts([]) == [] && Flat([]) == []
    ensures CountsFit([], []) && Kept([], []) == []
  {
  }

  lemma OfferedUnfolds(trace: seq<Event>)
    requires trace != []
    ensures trace[0].Pushed? ==> Offered(trace) == [trace[0].data] + Offered(trace[1..])
    ensures trace[0].Pushed? ==> Counts(trace) == [trace[0].n] + Counts(trace[1..])
    ensures !trace[0].Pushed? ==> Offered(trace) == Offered(trace[1..]) && Counts(trace) == Counts(trace[1..])
  {
  }

  lemma UnreadStep(cap: nat, f: Fifo, trace: seq<Event>)
    requires trace != [] && Allows(cap, f, trace[0]) && Unread(trace) && |f.q| <= cap
    requires f.push.Some? ==> f.push.value.fill == |f.q|
    ensures var g := Moved(cap, f, trace[0]);
            Unread(trace[1..]) && |g.q| <= cap && (g.push.Some? ==> g.push.value.fill == |g.q|)
            && (if trace[0].Pushed? then f.push.Some? else g.q == f.q)
  {
  }

  lemma PushFits(cap: nat, f: Fifo, e: Event, pieces: seq<seq<Sample>>, ns: seq<int>)
    requires e.Pushed? && Allows(cap, f, e) && |f.q| <= cap && f.push.value.fill == |f.q|
    requires CountsFit(pieces, ns) && |Moved(cap, f, e).q| <= cap
    requires Kept(pieces, ns) == Fitting(Flat(pieces), |Moved(cap, f, e).q|, cap)
    ensures CountsFit([e.data] + pieces, [e.n] + ns)
    ensures Kept([e.data] + pieces, [e.n] + ns) == Fitting(Flat([e.data] + pieces), |f.q|, cap)
  {
    hide Fitting, Kept, CountsFit;
    KeptCons(e.data, e.n, pieces, ns);
    assert ([e.data] + pieces)[1..] == pieces;
    FittingBatches(e.data, Flat(pieces), |f.q|, cap);
    PrefixFits(e.data, |f.q|, cap, e.n);
  }

  /** A call during which nobody reads stores the prefix of its mix that fits. */
  lemma UnreadCallStoresFitting(s: State, run: seq<Action>, word: nat, m: seq<Sample>)
    requires Inv(s, word) && Runs(s, run, word) && s.producer.PushIdle? && Offered(Trace(s, run, word)) == Pieces(m)
    requires Unread(Trace(s, run, word))
    ensures |Queue(s)| <= |s.cells|
    ensures After(s, run, word).pushed == s.pushed + Fitting(m, |Queue(s)|, |s.cells|)
  {
    hide Runs, Trace, After, Kept, Pieces, CountsFit, FifoRun, FifoAfter, Flat, Fitting, Unread, Inv, Queue;
    QueueInBounds(s, word);
    RunRefinesFifo(s, run, word);
    RunStores(s, run, word);
    UnreadRunFits(|s.cells|, Shown(s), Trace(s, run, word));
    PiecesAreTheMix(m);
  }

  lemma QueueInBounds(s: State, word: nat)
    requires Inv(s, word)
    ensures |Queue(s)| <= |s.cells| && |Queue(s)| == |s.pushed| - |s.popped|
  {
  }

  // ---- uninterrupted calls ----

  function OfferOf(e: Event): seq<seq<Sample>> {
    if e.Pushed? then [e.data] else []
  }

  lemma LeadsFirst(s: State, run: seq<Action>, word: nat, t: State, offered: seq<seq<Sample>>)
      returns (rest: seq<seq<Sample>>)
    requires Leads(s, run, word, t, offered) && run != []
    ensures word > 0 && InRange(s, word) && Enabled(s, run[0])
    ensures Leads(Step(s, run[0], word), run[1..], word, t, rest) && offered == OfferOf(Observe(s, run[0], word)) + rest
  {
    hide Step, Observe, InRange, Enabled;
    rest := Offered(Trace(Step(s, run[0], word), run[1..], word));
    var trace := Trace(s, run, word);
    assert trace[0] == Observe(s, run[0], word) && trace[1..] == Trace(Step(s, run[0], word), run[1..], word);
  }

  lemma LeadsCons(s: State, a: Action, rest: seq<Action>, word: nat, t: State, offered: seq<seq<Sample>>)
    requires word > 0 && InRange(s, word) && Enabled(s, a) && Leads(Step(s, a, word), rest, word, t, offered)
    ensures Leads(s, [a] + rest, word, t, OfferOf(Observe(s, a, word)) + offered)
  {
    hide Step, Observe, InRange, Enabled;
    var run := [a] + rest;
    assert run[0] == a && run[1..] == rest;
    var trace := Trace(s, run, word);
    assert trace[0] == Observe(s, a, word) && trace[1..] == Trace(Step(s, a, word), rest, word);
  }

  lemma {:induction false} RunsThen(s: State, a: seq<Action>, t: State, b: seq<Action>, u: State, word: nat,
                                    first: seq<seq<Sample>>, second: seq<seq<Sample>>)
    requires Leads(s, a, word, t, first) && Leads(t, b, word, u, second)
    ensures Leads(s, a + b, word, u, first + second)
    decreases |a|
  {
    hide Step, Observe, InRange, Enabled, Leads, OfferOf;
    if a == [] {
      NoSteps(s, word, t, first);
      assert a + b == b && first + second == second;
    } else {
      var rest := LeadsFirst(s, a, word, t, first);
      RunsThen(Step(s, a[0], word), a[1..], t, b, u, word, rest, second);
      LeadsCons(s, a[0], a[1..] + b, word, u, rest + second);
      assert [a[0]] + (a[1..] + b) == a + b;
      var offer := OfferOf(Observe(s, a[0], word));
      assert offer + (rest + second) == offer + rest + second;
    }
  }

  lemma NoSteps(s: State, word: nat, t: State, offered: seq<seq<Sample>>)
    ensures Leads(s, [], word, t, offered) <==> t == s && offered == []
  {
  }

  lemma OneStep(s: State, a: Action, word: nat)
    requires word > 0 && InRange(s, word) && Enabled(s, a)
    ensures Leads(s, [a], word, Step(s, a, word), OfferOf(Observe(s, a, word)))
  {
    hide Step, Observe, InRange, Enabled, Leads, OfferOf;
    NoSteps(Step(s, a, word), word, Step(s, a, word), []);
    LeadsCons(s, a, [], word, Step(s, a, word), []);
    assert [a] + [] == [a];
    assert OfferOf(Observe(s, a, word)) + [] == OfferOf(Observe(s, a, word));
  }

  /** The rest of the cells of a push, and its end. */
  lemma {:induction false} FinishPush(s: State, word: nat) returns (run: seq<Action>, t: State)
    requires Inv(s, word) && s.producer.PushWriting?
    ensures Leads(s, run, word, t, [s.producer.data]) && Inv(t, word) && t.producer.PushIdle?
    ensures t.pushed == s.pushed + s.producer.data[..s.producer.n]
    ensures t.popped == s.popped && t.consumer == s.consumer && |t.cells| == |s.cells|
    decreases s.producer.n - s.producer.i
  {
    hide Inv, Leads, WrappingAdd, WrappingSub, Queue;
    var a := if s.producer.i < s.producer.n then PushCell else PushPublish;
    StepInv(s, a, word);
    PushCount(s, word);
    OneStep(s, a, word);
    t := Step(s, a, word);
    run := [a];
    if a.PushCell? {
      var rest, u := FinishPush(t, word);
      RunsThen(s, [a], t, rest, u, word, [], [s.producer.data]);
      assert [] + [s.producer.data] == [s.producer.data];
      run, t := [a] + rest, u;
    }
  }

  lemma PushCount(s: State, word: nat)
    requires Inv(s, word) && s.producer.PushWriting?
    ensures 0 <= s.producer.i <= s.producer.n <= |s.producer.data|
  {
  }

  /** A push can run without interruption, and then takes what fits now. */
  lemma LonePush(s: State, data: seq<Sample>, word: nat) returns (run: seq<Action>, t: State)
    requires Inv(s, word) && s.producer.PushIdle?
    ensures Leads(s, run, word, t, [data]) && Inv(t, word) && t.producer.PushIdle?
    ensures |Queue(s)| <= |s.cells| && t.pushed == s.pushed + data[..Min(|data|, |s.cells| - |Queue(s)|)]
    ensures t.popped == s.popped && t.consumer == s.consumer && |t.cells| == |s.cells|
  {
    hide Inv, Leads, WrappingAdd, WrappingSub, Queue, Free;
    QueueInBounds(s, word);
    StepInv(s, PushLoadRead(data), word);
    OneStep(s, PushLoadRead(data), word);
    var loaded := Step(s, PushLoadRead(data), word);
    StepInv(loaded, PushLoadWrite, word);
    OneStep(loaded, PushLoadWrite, word);
    FreeIsExact(loaded, word);
    var writing := Step(loaded, PushLoadWrite, word);
    var rest, u := FinishPush(writing, word);
    RunsThen(loaded, [PushLoadWrite], writing, rest, u, word, [], [data]);
    assert [] + [data] == [data];
    RunsThen(s, [PushLoadRead(data)], loaded, [PushLoadWrite] + rest, u, word, [], [data]);
    run, t := [PushLoadRead(data)] + ([PushLoadWrite] + rest), u;
  }

  lemma {:induction false} FinishPop(s: State, word: nat) returns (run: seq<Action>, t: State)
    requires Inv(s, word) && s.consumer.PopReading?
    ensures Leads(s, run, word, t, []) && Inv(t, word) && t.consumer.PopIdle?
    ensures |t.popped| == |s.popped| + s.consumer.len
    ensures t.pushed == s.pushed && t.producer == s.producer && |t.cells| == |s.cells|
    decreases s.consumer.len - |s.consumer.out|
  {
    hide Inv, Leads, WrappingAdd, WrappingSub, Queue;
    var a := if |s.consumer.out| < s.consumer.len then PopCell else PopPublish;
    StepInv(s, a, word);
    PopCount(s, word);
    OneStep(s, a, word);
    t := Step(s, a, word);
    run := [a];
    if a.PopCell? {
      var rest, u := FinishPop(t, word);
      RunsThen(s, [a], t, rest, u, word, [], []);
      NoOffers();
      run, t := [a] + rest, u;
    }
  }

  lemma NoOffers()
    ensures var none: seq<seq<Sample>> := []; none + none == none
  {
  }

  lemma PopCount(s: State, word: nat)
    requires Inv(s, word) && s.consumer.PopReading?
    ensures |s.consumer.out| <= s.consumer.len
  {
  }

  lemma LonePop(s: State, len: nat, word: nat) returns (run: seq<Action>, t: State)
    requires Inv(s, word) && s.consumer.PopIdle? && len <= |Queue(s)|
    ensures Leads(s, run, word, t, []) && Inv(t, word) && t.consumer.PopIdle?
    ensures |t.popped| == |s.popped| + len
    ensures t.pushed == s.pushed && t.producer == s.producer && |t.cells| == |s.cells|
  {
    hide Inv, Leads, WrappingAdd, WrappingSub, Queue;
    StepInv(s, PopLoadWrite(len), word);
    OneStep(s, PopLoadWrite(len), word);
    var loaded := Step(s, PopLoadWrite(len), word);
    StepInv(loaded, PopLoadRead, word);
    OneStep(loaded, PopLoadRead, word);
    AvailableIsExact(loaded, word);
    var reading := Step(loaded, PopLoadRead, word);
    var rest, u := FinishPop(reading, word);
    NoOffers();
    RunsThen(loaded, [PopLoadRead], reading, rest, u, word, [], []);
    RunsThen(s, [PopLoadWrite(len)], loaded, [PopLoadRead] + rest, u, word, [], []);
    run, t := [PopLoadWrite(len)] + ([PopLoadRead] + rest), u;
  }

  // ---- the gap ----

  lemma TwoPieces(m: seq<Sample>)
    requires DOWNMIX_CHUNK < |m| <= 2 * DOWNMIX_CHUNK
    ensures Pieces(m) == [m[..DOWNMIX_CHUNK], m[DOWNMIX_CHUNK..]]
  {
  }

  /** When the first of two pieces is truncated and a hop is then read before the second is pushed, the
      ring takes all of the second: what it receives of the mix has a gap. */
  lemma GapRun(s: State, word: nat, m: seq<Sample>) returns (run: seq<Action>, t: State)
    requires Inv(s, word) && s.producer.PushIdle? && s.consumer.PopIdle?
    requires DOWNMIX_CHUNK < |m| <= 2 * DOWNMIX_CHUNK && |Queue(s)| >= HOP_SIZE
    requires |s.cells| - |Queue(s)| < DOWNMIX_CHUNK
    ensures Leads(s, run, word, t, Pieces(m)) && Inv(t, word) && |Queue(s)| <= |s.cells|
    ensures t.pushed == s.pushed + (m[..|s.cells| - |Queue(s)|] + m[DOWNMIX_CHUNK..])
  {
    hide Inv, Leads, Queue, Pieces;
    var a, b := m[..DOWNMIX_CHUNK], m[DOWNMIX_CHUNK..];
    TwoPieces(m);
    QueueInBounds(s, word);
    var room := |s.cells| - |Queue(s)|;
    var push, full := LonePush(s, a, word);
    QueueInBounds(full, word);
    var pop, read := LonePop(full, HOP_SIZE, word);
    QueueInBounds(read, word);
    var again, u := LonePush(read, b, word);
    RunsThen(full, pop, read, again, u, word, [], [b]);
    assert [] + [b] == [b] && [a] + [b] == [a, b];
    RunsThen(s, push, full, pop + again, u, word, [a], [b]);
    run, t := push + (pop + again), u;
    assert a[..room] == m[..room] && b[..|b|] == b;
    assert s.pushed + m[..room] + b == s.pushed + (m[..room] + b);
  }

  /** It happens: a ring of 512 cells with 400 queued, and a mix of 512 samples. The ring receives the
      first 112 and the last 256, which is no prefix unless two samples happen to be equal. */
  lemma GapIsReachable(m: seq<Sample>) returns (start: seq<Action>, s: State, run: seq<Action>, t: State)
    requires |m| == 512
    ensures Leads(Init(512), start, 0x1_0000_0000_0000_0000, s, [seq(400, _ => 0.0)]) && s.producer.PushIdle?
    ensures Leads(s, run, 0x1_0000_0000_0000_0000, t, Pieces(m))
    ensures t.pushed == s.pushed + (m[..112] + m[256..])
    ensures m[112] != m[256] ==> !(m[..112] + m[256..] <= m)
  {
    hide Inv, Leads, Queue, Pieces;
    PowerOf512();
    Word64(512);
    InitInv(512, 0x1_0000_0000_0000_0000);
    QueueInBounds(Init(512), 0x1_0000_0000_0000_0000);
    start, s := LonePush(Init(512), seq(400, _ => 0.0), 0x1_0000_0000_0000_0000);
    QueueInBounds(s, 0x1_0000_0000_0000_0000);
    run, t := GapRun(s, 0x1_0000_0000_0000_0000, m);
    assert (m[..112] + m[256..])[112] == m[256];
  }

  lemma PowerOf512()
    ensures IsPowerOfTwo(512)
  {
  }
}
