/** A first-in-first-out queue of bounded room whose calls take time: a call notes how many samples are
    queued when it begins, and what it does when it ends follows from that count. In between, the other
    side may end calls of its own. */
module BoundedFifo {
  import opened Basics

  type Sample = real

  /** A push under way: what is offered, and how many samples were queued when it began. */
  datatype PushCall = PushCall(data: seq<Sample>, fill: nat)

  /** A pop under way: how many samples are asked for, and how many were queued when it began. */
  datatype PopCall = PopCall(len: nat, fill: nat)

  datatype Fifo = Fifo(q: seq<Sample>, push: Option<PushCall>, pop: Option<PopCall>)

  const EMPTY := Fifo([], None, None)

  datatype Event =
    | Silent
    | PushCalled(offered: seq<Sample>)
    | Pushed(data: seq<Sample>, n: int)
    | PopCalled(len: nat)
    | Popped(out: seq<Sample>)
    | PopRefused

  /** What the queue allows: one call of each kind at a time; a push takes the longest prefix that fitted
      when it began; a pop takes the samples asked for, from the front, if that many were there when it
      began, and is refused only if they were not. */
  predicate Allows(cap: nat, f: Fifo, e: Event) {
    match e
    case Silent => true
    case PushCalled(_) => f.push.None?
    case Pushed(data, n) =>
      f.push.Some? && data == f.push.value.data && f.push.value.fill <= cap && n == Min(|data|, cap - f.push.value.fill)
    case PopCalled(_) => f.pop.None?
    case Popped(out) => f.pop.Some? && f.pop.value.len <= f.pop.value.fill && |out| == f.pop.value.len && out <= f.q
    case PopRefused => f.pop.Some? && f.pop.value.fill < f.pop.value.len
  }

  function Moved(cap: nat, f: Fifo, e: Event): Fifo
    requires Allows(cap, f, e)
  {
    match e
    case Silent => f
    case PushCalled(data) => f.(push := Some(PushCall(data, |f.q|)))
    case Pushed(data, n) => f.(q := f.q + data[..n], push := None)
    case PopCalled(len) => f.(pop := Some(PopCall(len, |f.q|)))
    case Popped(out) => f.(q := f.q[|out|..], pop := None)
    case PopRefused => f.(pop := None)
  }

  predicate FifoRun(cap: nat, f: Fifo, trace: seq<Event>)
    decreases |trace|
  {
    trace == [] || (Allows(cap, f, trace[0]) && FifoRun(cap, Moved(cap, f, trace[0]), trace[1..]))
  }

  function FifoAfter(cap: nat, f: Fifo, trace: seq<Event>): Fifo
    requires FifoRun(cap, f, trace)
    decreases |trace|
  {
    if trace == [] then f else FifoAfter(cap, Moved(cap, f, trace[0]), trace[1..])
  }

  // ---- what a run took in and gave out ----

  function Offered(trace: seq<Event>): seq<seq<Sample>> {
    if trace == [] then [] else (if trace[0].Pushed? then [trace[0].data] else []) + Offered(trace[1..])
  }

  /** How much of each offer was taken. */
  function Counts(trace: seq<Event>): (ns: seq<int>)
    ensures |ns| == |Offered(trace)|
  {
    if trace == [] then [] else (if trace[0].Pushed? then [trace[0].n] else []) + Counts(trace[1..])
  }

  function Given(trace: seq<Event>): seq<Sample> {
    if trace == [] then [] else (if trace[0].Popped? then trace[0].out else []) + Given(trace[1..])
  }

  ghost predicate CountsFit(pieces: seq<seq<Sample>>, ns: seq<int>) {
    |ns| == |pieces| && forall k :: 0 <= k < |pieces| ==> 0 <= ns[k] <= |pieces[k]|
  }

  /** The first `ns[k]` samples of each piece, one after the other. */
  function Kept(pieces: seq<seq<Sample>>, ns: seq<int>): (kept: seq<Sample>)
    requires CountsFit(pieces, ns)
  {
    if pieces == [] then [] else pieces[0][..ns[0]] + Kept(pieces[1..], ns[1..])
  }

  /** Conservation: what was queued and what was taken in is what was given out and what is queued, in
      that order. */
  lemma {:induction false} FifoConserves(cap: nat, f: Fifo, trace: seq<Event>)
    requires FifoRun(cap, f, trace)
    ensures CountsFit(Offered(trace), Counts(trace))
    ensures f.q + Kept(Offered(trace), Counts(trace)) == Given(trace) + FifoAfter(cap, f, trace).q
    decreases |trace|
  {
    hide Allows, Moved, CountsFit, Kept;
    if trace == [] {
      NothingKept();
    } else {
      var e, rest := trace[0], trace[1..];
      FifoConserves(cap, Moved(cap, f, e), rest);
      ConserveStep(cap, f, e, Offered(rest), Counts(rest), Given(rest), FifoAfter(cap, f, trace).q);
    }
  }

  lemma NothingKept()
    ensures CountsFit([], []) && Kept([], []) == []
  {
  }

  lemma ConserveStep(cap: nat, f: Fifo, e: Event, pieces: seq<seq<Sample>>, ns: seq<int>, out: seq<Sample>, q: seq<Sample>)
    requires Allows(cap, f, e) && CountsFit(pieces, ns) && Moved(cap, f, e).q + Kept(pieces, ns) == out + q
    ensures var ps, counts := (if e.Pushed? then [e.data] else []) + pieces, (if e.Pushed? then [e.n] else []) + ns;
            CountsFit(ps, counts) && f.q + Kept(ps, counts) == (if e.Popped? then e.out else []) + out + q
  {
    hide Kept, CountsFit;
    assert [] + pieces == pieces && [] + ns == ns && [] + out == out;
    var kept := Kept(pieces, ns);
    if e.Pushed? {
      KeptCons(e.data, e.n, pieces, ns);
      assert f.q + (e.data[..e.n] + kept) == f.q + e.data[..e.n] + kept;
    } else if e.Popped? {
      assert f.q == e.out + f.q[|e.out|..];
      assert e.out + (f.q[|e.out|..] + kept) == f.q + kept;
      assert e.out + (out + q) == e.out + out + q;
    }
  }

  lemma KeptCons(piece: seq<Sample>, n: int, pieces: seq<seq<Sample>>, ns: seq<int>)
    requires CountsFit(pieces, ns) && 0 <= n <= |piece|
    ensures CountsFit([piece] + pieces, [n] + ns)
    ensures Kept([piece] + pieces, [n] + ns) == piece[..n] + Kept(pieces, ns)
  {
    var all, counts := [piece] + pieces, [n] + ns;
    assert all[1..] == pieces && counts[1..] == ns;
    forall k | 0 <= k < |all| ensures 0 <= counts[k] <= |all[k]| {
      if k > 0 {
        assert all[k] == pieces[k - 1] && counts[k] == ns[k - 1];
      }
    }
  }

  // ---- when everything fits ----

  function Total(pieces: seq<seq<Sample>>): nat {
    if pieces == [] then 0 else |pieces[0]| + Total(pieces[1..])
  }

  /** Whether what is offered in `trace` fits beside what is queued, and beside what a push already under
      way has seen. */
  ghost predicate Roomy(cap: nat, f: Fifo, trace: seq<Event>) {
    && |f.q| + Total(Offered(trace)) <= cap
    && (f.push.Some? ==> |f.q| <= f.push.value.fill && f.push.value.fill + Total(Offered(trace)) <= cap)
  }

  lemma RoomyStep(cap: nat, f: Fifo, trace: seq<Event>)
    requires trace != [] && Allows(cap, f, trace[0]) && Roomy(cap, f, trace)
    ensures Roomy(cap, Moved(cap, f, trace[0]), trace[1..])
    ensures trace[0].Pushed? ==> trace[0].n == |trace[0].data|
  {
    hide Total, Offered;
    TotalOffered(trace);
  }

  lemma TotalOffered(trace: seq<Event>)
    requires trace != []
    ensures Total(Offered(trace)) == (if trace[0].Pushed? then |trace[0].data| else 0) + Total(Offered(trace[1..]))
  {
    hide Total;
    var e, rest := trace[0], Offered(trace[1..]);
    if e.Pushed? {
      TotalCons(e.data, rest);
    } else {
      assert Offered(trace) == rest;
    }
  }

  lemma TotalCons(piece: seq<Sample>, pieces: seq<seq<Sample>>)
    ensures Total([piece] + pieces) == |piece| + Total(pieces)
  {
    assert ([piece] + pieces)[1..] == pieces;
  }

  /** Offers that fit together beside what is queued at the start are taken whole, whenever in between
      the other side calls. */
  lemma {:induction false} RoomyRunTakesAll(cap: nat, f: Fifo, trace: seq<Event>)
    requires FifoRun(cap, f, trace) && Roomy(cap, f, trace)
    ensures forall k :: 0 <= k < |Offered(trace)| ==> Counts(trace)[k] == |Offered(trace)[k]|
    decreases |trace|
  {
    hide Roomy, Allows, Moved;
    if trace != [] {
      RoomyStep(cap, f, trace);
      RoomyRunTakesAll(cap, Moved(cap, f, trace[0]), trace[1..]);
    }
  }
}
