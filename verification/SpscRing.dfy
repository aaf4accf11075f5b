/** The lock-free ring buffer as two processes that interleave at every memory access: a counter
    load, one cell access or a counter store is one step. Each access is atomic and sequentially
    consistent. The history variables `pushed`, `popped` and `fill` are not in the source; no
    transition reads them. */
module SpscRing {
  import opened Basics
  import opened PowersOfTwo
  import opened WrappingIndex
  import opened BoundedFifo

  /** Where the one call of `push_slice` stands. `fill` records how many samples were queued when
      the read counter was loaded. */
  datatype Producer =
    | PushIdle
    | PushLoaded(data: seq<Sample>, r: nat, fill: nat)
    | PushWriting(data: seq<Sample>, w: nat, n: int, i: nat, fill: nat)

  /** Where the one call of `pop_exact` stands. `fill` records how many samples were queued when
      the write counter was loaded. */
  datatype Consumer =
    | PopIdle
    | PopLoaded(len: nat, w: nat, fill: nat)
    | PopReading(len: nat, r: nat, out: seq<Sample>, fill: nat)

  datatype State = State(cells: seq<Sample>, write: nat, read: nat, producer: Producer, consumer: Consumer,
                         pushed: seq<Sample>, popped: seq<Sample>)

  datatype Action =
    | PushLoadRead(samples: seq<Sample>)
    | PushLoadWrite
    | PushCell
    | PushPublish
    | PopLoadWrite(len: nat)
    | PopLoadRead
    | PopCell
    | PopPublish

  ghost predicate Sizes(word: nat, cap: nat) {
    IsPowerOfTwo(word) && IsPowerOfTwo(cap) && cap < word
  }

  function Init(cap: nat): State {
    State(seq(cap, _ => 0.0), 0, 0, PushIdle, PopIdle, [], [])
  }

  predicate Enabled(s: State, a: Action) {
    match a
    case PushLoadRead(_) => s.producer.PushIdle?
    case PushLoadWrite => s.producer.PushLoaded?
    case PushCell => s.producer.PushWriting? && s.producer.i < s.producer.n
    case PushPublish => s.producer.PushWriting? && s.producer.i >= s.producer.n
    case PopLoadWrite(_) => s.consumer.PopIdle?
    case PopLoadRead => s.consumer.PopLoaded?
    case PopCell => s.consumer.PopReading? && |s.consumer.out| < s.consumer.len
    case PopPublish => s.consumer.PopReading? && |s.consumer.out| >= s.consumer.len
  }

  /** Samples published and not yet released: the abstract FIFO. */
  function Queue(s: State): seq<Sample> {
    if |s.popped| <= |s.pushed| then s.pushed[|s.popped|..] else []
  }

  /** `capacity - (w - r)`, over the integers so that an underflow would show as a negative. */
  function Free(cap: nat, w: nat, r: nat, word: nat): int
    requires w < word && r < word
  {
    cap - WrappingSub(w, r, word)
  }

  predicate InRange(s: State, word: nat) {
    && |s.cells| > 0 && s.write < word && s.read < word
    && (s.producer.PushLoaded? ==> s.producer.r < word)
    && (s.producer.PushWriting? ==> s.producer.w < word && s.producer.n <= |s.producer.data|)
    && (s.consumer.PopLoaded? ==> s.consumer.w < word)
    && (s.consumer.PopReading? ==> s.consumer.r < word)
  }

  function Step(s: State, a: Action, word: nat): State
    requires word > 0 && InRange(s, word) && Enabled(s, a)
  {
    var cap := |s.cells|;
    var p, c := s.producer, s.consumer;
    match a
    case PushLoadRead(samples) => s.(producer := PushLoaded(samples, s.read, |Queue(s)|))
    case PushLoadWrite =>
      var free := Free(cap, s.write, p.r, word);
      s.(producer := PushWriting(p.data, s.write, if |p.data| < free then |p.data| else free, 0, p.fill))
    case PushCell =>
      s.(cells := s.cells[Wrap(WrappingAdd(p.w, p.i, word), cap) := p.data[p.i]],
         producer := p.(i := p.i + 1))
    case PushPublish =>
      s.(write := WrappingAdd(p.w, if p.n >= 0 then p.n else 0, word), producer := PushIdle,
         pushed := s.pushed + p.data[..if p.n >= 0 then p.n else 0])
    case PopLoadWrite(len) => s.(consumer := PopLoaded(len, s.write, |Queue(s)|))
    case PopLoadRead =>
      if WrappingSub(c.w, s.read, word) < c.len then s.(consumer := PopIdle)
      else s.(consumer := PopReading(c.len, s.read, [], c.fill))
    case PopCell =>
      s.(consumer := c.(out := c.out + [s.cells[Wrap(WrappingAdd(c.r, |c.out|, word), cap)]]))
    case PopPublish =>
      s.(read := WrappingAdd(c.r, c.len, word), consumer := PopIdle, popped := s.popped + c.out)
  }

  /** What the callers of the buffer notice of a step. */
  function Observe(s: State, a: Action, word: nat): Event
    requires word > 0 && InRange(s, word) && Enabled(s, a)
  {
    match a
    case PushLoadRead(samples) => PushCalled(samples)
    case PushPublish => Pushed(s.producer.data, s.producer.n)
    case PopLoadWrite(len) => PopCalled(len)
    case PopLoadRead => if WrappingSub(s.consumer.w, s.read, word) < s.consumer.len then PopRefused else Silent
    case PopPublish => Popped(s.consumer.out)
    case _ => Silent
  }

  // ---- the invariant ----

  ghost predicate Counters(s: State, word: nat) {
    var gw, gr := |s.pushed|, |s.popped|;
    && Sizes(word, |s.cells|)
    && gr <= gw <= gr + |s.cells|
    && s.write == Wrap(gw, word) && s.read == Wrap(gr, word)
    && s.popped == s.pushed[..gr]
    && forall k :: gr <= k < gw ==> s.cells[Wrap(k, |s.cells|)] == s.pushed[k]
  }

  ghost predicate ProducerOk(s: State, word: nat) {
    var gw, gr, cap := |s.pushed|, |s.popped|, |s.cells|;
    match s.producer
    case PushIdle => true
    case PushLoaded(data, r, fill) =>
      cap > 0 && word > 0 && gw - gr <= fill <= cap && fill <= gw && r == Wrap(gw - fill, word)
    case PushWriting(data, w, n, i, fill) =>
      && cap > 0 && word > 0 && gw - gr <= fill <= cap && w == Wrap(gw, word)
      && n == (if |data| < cap - fill then |data| else cap - fill) && i <= n
      && forall j :: 0 <= j < i ==> s.cells[Wrap(gw + j, cap)] == data[j]
  }

  ghost predicate ConsumerOk(s: State, word: nat) {
    var gw, gr := |s.pushed|, |s.popped|;
    match s.consumer
    case PopIdle => true
    case PopLoaded(len, w, fill) => word > 0 && fill <= gw - gr && w == Wrap(gr + fill, word)
    case PopReading(len, r, out, fill) =>
      && word > 0 && r == Wrap(gr, word) && len <= fill <= gw - gr
      && |out| <= len && out == s.pushed[gr..gr + |out|]
  }

  ghost predicate Inv(s: State, word: nat) {
    Counters(s, word) && ProducerOk(s, word) && ConsumerOk(s, word)
  }

  lemma InvInRange(s: State, word: nat)
    requires Inv(s, word)
    ensures word > 0 && InRange(s, word)
  {
  }

  lemma InitInv(cap: nat, word: nat)
    requires Sizes(word, cap)
    ensures Inv(Init(cap), word)
  {
  }

  /** The step that computes the room: no underflow, and the room seen is the room there was. */
  lemma FreeIsExact(s: State, word: nat)
    requires Inv(s, word) && s.producer.PushLoaded?
    ensures InRange(s, word) && word > 0
    ensures Free(|s.cells|, s.write, s.producer.r, word) == |s.cells| - s.producer.fill >= 0
  {
    DifferenceWraps(|s.pushed|, |s.pushed| - s.producer.fill, word);
  }

  /** A sample count that the consumer computes is the count there was when it loaded. */
  lemma AvailableIsExact(s: State, word: nat)
    requires Inv(s, word) && s.consumer.PopLoaded?
    ensures InRange(s, word) && word > 0
    ensures WrappingSub(s.consumer.w, s.read, word) == s.consumer.fill <= |Queue(s)|
  {
    DifferenceWraps(|s.popped| + s.consumer.fill, |s.popped|, word);
  }

  /** The cell being filled is none of the cells that hold queued or half-written samples. */
  lemma FreshCell(s: State, word: nat, k: nat)
    requires Inv(s, word) && s.producer.PushWriting? && s.producer.i < s.producer.n
    requires |s.popped| <= k < |s.pushed| + s.producer.i
    ensures Wrap(k, |s.cells|) != Wrap(|s.pushed| + s.producer.i, |s.cells|)
  {
    CellsDistinct(k, |s.pushed| + s.producer.i, |s.cells|);
  }

  lemma PushCellInv(s: State, word: nat)
    requires Inv(s, word) && Enabled(s, PushCell) && word > 0 && InRange(s, word)
    ensures Inv(Step(s, PushCell, word), word)
  {
    hide Wrap, IsPowerOfTwo, ConsumerOk, Queue, WrappingAdd;
    var p, cap, gw := s.producer, |s.cells|, |s.pushed|;
    CellOfWrapped(gw, p.i, word, cap);
    forall k | |s.popped| <= k < gw + p.i ensures Wrap(k, cap) != Wrap(gw + p.i, cap) {
      FreshCell(s, word, k);
    }
    var s' := Step(s, PushCell, word);
    assert s'.cells == s.cells[Wrap(gw + p.i, cap) := p.data[p.i]];
    assert Counters(s', word) && ProducerOk(s', word);
    ConsumerFramed(s, s', word);
  }

  /** The consumer's part of the invariant depends only on its own state and the history. */
  lemma ConsumerFramed(s: State, s': State, word: nat)
    requires ConsumerOk(s, word) && s'.consumer == s.consumer && s.pushed <= s'.pushed && s'.popped == s.popped
    ensures ConsumerOk(s', word)
  {
  }

  /** The producer's part depends only on its own state, the cells and the history. */
  lemma ProducerFramed(s: State, s': State, word: nat)
    requires ProducerOk(s, word) && s'.producer == s.producer && s'.cells == s.cells && s'.pushed == s.pushed
    requires |s.popped| <= |s'.popped|
    ensures ProducerOk(s', word)
  {
  }

  lemma PushPublishInv(s: State, word: nat)
    requires Inv(s, word) && Enabled(s, PushPublish) && word > 0 && InRange(s, word)
    ensures Inv(Step(s, PushPublish, word), word)
  {
    hide Wrap, IsPowerOfTwo, ConsumerOk, Queue;
    var p, cap, gw := s.producer, |s.cells|, |s.pushed|;
    WrapOfSum(gw, p.n, word);
    var s' := Step(s, PushPublish, word);
    forall k | |s.popped| <= k < |s'.pushed| ensures s'.cells[Wrap(k, cap)] == s'.pushed[k] {
      if k >= gw {
        assert s.cells[Wrap(gw + (k - gw), cap)] == p.data[k - gw];
      }
    }
    ConsumerFramed(s, s', word);
  }

  lemma PopCellInv(s: State, word: nat)
    requires Inv(s, word) && Enabled(s, PopCell) && word > 0 && InRange(s, word)
    ensures Inv(Step(s, PopCell, word), word)
  {
    hide Wrap, IsPowerOfTwo, ProducerOk, Queue, WrappingAdd;
    var c, gr := s.consumer, |s.popped|;
    CellOfWrapped(gr, |c.out|, word, |s.cells|);
    var s' := Step(s, PopCell, word);
    assert s'.consumer.out == c.out + [s.pushed[gr + |c.out|]];
    ProducerFramed(s, s', word);
  }

  lemma PopPublishInv(s: State, word: nat)
    requires Inv(s, word) && Enabled(s, PopPublish) && word > 0 && InRange(s, word)
    ensures Inv(Step(s, PopPublish, word), word)
  {
    hide Wrap, IsPowerOfTwo, ProducerOk, Queue;
    WrapOfSum(|s.popped|, s.consumer.len, word);
    var s' := Step(s, PopPublish, word);
    assert s'.popped == s.pushed[..|s.popped| + s.consumer.len];
    ProducerFramed(s, s', word);
  }

  lemma PushLoadInv(s: State, a: Action, word: nat)
    requires Inv(s, word) && Enabled(s, a) && word > 0 && InRange(s, word)
    requires a.PushLoadRead? || a.PushLoadWrite?
    ensures Inv(Step(s, a, word), word)
  {
    hide Wrap, IsPowerOfTwo, ConsumerOk, Free;
    if a.PushLoadWrite? {
      FreeIsExact(s, word);
    }
    ConsumerFramed(s, Step(s, a, word), word);
  }

  lemma PopLoadInv(s: State, a: Action, word: nat)
    requires Inv(s, word) && Enabled(s, a) && word > 0 && InRange(s, word)
    requires a.PopLoadWrite? || a.PopLoadRead?
    ensures Inv(Step(s, a, word), word)
  {
    hide Wrap, IsPowerOfTwo, ProducerOk, WrappingSub;
    if a.PopLoadRead? {
      AvailableIsExact(s, word);
    }
    ProducerFramed(s, Step(s, a, word), word);
  }

  /** Every step of either process keeps the invariant. */
  lemma StepInv(s: State, a: Action, word: nat)
    requires Inv(s, word) && Enabled(s, a)
    ensures word > 0 && InRange(s, word) && Inv(Step(s, a, word), word)
  {
    hide Inv, Step;
    InvInRange(s, word);
    match a
    case PushCell => PushCellInv(s, word);
    case PushPublish => PushPublishInv(s, word);
    case PopCell => PopCellInv(s, word);
    case PopPublish => PopPublishInv(s, word);
    case PushLoadRead(_) => PushLoadInv(s, a, word);
    case PushLoadWrite => PushLoadInv(s, a, word);
    case PopLoadWrite(_) => PopLoadInv(s, a, word);
    case PopLoadRead => PopLoadInv(s, a, word);
  }

  /** The cells a push is about to fill and the cells a pop is about to copy never meet. */
  lemma RangesDisjoint(s: State, word: nat, i: nat, j: nat)
    requires Inv(s, word) && s.producer.PushWriting? && s.consumer.PopReading?
    requires i < s.producer.n && j < s.consumer.len
    ensures |s.cells| > 0 && word > 0
    ensures Wrap(WrappingAdd(s.producer.w, i, word), |s.cells|) != Wrap(WrappingAdd(s.consumer.r, j, word), |s.cells|)
  {
    hide Wrap, IsPowerOfTwo, WrappingAdd;
    CellOfWrapped(|s.pushed|, i, word, |s.cells|);
    CellOfWrapped(|s.popped|, j, word, |s.cells|);
    CellsDistinct(|s.popped| + j, |s.pushed| + i, |s.cells|);
  }

  // ---- refinement of a bounded queue ----

  /** The push under way, as its caller knows it. */
  function PushUnderWay(p: Producer): Option<PushCall> {
    match p
    case PushIdle => None
    case PushLoaded(data, _, fill) => Some(PushCall(data, fill))
    case PushWriting(data, _, _, _, fill) => Some(PushCall(data, fill))
  }

  function PopUnderWay(c: Consumer): Option<PopCall> {
    match c
    case PopIdle => None
    case PopLoaded(len, _, fill) => Some(PopCall(len, fill))
    case PopReading(len, _, _, fill) => Some(PopCall(len, fill))
  }

  /** The bounded queue that a ring shows. */
  function Shown(s: State): Fifo {
    Fifo(Queue(s), PushUnderWay(s.producer), PopUnderWay(s.consumer))
  }

  /** The queue shown is what `e` makes of the one shown before. */
  ghost predicate Shows(s: State, e: Event, s': State) {
    Allows(|s.cells|, Shown(s), e) && Shown(s') == Moved(|s.cells|, Shown(s), e)
  }

  lemma QueueGrows(s: State, s': State, more: seq<Sample>)
    requires |s.popped| <= |s.pushed| && s'.pushed == s.pushed + more && s'.popped == s.popped
    ensures Queue(s') == Queue(s) + more
  {
  }

  lemma QueueShrinks(s: State, s': State, out: seq<Sample>)
    requires |s.popped| + |out| <= |s.pushed| && s'.pushed == s.pushed && s'.popped == s.popped + out
    requires out == s.pushed[|s.popped|..|s.popped| + |out|]
    ensures out <= Queue(s) && Queue(s') == Queue(s)[|out|..]
  {
  }

  /** What a push publishes, and that this is what fitted when it began. */
  lemma PublishIs(s: State, word: nat)
    requires Inv(s, word) && Enabled(s, PushPublish) && word > 0 && InRange(s, word)
    ensures var p, s' := s.producer, Step(s, PushPublish, word);
            && |s.popped| <= |s.pushed| && 0 <= p.n && p.fill <= |s.cells| && p.n == Min(|p.data|, |s.cells| - p.fill)
            && s'.pushed == s.pushed + p.data[..p.n] && s'.popped == s.popped
            && s'.producer == PushIdle && s'.consumer == s.consumer
  {
    hide Wrap, IsPowerOfTwo, WrappingAdd, Queue, ConsumerOk;
  }

  lemma PublishRefinesFifo(s: State, word: nat)
    requires Inv(s, word) && Enabled(s, PushPublish) && word > 0 && InRange(s, word)
    ensures Shows(s, Observe(s, PushPublish, word), Step(s, PushPublish, word))
  {
    hide Inv, Queue, Step;
    PublishIs(s, word);
    QueueGrows(s, Step(s, PushPublish, word), s.producer.data[..s.producer.n]);
  }

  /** What a pop gives out: as many of the oldest samples as it was asked for. */
  lemma ReleaseIs(s: State, word: nat)
    requires Inv(s, word) && Enabled(s, PopPublish) && word > 0 && InRange(s, word)
    ensures var c, s' := s.consumer, Step(s, PopPublish, word);
            && |s.popped| + |c.out| <= |s.pushed| && |c.out| == c.len <= c.fill
            && c.out == s.pushed[|s.popped|..|s.popped| + |c.out|]
            && s'.pushed == s.pushed && s'.popped == s.popped + c.out
            && s'.consumer == PopIdle && s'.producer == s.producer
  {
    hide Wrap, IsPowerOfTwo, WrappingAdd, Queue, ProducerOk;
  }

  lemma ReleaseRefinesFifo(s: State, word: nat)
    requires Inv(s, word) && Enabled(s, PopPublish) && word > 0 && InRange(s, word)
    ensures Shows(s, Observe(s, PopPublish, word), Step(s, PopPublish, word))
  {
    hide Inv, Queue, Step;
    ReleaseIs(s, word);
    QueueShrinks(s, Step(s, PopPublish, word), s.consumer.out);
  }

  lemma PopDecisionRefinesFifo(s: State, word: nat)
    requires Inv(s, word) && Enabled(s, PopLoadRead) && word > 0 && InRange(s, word)
    ensures Shows(s, Observe(s, PopLoadRead, word), Step(s, PopLoadRead, word))
  {
    hide Inv, Queue, WrappingSub;
    AvailableIsExact(s, word);
    QuietStep(s, PopLoadRead, word);
  }

  lemma QuietStep(s: State, a: Action, word: nat)
    requires word > 0 && InRange(s, word) && Enabled(s, a) && !a.PushPublish? && !a.PopPublish?
    ensures Queue(Step(s, a, word)) == Queue(s)
  {
  }

  /** Every step, seen from outside, is a step of the bounded queue. */
  lemma StepRefinesFifo(s: State, a: Action, word: nat)
    requires Inv(s, word) && Enabled(s, a)
    ensures word > 0 && InRange(s, word)
    ensures Shows(s, Observe(s, a, word), Step(s, a, word))
  {
    hide Queue, Inv, InRange, WrappingAdd, WrappingSub, Wrap;
    InvInRange(s, word);
    match a
    case PushPublish => PublishRefinesFifo(s, word);
    case PopPublish => ReleaseRefinesFifo(s, word);
    case PopLoadRead => PopDecisionRefinesFifo(s, word);
    case _ => QuietStep(s, a, word);
  }

  // ---- whole runs ----

  /** Whether `run` can be executed from `s`; any interleaving of the two processes is a run. */
  ghost predicate Runs(s: State, run: seq<Action>, word: nat)
    decreases |run|
  {
    run == [] || (word > 0 && InRange(s, word) && Enabled(s, run[0]) && Runs(Step(s, run[0], word), run[1..], word))
  }

  ghost function After(s: State, run: seq<Action>, word: nat): State
    requires Runs(s, run, word)
    decreases |run|
  {
    if run == [] then s else After(Step(s, run[0], word), run[1..], word)
  }

  ghost function Trace(s: State, run: seq<Action>, word: nat): seq<Event>
    requires Runs(s, run, word)
    decreases |run|
  {
    if run == [] then [] else [Observe(s, run[0], word)] + Trace(Step(s, run[0], word), run[1..], word)
  }

  /** Every interleaving shows its callers a behaviour of the bounded queue, and ends with what was
      popped being a prefix of what was pushed. */
  lemma {:induction false} RunRefinesFifo(s: State, run: seq<Action>, word: nat)
    requires Inv(s, word) && Runs(s, run, word)
    ensures var t := After(s, run, word);
            && Inv(t, word) && |t.cells| == |s.cells|
            && t.popped <= t.pushed && t.popped + Queue(t) == t.pushed
            && FifoRun(|s.cells|, Shown(s), Trace(s, run, word))
            && FifoAfter(|s.cells|, Shown(s), Trace(s, run, word)) == Shown(t)
    decreases |run|
  {
    hide Step, Observe, Queue, Allows, Moved, Shown, Counters, ProducerOk, ConsumerOk, InRange;
    if run == [] {
      PrefixPopped(s, word);
    } else {
      StepInv(s, run[0], word);
      StepRefinesFifo(s, run[0], word);
      var m := Step(s, run[0], word);
      SameCapacity(s, run[0], word);
      RunRefinesFifo(m, run[1..], word);
      var trace := Trace(s, run, word);
      assert trace[0] == Observe(s, run[0], word) && trace[1..] == Trace(m, run[1..], word);
    }
  }

  lemma PrefixPopped(s: State, word: nat)
    requires Inv(s, word)
    ensures s.popped <= s.pushed && s.popped + Queue(s) == s.pushed
  {
  }

  lemma SameCapacity(s: State, a: Action, word: nat)
    requires word > 0 && InRange(s, word) && Enabled(s, a)
    ensures |Step(s, a, word).cells| == |s.cells|
  {
  }

  /** The word of a 64-bit `usize` satisfies the size requirement. */
  lemma Word64(cap: nat)
    requires IsPowerOfTwo(cap) && cap < 0x1_0000_0000_0000_0000
    ensures Sizes(0x1_0000_0000_0000_0000, cap)
  {
    hide PowerOfTwo, IsPowerOfTwo;
    TwoTo64();
    assert IsPowerOfTwo(PowerOfTwo(64));
  }

  /** The ring of the source, from its creation, with 64-bit counters: under every interleaving its
      callers see a queue of that capacity, and what is popped is what was accepted, in order. */
  lemma RingIsFifo(cap: nat, run: seq<Action>)
    requires IsPowerOfTwo(cap) && cap < 0x1_0000_0000_0000_0000
    requires Runs(Init(cap), run, 0x1_0000_0000_0000_0000)
    ensures var t, trace := After(Init(cap), run, 0x1_0000_0000_0000_0000), Trace(Init(cap), run, 0x1_0000_0000_0000_0000);
            && t.popped <= t.pushed && t.popped + Queue(t) == t.pushed
            && FifoRun(cap, EMPTY, trace) && FifoAfter(cap, EMPTY, trace) == Shown(t)
  {
    hide Runs, Step, FifoRun, IsPowerOfTwo, FifoAfter;
    Word64(cap);
    InitInv(cap, 0x1_0000_0000_0000_0000);
    RunRefinesFifo(Init(cap), run, 0x1_0000_0000_0000_0000);
    assert Shown(Init(cap)) == EMPTY;
  }
}
