/** What a run of the output path does to a rig of nodes: one frame fanned out in slices, one verdict
    of the blackout mask per frame, and the accounting per node. A driver's answer is an input. */
module OutputRig {
  import opened Basics
  import opened PixelTypes

  datatype Frame = Frame(pixels: seq<PixelColor>, timestamp: nat)

  /** A node's part of the show, and whether it is declared to escape the blackout. */
  datatype Target = Target(offset: nat, count: nat, escapes: bool)

  datatype Outcome = Delivered | Failed(error: int)

  /** One node: its slice buffer, its counters, and everything its driver has been handed. */
  datatype Node = Node(target: Target, buffer: seq<PixelColor>, frames: nat, errors: nat, handed: seq<Frame>)

  /** The calibration table, one entry per byte value, when there is one. */
  datatype Lut = Identity | Table(entries: seq<Byte>)

  datatype Rig = Rig(nodes: seq<Node>, lut: Lut, black: nat, blackout: bool, frames: nat, errors: nat)

  // ---- one frame ----

  function Black(n: nat): (s: seq<PixelColor>)
    ensures |s| == n
  {
    seq(n, _ => BLACK)
  }

  predicate GoodLut(lut: Lut) {
    lut.Table? ==> |lut.entries| == 256
  }

  function Corrected(lut: Lut, c: PixelColor): PixelColor
    requires GoodLut(lut)
  {
    match lut
    case Identity => c
    case Table(t) => PixelColor(t[c.r], t[c.g], t[c.b])
  }

  function Calibrated(lut: Lut, f: Frame): (r: Frame)
    requires GoodLut(lut)
    ensures |r.pixels| == |f.pixels|
  {
    Frame(seq(|f.pixels|, k requires 0 <= k < |f.pixels| => Corrected(lut, f.pixels[k])), f.timestamp)
  }

  /** The single node that starts at 0 gets frames as they are; its buffer is never used. */
  predicate Alone(nodes: nat, t: Target) {
    nodes == 1 && t.offset == 0
  }

  /** The slice buffer after a frame: what the frame reaches is replaced, the rest keeps its value. */
  function Refreshed(t: Target, buffer: seq<PixelColor>, pixels: seq<PixelColor>): (r: seq<PixelColor>)
    requires |buffer| == t.count
    ensures |r| == t.count
    ensures forall j :: 0 <= j < t.count ==> r[j] == if t.offset + j < |pixels| then pixels[t.offset + j] else buffer[j]
  {
    var end := Min(t.offset + t.count, |pixels|);
    if t.offset < end then pixels[t.offset..end] + buffer[end - t.offset..] else buffer
  }

  predicate Masked(t: Target, blackout: bool) {
    blackout && !t.escapes
  }

  /** One node's share of one frame, already calibrated. */
  function Share(n: Node, nodes: nat, black: nat, blackout: bool, f: Frame): Frame
    requires |n.buffer| == n.target.count
  {
    if Masked(n.target, blackout) then
      Frame(Black(Min(if Alone(nodes, n.target) then |f.pixels| else n.target.count, black)), f.timestamp)
    else if Alone(nodes, n.target) then f
    else Frame(Refreshed(n.target, n.buffer, f.pixels), f.timestamp)
  }

  function SentTo(n: Node, nodes: nat, black: nat, blackout: bool, f: Frame, o: Outcome): (r: Node)
    requires |n.buffer| == n.target.count
    ensures r.target == n.target && |r.buffer| == r.target.count
  {
    n.(
      buffer := if Masked(n.target, blackout) || Alone(nodes, n.target) then n.buffer
                else Refreshed(n.target, n.buffer, f.pixels),
      frames := n.frames + (if o.Delivered? then 1 else 0),
      errors := n.errors + (if o.Delivered? then 0 else 1),
      handed := n.handed + [Share(n, nodes, black, blackout, f)])
  }

  function Count(outcomes: seq<Outcome>, delivered: bool): nat {
    if outcomes == [] then 0
    else Count(outcomes[..|outcomes| - 1], delivered) + if outcomes[|outcomes| - 1].Delivered? == delivered then 1 else 0
  }

  /** The answer to the caller: the error of the first node that failed. */
  function FirstError(outcomes: seq<Outcome>): Outcome {
    if outcomes == [] then Delivered
    else if outcomes[0].Failed? then outcomes[0]
    else FirstError(outcomes[1..])
  }

  /** It is the least failing node's error, and success only when no node failed. */
  lemma {:induction false} FirstErrorIsFirst(outcomes: seq<Outcome>)
    ensures FirstError(outcomes) == Delivered <==> forall k :: 0 <= k < |outcomes| ==> outcomes[k] == Delivered
    ensures FirstError(outcomes).Failed? ==>
      exists k :: 0 <= k < |outcomes| && outcomes[k] == FirstError(outcomes) && forall i :: 0 <= i < k ==> outcomes[i] == Delivered
    decreases |outcomes|
  {
    if outcomes != [] {
      var rest := outcomes[1..];
      FirstErrorIsFirst(rest);
      assert forall i :: 1 <= i < |outcomes| ==> outcomes[i] == rest[i - 1];
      if outcomes[0].Failed? {
        assert outcomes[0] == FirstError(outcomes);
      } else if FirstError(rest).Failed? {
        var k :| 0 <= k < |rest| && rest[k] == FirstError(rest) && forall i :: 0 <= i < k ==> rest[i] == Delivered;
        assert outcomes[k + 1] == FirstError(outcomes);
      }
    }
  }

  ghost predicate Sized(r: Rig) {
    GoodLut(r.lut) && forall k :: 0 <= k < |r.nodes| ==> |r.nodes[k].buffer| == r.nodes[k].target.count
  }

  // ---- a run ----

  /** `meanwhile[k]` is what another thread leaves in the blackout flag while node `k` is being sent. */
  datatype Op = Send(frame: Frame, outcomes: seq<Outcome>, meanwhile: seq<bool>) | Engage | Lift

  predicate Fits(op: Op, nodes: nat) {
    op.Send? ==> |op.outcomes| == |op.meanwhile| == nodes
  }

  function Step(r: Rig, op: Op): (next: Rig)
    requires Sized(r) && Fits(op, |r.nodes|)
    ensures Sized(next) && |next.nodes| == |r.nodes| && next.lut == r.lut && next.black == r.black
    ensures forall k :: 0 <= k < |r.nodes| ==> next.nodes[k].target == r.nodes[k].target
  {
    match op
    case Engage => r.(blackout := true)
    case Lift => r.(blackout := false)
    case Send(frame, outcomes, meanwhile) =>
      var f, n := Calibrated(r.lut, frame), |r.nodes|;
      r.(nodes := seq(n, k requires 0 <= k < n => SentTo(r.nodes[k], n, r.black, r.blackout, f, outcomes[k])),
         blackout := if n == 0 then r.blackout else meanwhile[n - 1],
         frames := r.frames + Count(outcomes, true),
         errors := r.errors + Count(outcomes, false))
  }

  ghost predicate AllFit(ops: seq<Op>, nodes: nat) {
    forall i :: 0 <= i < |ops| ==> Fits(ops[i], nodes)
  }

  ghost function After(r: Rig, ops: seq<Op>): (end: Rig)
    requires Sized(r) && AllFit(ops, |r.nodes|)
    ensures Sized(end) && |end.nodes| == |r.nodes| && end.lut == r.lut && end.black == r.black
    ensures forall k :: 0 <= k < |r.nodes| ==> end.nodes[k].target == r.nodes[k].target
  {
    if ops == [] then r else Step(After(r, ops[..|ops| - 1]), ops[|ops| - 1])
  }

  /** A rig as it is opened: dark buffers, nothing sent, nothing counted, no blackout; black is as long
      as the longest slice or the show. */
  ghost predicate Opened(r: Rig, show: nat) {
    && GoodLut(r.lut) && !r.blackout && r.frames == 0 && r.errors == 0
    && (forall k :: 0 <= k < |r.nodes| ==>
      && r.nodes[k].buffer == Black(r.nodes[k].target.count)
      && r.nodes[k].frames == 0 && r.nodes[k].errors == 0 && r.nodes[k].handed == []
      && r.nodes[k].target.count <= r.black)
    && r.black >= show
    && (r.black == show || exists k :: 0 <= k < |r.nodes| && r.black == r.nodes[k].target.count)
  }

  // ---- the accounting ----

  function Sends(ops: seq<Op>): nat {
    if ops == [] then 0 else Sends(ops[..|ops| - 1]) + if ops[|ops| - 1].Send? then 1 else 0
  }

  function FrameSum(nodes: seq<Node>): nat {
    if nodes == [] then 0 else FrameSum(nodes[..|nodes| - 1]) + nodes[|nodes| - 1].frames
  }

  function ErrorSum(nodes: seq<Node>): nat {
    if nodes == [] then 0 else ErrorSum(nodes[..|nodes| - 1]) + nodes[|nodes| - 1].errors
  }

  /** Every send reaches every node, failed ones included: each node has been handed one frame per
      send and counted it once, and the aggregates are the sums over the nodes. */
  ghost predicate Accounted(r: Rig, sends: nat) {
    && (forall k :: 0 <= k < |r.nodes| ==>
      && r.nodes[k].frames + r.nodes[k].errors == sends
      && |r.nodes[k].handed| == sends)
    && r.frames == FrameSum(r.nodes) && r.errors == ErrorSum(r.nodes)
  }

  lemma {:induction false} SumsGrow(before: seq<Node>, after: seq<Node>, outcomes: seq<Outcome>)
    requires |before| == |after| == |outcomes|
    requires forall k :: 0 <= k < |before| ==>
      && after[k].frames == before[k].frames + (if outcomes[k].Delivered? then 1 else 0)
      && after[k].errors == before[k].errors + (if outcomes[k].Delivered? then 0 else 1)
    ensures FrameSum(after) == FrameSum(before) + Count(outcomes, true)
    ensures ErrorSum(after) == ErrorSum(before) + Count(outcomes, false)
    decreases |before|
  {
    if before != [] {
      var n := |before| - 1;
      SumsGrow(before[..n], after[..n], outcomes[..n]);
    }
  }

  lemma {:induction false} ZeroSums(nodes: seq<Node>)
    requires forall k :: 0 <= k < |nodes| ==> nodes[k].frames == 0 && nodes[k].errors == 0
    ensures FrameSum(nodes) == 0 && ErrorSum(nodes) == 0
    decreases |nodes|
  {
    if nodes != [] {
      ZeroSums(nodes[..|nodes| - 1]);
    }
  }

  lemma StepAccounted(r: Rig, op: Op, sends: nat)
    requires Sized(r) && Fits(op, |r.nodes|) && Accounted(r, sends)
    ensures Accounted(Step(r, op), if op.Send? then sends + 1 else sends)
  {
    if op.Send? {
      SumsGrow(r.nodes, Step(r, op).nodes, op.outcomes);
    }
  }

  lemma {:induction false} AfterIsAccounted(r: Rig, before: nat, ops: seq<Op>)
    requires Sized(r) && AllFit(ops, |r.nodes|) && Accounted(r, before)
    ensures Accounted(After(r, ops), before + Sends(ops))
    decreases |ops|
  {
    hide Step, Accounted;
    if ops != [] {
      var n := |ops| - 1;
      AfterIsAccounted(r, before, ops[..n]);
      StepAccounted(After(r, ops[..n]), ops[n], before + Sends(ops[..n]));
    }
  }

  lemma RunIsAccounted(r: Rig, show: nat, ops: seq<Op>)
    requires Opened(r, show) && Sized(r) && AllFit(ops, |r.nodes|)
    ensures Accounted(After(r, ops), Sends(ops))
  {
    hide After, Accounted;
    OpenedIsAccounted(r, show);
    AfterIsAccounted(r, 0, ops);
  }

  lemma {:induction false} OnlySends(ops: seq<Op>)
    requires forall i :: 0 <= i < |ops| ==> ops[i].Send?
    ensures Sends(ops) == |ops|
    decreases |ops|
  {
    if ops != [] {
      OnlySends(ops[..|ops| - 1]);
    }
  }

  lemma AfterSnoc(r: Rig, ops: seq<Op>, op: Op)
    requires Sized(r) && AllFit(ops, |r.nodes|) && Fits(op, |r.nodes|)
    ensures AllFit(ops + [op], |r.nodes|) && After(r, ops + [op]) == Step(After(r, ops), op)
  {
    hide Step;
    assert (ops + [op])[..|ops|] == ops;
  }

  lemma OpenedIsAccounted(r: Rig, show: nat)
    requires Opened(r, show)
    ensures Accounted(r, 0)
  {
    ZeroSums(r.nodes);
  }

  // ---- the slice buffers ----

  /** The pixel a node shows at index `j`: that of the latest frame that was not masked for the node
      and long enough to reach it; dark before any. */
  ghost function Latest(r: Rig, ops: seq<Op>, k: nat, j: nat): PixelColor
    requires Sized(r) && AllFit(ops, |r.nodes|) && k < |r.nodes|
  {
    if ops == [] then BLACK
    else
      var n := |ops| - 1;
      var t, blackout := r.nodes[k].target, After(r, ops[..n]).blackout;
      if ops[n].Send? && !Masked(t, blackout) && t.offset + j < |ops[n].frame.pixels| then
        Corrected(r.lut, ops[n].frame.pixels[t.offset + j])
      else Latest(r, ops[..n], k, j)
  }

  lemma BufferStep(r: Rig, op: Op, k: nat, j: nat)
    requires Sized(r) && Fits(op, |r.nodes|)
    requires k < |r.nodes| && j < r.nodes[k].target.count && !Alone(|r.nodes|, r.nodes[k].target)
    ensures var t := r.nodes[k].target;
      Step(r, op).nodes[k].buffer[j]
      == if op.Send? && !Masked(t, r.blackout) && t.offset + j < |op.frame.pixels| then
           Corrected(r.lut, op.frame.pixels[t.offset + j])
         else r.nodes[k].buffer[j]
  {
  }

  /** In a rig of several nodes, or of one that does not start at 0, every buffer shows exactly that:
      a short frame never darkens the tail, and a masked one changes nothing. */
  lemma {:induction false} BufferIsLatest(r: Rig, show: nat, ops: seq<Op>, k: nat, j: nat)
    requires Opened(r, show) && Sized(r) && AllFit(ops, |r.nodes|)
    requires k < |r.nodes| && j < r.nodes[k].target.count && !Alone(|r.nodes|, r.nodes[k].target)
    ensures After(r, ops).nodes[k].buffer[j] == Latest(r, ops, k, j)
    decreases |ops|
  {
    hide Step, Masked, Corrected;
    if ops != [] {
      var n := |ops| - 1;
      BufferIsLatest(r, show, ops[..n], k, j);
      BufferStep(After(r, ops[..n]), ops[n], k, j);
    }
  }

  // ---- what the drivers are handed ----

  function EndOf(t: Target): nat {
    t.offset + t.count
  }

  /** Where the slices of the first `n` nodes end. */
  function SlicesEnd(nodes: seq<Node>, n: nat): nat
    requires n <= |nodes|
  {
    if n == 0 then 0 else EndOf(nodes[n - 1].target)
  }

  /** The slices lie end to end from 0 and add up to the show. */
  ghost predicate Tiles(nodes: seq<Node>, show: nat) {
    && (forall k {:trigger SlicesEnd(nodes, k)} :: 0 <= k < |nodes| ==> nodes[k].target.offset == SlicesEnd(nodes, k))
    && show == SlicesEnd(nodes, |nodes|)
  }

  lemma {:induction false} SlicesEndInside(nodes: seq<Node>, show: nat, n: nat)
    requires Tiles(nodes, show) && n <= |nodes|
    ensures SlicesEnd(nodes, n) <= show
    decreases |nodes| - n
  {
    if n < |nodes| {
      SlicesEndInside(nodes, show, n + 1);
    }
  }

  /** What the first `n` nodes are handed from a frame, one after the other. */
  ghost function Shares(r: Rig, f: Frame, n: nat): seq<PixelColor>
    requires Sized(r) && n <= |r.nodes|
  {
    if n == 0 then [] else Shares(r, f, n - 1) + ShareOf(r, f, n - 1)
  }

  ghost function ShareOf(r: Rig, f: Frame, k: nat): seq<PixelColor>
    requires Sized(r) && k < |r.nodes|
  {
    Share(r.nodes[k], |r.nodes|, r.black, r.blackout, Calibrated(r.lut, f)).pixels
  }

  lemma ShareIsSlice(r: Rig, f: Frame, k: nat)
    requires Sized(r) && k < |r.nodes| && Tiles(r.nodes, |f.pixels|)
    requires !Masked(r.nodes[k].target, r.blackout)
    ensures SlicesEnd(r.nodes, k) <= SlicesEnd(r.nodes, k + 1) <= |f.pixels|
    ensures ShareOf(r, f, k) == Calibrated(r.lut, f).pixels[SlicesEnd(r.nodes, k)..SlicesEnd(r.nodes, k + 1)]
  {
    SlicesEndInside(r.nodes, |f.pixels|, k + 1);
  }

  lemma {:induction false} SharesArePrefix(r: Rig, f: Frame, n: nat)
    requires Sized(r) && n <= |r.nodes| && Tiles(r.nodes, |f.pixels|)
    requires forall k :: 0 <= k < |r.nodes| ==> !Masked(r.nodes[k].target, r.blackout)
    ensures SlicesEnd(r.nodes, n) <= |f.pixels|
    ensures Shares(r, f, n) == Calibrated(r.lut, f).pixels[..SlicesEnd(r.nodes, n)]
    decreases n
  {
    hide ShareOf, Calibrated, Masked, Tiles, SlicesEnd;
    SlicesEndInside(r.nodes, |f.pixels|, n);
    if n > 0 {
      SharesArePrefix(r, f, n - 1);
      ShareIsSlice(r, f, n - 1);
      JoinSlices(Calibrated(r.lut, f).pixels, SlicesEnd(r.nodes, n - 1), SlicesEnd(r.nodes, n));
    } else {
      assert SlicesEnd(r.nodes, 0) == 0 by { NoSlices(r.nodes); }
    }
  }

  lemma NoSlices(nodes: seq<Node>)
    ensures SlicesEnd(nodes, 0) == 0
  {
  }

  lemma JoinSlices(all: seq<PixelColor>, m: nat, n: nat)
    requires m <= n <= |all|
    ensures all[..m] + all[m..n] == all[..n]
  {
  }

  /** Over slices that tile the show, what the nodes are handed from one full frame, put end to end,
      is the calibrated frame: no pixel is lost, doubled or moved between nodes. */
  lemma FrameReassembles(r: Rig, f: Frame)
    requires Sized(r) && Tiles(r.nodes, |f.pixels|)
    requires forall k :: 0 <= k < |r.nodes| ==> !Masked(r.nodes[k].target, r.blackout)
    ensures Shares(r, f, |r.nodes|) == Calibrated(r.lut, f).pixels
  {
    SharesArePrefix(r, f, |r.nodes|);
  }

  // ---- what a node is handed ----

  /** `to` is `from` as the calibration wants it, channel by channel. */
  predicate Calibrates(lut: Lut, from: PixelColor, to: PixelColor) {
    match lut
    case Identity => to == from
    case Table(t) => from.r < |t| && from.g < |t| && from.b < |t| && to.r == t[from.r] && to.g == t[from.g] && to.b == t[from.b]
  }

  /** The frame that node `k` is handed by a send: black under a blackout it does not escape; otherwise
      the lone node that starts at 0 gets the length of the frame and every other its own, each pixel the
      calibrated one of its place in the frame, and where the frame does not reach, what was there. */
  lemma HandedIsCalibrated(r: Rig, op: Op, k: nat)
    requires Sized(r) && Fits(op, |r.nodes|) && op.Send? && k < |r.nodes|
    ensures var n, given := r.nodes[k], Step(r, op).nodes[k].handed;
      && |given| == |n.handed| + 1 && given[..|n.handed|] == n.handed
      && var pixels, frame := given[|n.handed|].pixels, op.frame.pixels;
      && var whole := if |r.nodes| == 1 && n.target.offset == 0 then |frame| else n.target.count;
      && given[|n.handed|].timestamp == op.frame.timestamp
      && if r.blackout && !n.target.escapes then
           |pixels| == Min(whole, r.black) && forall j :: 0 <= j < |pixels| ==> pixels[j] == PixelColor(0, 0, 0)
         else
           |pixels| == whole && forall j :: 0 <= j < |pixels| ==>
             if n.target.offset + j < |frame| then Calibrates(r.lut, frame[n.target.offset + j], pixels[j])
             else pixels[j] == n.buffer[j]
  {
  }

  /** A table that maps every value to itself hands out what no table does. */
  lemma IdentityTable(r: Rig, op: Op, t: seq<Byte>)
    requires Sized(r) && Fits(op, |r.nodes|) && |t| == 256 && forall i :: 0 <= i < 256 ==> t[i] == i
    ensures Step(r.(lut := Table(t)), op) == Step(r.(lut := Identity), op).(lut := Table(t))
  {
    hide SentTo;
    if op.Send? {
      assert Calibrated(Table(t), op.frame).pixels == Calibrated(Identity, op.frame).pixels;
      assert Step(r.(lut := Table(t)), op).nodes == Step(r.(lut := Identity), op).nodes;
    }
  }

  // ---- which sends are counted how ----

  /** The sends of `ops` that node `k` answered so. */
  function Answered(ops: seq<Op>, k: nat, delivered: bool): nat {
    if ops == [] then 0
    else
      var op := ops[|ops| - 1];
      Answered(ops[..|ops| - 1], k, delivered)
      + if op.Send? && k < |op.outcomes| && op.outcomes[k].Delivered? == delivered then 1 else 0
  }

  /** A node's frames are the sends it delivered, its errors those it failed. */
  lemma {:induction false} CountedAsAnswered(r: Rig, ops: seq<Op>, k: nat)
    requires Sized(r) && AllFit(ops, |r.nodes|) && k < |r.nodes|
    ensures After(r, ops).nodes[k].frames == r.nodes[k].frames + Answered(ops, k, true)
    ensures After(r, ops).nodes[k].errors == r.nodes[k].errors + Answered(ops, k, false)
    decreases |ops|
  {
    hide Step;
    if ops != [] {
      var n := |ops| - 1;
      CountedAsAnswered(r, ops[..n], k);
      StepCounts(After(r, ops[..n]), ops[n], k);
    }
  }

  lemma StepCounts(r: Rig, op: Op, k: nat)
    requires Sized(r) && Fits(op, |r.nodes|) && k < |r.nodes|
    ensures var n, next := r.nodes[k], Step(r, op).nodes[k];
      && next.frames == n.frames + (if op.Send? && op.outcomes[k].Delivered? then 1 else 0)
      && next.errors == n.errors + (if op.Send? && !op.outcomes[k].Delivered? then 1 else 0)
  {
    hide Refreshed;
  }

  // ---- the blackout ----

  predicate AllBlack(pixels: seq<PixelColor>) {
    forall j :: 0 <= j < |pixels| ==> pixels[j] == BLACK
  }

  /** One send, one verdict, decided by the flag as it was before the first node, whatever another
      thread does to it meanwhile: every node that does not escape is handed black, every node that
      does is handed what it would have been handed without a blackout. */
  lemma OneVerdict(r: Rig, op: Op, k: nat)
    requires Sized(r) && Fits(op, |r.nodes|) && op.Send? && k < |r.nodes|
    ensures var given := Step(r, op).nodes[k].handed;
      && given == r.nodes[k].handed + [given[|given| - 1]]
      && given[|given| - 1].timestamp == op.frame.timestamp
      && (Masked(r.nodes[k].target, r.blackout) ==> AllBlack(given[|given| - 1].pixels))
      && (!Masked(r.nodes[k].target, r.blackout) ==>
        given[|given| - 1] == Share(r.nodes[k], |r.nodes|, r.black, false, Calibrated(r.lut, op.frame)))
  {
  }

  /** Black comes at the length the node would otherwise be handed, except when the single node gets a
      frame longer than the black that was set aside; then it is cut to that. */
  lemma BlackKeepsLength(r: Rig, show: nat, ops: seq<Op>, f: Frame, k: nat)
    requires Opened(r, show) && Sized(r) && AllFit(ops, |r.nodes|) && k < |r.nodes|
    ensures var now := After(r, ops);
      var n := now.nodes[k];
      |Share(n, |now.nodes|, now.black, true, f).pixels| == |Share(n, |now.nodes|, now.black, false, f).pixels|
      <==> Masked(n.target, true) && Alone(|now.nodes|, n.target) ==> |f.pixels| <= r.black
  {
    assert After(r, ops).nodes[k].target == r.nodes[k].target;
  }
}
