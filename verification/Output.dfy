/** The output manager: the only path between the show and the drivers. A driver is abstract: it is
    handed a frame and answers with an outcome that is an input of the call. */
module Output {
  import opened Basics
  import opened PixelTypes
  import opened OutputRig

  lemma PrefixIsBlack(black: seq<PixelColor>, n: nat)
    requires AllBlack(black) && n <= |black|
    ensures black[..n] == Black(n)
  {
  }

  class NodeOutput {
    const target: Target
    var buffer: seq<PixelColor>
    var frames: nat
    var errors: nat
    ghost var handed: seq<Frame>

    ghost function State(): Node
      reads this
    {
      Node(target, buffer, frames, errors, handed)
    }

    constructor (target: Target)
      ensures State() == Node(target, Black(target.count), 0, 0, [])
    {
      this.target := target;
      buffer, frames, errors, handed := Black(target.count), 0, 0, [];
    }

    /** Hands one frame to the driver. */
    method SendFrame(f: Frame, o: Outcome) returns (r: Outcome)
      modifies this`handed
      ensures r == o && handed == old(handed) + [f]
    {
      handed := handed + [f];
      r := o;
    }

    /** Copies what the frame has of this node's slice into the buffer. */
    method Refresh(pixels: seq<PixelColor>)
      requires |buffer| == target.count
      modifies this`buffer
      ensures buffer == Refreshed(target, old(buffer), pixels)
    {
      var start := target.offset;
      var end := Min(start + target.count, |pixels|);
      if start < end {
        var n := end - start;
        buffer := pixels[start..end] + buffer[n..];
      }
    }

    /** This node's part of sending one frame: masked, as it is, or through the slice buffer; then the
        accounting. */
    method Deliver(f: Frame, nodes: nat, black: seq<PixelColor>, dark: bool, o: Outcome) returns (r: Outcome)
      requires |buffer| == target.count && AllBlack(black)
      modifies this
      ensures State() == SentTo(old(State()), nodes, |black|, dark, f, o)
      ensures |buffer| == target.count && r == o
    {
      hide Refreshed, AllBlack, Black;
      var mask := dark && !target.escapes;
      if mask {
        var n := Min(if nodes == 1 && target.offset == 0 then |f.pixels| else target.count, |black|);
        PrefixIsBlack(black, n);
        r := SendFrame(Frame(black[..n], f.timestamp), o);
      } else if nodes == 1 && target.offset == 0 {
        r := SendFrame(f, o);
      } else {
        Refresh(f.pixels);
        r := SendFrame(Frame(buffer, f.timestamp), o);
      }
      if r.Delivered? {
        frames := frames + 1;
      } else {
        errors := errors + 1;
      }
    }
  }

  class OutputManager {
    const nodes: seq<NodeOutput>
    const lut: Lut
    const black: seq<PixelColor>
    var corrected: seq<PixelColor>
    var blackout: bool
    var frames: nat
    var errors: nat

    ghost predicate Valid()
      reads nodes
    {
      && GoodLut(lut) && AllBlack(black)
      && (forall i, j :: 0 <= i < j < |nodes| ==> nodes[i] != nodes[j])
      && forall k :: 0 <= k < |nodes| ==> |nodes[k].buffer| == nodes[k].target.count
    }

    ghost function Nodes(): (s: seq<Node>)
      reads nodes
      ensures |s| == |nodes| && forall k :: 0 <= k < |nodes| ==> s[k] == nodes[k].State()
      ensures (forall k :: 0 <= k < |nodes| ==> |nodes[k].buffer| == nodes[k].target.count) ==> AllSized(s)
    {
      seq(|nodes|, k requires 0 <= k < |nodes| reads nodes => nodes[k].State())
    }

    ghost function State(): (r: Rig)
      reads this, nodes
      ensures Valid() ==> Sized(r)
      ensures |r.nodes| == |nodes|
    {
      Rig(Nodes(), lut, |black|, blackout, frames, errors)
    }

    lemma NodesAreSized()
      requires Valid()
      ensures AllSized(Nodes())
    {
    }

    /** One output per target, and the longest slice. */
    static method OpenNodes(targets: seq<Target>) returns (made: seq<NodeOutput>, longest: nat)
      ensures |made| == |targets|
      ensures forall i :: 0 <= i < |made| ==> fresh(made[i]) && made[i].State() == Node(targets[i], Black(targets[i].count), 0, 0, [])
      ensures forall i, j :: 0 <= i < j < |made| ==> made[i] != made[j]
      ensures forall i :: 0 <= i < |made| ==> targets[i].count <= longest
      ensures longest == 0 || exists i :: 0 <= i < |made| && longest == targets[i].count
    {
      hide Black;
      made, longest := [], 0;
      for k := 0 to |targets|
        invariant |made| == k
        invariant forall i :: 0 <= i < k ==> fresh(made[i]) && made[i].State() == Node(targets[i], Black(targets[i].count), 0, 0, [])
        invariant forall i, j :: 0 <= i < j < k ==> made[i] != made[j]
        invariant forall i :: 0 <= i < k ==> targets[i].count <= longest
        invariant longest == 0 || exists i :: 0 <= i < k && longest == targets[i].count
      {
        var node := new NodeOutput(targets[k]);
        made := made + [node];
        longest := if targets[k].count > longest then targets[k].count else longest;
      }
    }

    /** One output per target, dark buffers, and black as long as the longest consumer. */
    constructor (targets: seq<Target>, show: nat, lut: Lut)
      requires GoodLut(lut)
      ensures Valid() && Opened(State(), show)
      ensures |nodes| == |targets| && forall k :: 0 <= k < |nodes| ==> fresh(nodes[k]) && nodes[k].target == targets[k]
    {
      var made, longest := OpenNodes(targets);
      nodes := made;
      this.lut := lut;
      black := Black(if longest > show then longest else show);
      corrected := Black(show);
      blackout, frames, errors := false, 0, 0;
      new;
      assert forall k :: 0 <= k < |nodes| ==> Nodes()[k] == Node(targets[k], Black(targets[k].count), 0, 0, []);
      if |black| != show {
        var k :| 0 <= k < |nodes| && longest == targets[k].count;
        assert Nodes()[k].target.count == |black|;
      }
    }

    /** Whether the flag changed is the answer; the flag latches. */
    method Engage() returns (changed: bool)
      requires Valid()
      modifies this`blackout
      ensures Valid() && blackout && State() == Step(old(State()), Op.Engage)
      ensures changed == !old(blackout)
    {
      changed := !blackout;
      blackout := true;
    }

    method Lift() returns (changed: bool)
      requires Valid()
      modifies this`blackout
      ensures Valid() && !blackout && State() == Step(old(State()), Op.Lift)
      ensures changed == old(blackout)
    {
      changed := blackout;
      blackout := false;
    }

    /** Calibrates, if there is a table, and fans out. */
    method Send(frame: Frame, outcomes: seq<Outcome>, meanwhile: seq<bool>) returns (r: Outcome)
      requires Valid() && |outcomes| == |meanwhile| == |nodes|
      modifies this, nodes
      ensures Valid() && State() == Step(old(State()), Op.Send(frame, outcomes, meanwhile))
      ensures r == FirstError(outcomes)
    {
      hide SentTo, Calibrated, Step, Count, FirstError;
      ghost var before := State();
      var f := Calibrate(frame);
      assert Nodes() == before.nodes;
      r := FanOut(f, outcomes, meanwhile);
      FannedOutIsStep(before, frame, outcomes, meanwhile, Nodes());
    }

    /** Corrects each channel of each pixel into the reused buffer, unless calibration is identity. */
    method Calibrate(frame: Frame) returns (f: Frame)
      requires GoodLut(lut)
      modifies this`corrected
      ensures f == Calibrated(lut, frame)
    {
      match lut {
        case Identity =>
          IdentityChangesNothing(frame);
          f := frame;
        case Table(t) =>
          Resize(|frame.pixels|);
          for k := 0 to |frame.pixels|
            invariant |corrected| == |frame.pixels|
            invariant forall i :: 0 <= i < k ==> corrected[i] == Corrected(lut, frame.pixels[i])
          {
            var src := frame.pixels[k];
            corrected := corrected[k := PixelColor(t[src.r], t[src.g], t[src.b])];
          }
          assert corrected == Calibrated(lut, frame).pixels;
          f := Frame(corrected, frame.timestamp);
      }
    }

    /** `Vec::resize` with black. */
    method Resize(n: nat)
      modifies this`corrected
      ensures |corrected| == n
    {
      if |corrected| >= n {
        corrected := corrected[..n];
      } else {
        corrected := corrected + Black(n - |corrected|);
      }
    }

    /** One node of the fan-out; the others are not touched. */
    method DeliverTo(k: nat, f: Frame, dark: bool, o: Outcome) returns (r: Outcome)
      requires Valid() && k < |nodes|
      modifies nodes[k]
      ensures Valid() && r == o
      ensures Nodes() == old(Nodes())[k := SentTo(old(Nodes())[k], |nodes|, |black|, dark, f, o)]
    {
      hide SentTo;
      r := nodes[k].Deliver(f, |nodes|, black, dark, o);
    }

    /** Counts one outcome in the aggregate, and keeps the first error. */
    method Account(o: Outcome, first: Outcome) returns (kept: Outcome)
      modifies this`frames, this`errors
      ensures frames == old(frames) + (if o.Delivered? then 1 else 0)
      ensures errors == old(errors) + (if o.Delivered? then 0 else 1)
      ensures kept == if o.Failed? && first.Delivered? then o else first
    {
      kept := first;
      if o.Delivered? {
        frames := frames + 1;
      } else {
        errors := errors + 1;
        if first.Delivered? {
          kept := o;
        }
      }
    }

    /** One round of the fan-out, and what another thread leaves in the flag meanwhile. */
    method SendOne(k: nat, f: Frame, dark: bool, o: Outcome, flag: bool, first: Outcome) returns (kept: Outcome)
      requires Valid() && k < |nodes|
      modifies this`blackout, this`frames, this`errors, nodes[k]
      ensures Valid() && blackout == flag
      ensures Nodes() == old(Nodes())[k := SentTo(old(Nodes())[k], |nodes|, |black|, dark, f, o)]
      ensures frames == old(frames) + (if o.Delivered? then 1 else 0)
      ensures errors == old(errors) + (if o.Delivered? then 0 else 1)
      ensures kept == if o.Failed? && first.Delivered? then o else first
    {
      hide SentTo, NodeOutput.State, Valid, Nodes;
      var r := DeliverTo(k, f, dark, o);
      kept := Account(r, first);
      blackout := flag;
    }

    /** `enviar`: the flag is read once, before the first node. */
    method FanOut(f: Frame, outcomes: seq<Outcome>, meanwhile: seq<bool>) returns (r: Outcome)
      requires Valid() && |outcomes| == |meanwhile| == |nodes|
      modifies this`blackout, this`frames, this`errors, nodes
      ensures Valid()
      ensures FannedOut(old(Nodes()), Nodes(), |nodes|, |black|, old(blackout), f, outcomes)
      ensures blackout == if |nodes| == 0 then old(blackout) else meanwhile[|nodes| - 1]
      ensures frames == old(frames) + Count(outcomes, true) && errors == old(errors) + Count(outcomes, false)
      ensures r == FirstError(outcomes)
    {
      hide SentTo, NodeOutput.State, FannedOut, AllSized, Tally, Valid, Count, FirstError, Nodes;
      NodesAreSized();
      var first: Outcome := Delivered;
      var dark := blackout;
      ghost var was := Nodes();
      NothingSent(was, |black|, dark, f, outcomes);
      for k := 0 to |nodes|
        invariant Valid()
        invariant FannedOut(was, Nodes(), k, |black|, dark, f, outcomes)
        invariant blackout == if k == 0 then dark else meanwhile[k - 1]
        invariant Tally(outcomes, k, frames - old(frames), errors - old(errors), first)
      {
        FannedOutStep(was, Nodes(), k, |black|, dark, f, outcomes);
        TallyStep(outcomes, k, frames - old(frames), errors - old(errors), first);
        first := SendOne(k, f, dark, outcomes[k], meanwhile[k], first);
      }
      TallyEnds(outcomes, frames - old(frames), errors - old(errors), first);
      r := first;
    }
  }

  /** The counts over the first `k` outcomes, and what they say about the first error. */
  ghost predicate Tally(outcomes: seq<Outcome>, k: nat, frames: int, errors: int, first: Outcome) {
    && k <= |outcomes|
    && frames == Count(outcomes[..k], true) && errors == Count(outcomes[..k], false)
    && FirstError(outcomes) == if first.Failed? then first else FirstError(outcomes[k..])
  }

  lemma TallyStep(outcomes: seq<Outcome>, k: nat, frames: int, errors: int, first: Outcome)
    requires Tally(outcomes, k, frames, errors, first) && k < |outcomes|
    ensures outcomes[k].Delivered? ==> Tally(outcomes, k + 1, frames + 1, errors, first)
    ensures outcomes[k].Failed? ==> Tally(outcomes, k + 1, frames, errors + 1, if first.Delivered? then outcomes[k] else first)
  {
    assert outcomes[k..][1..] == outcomes[k + 1..] && outcomes[..k + 1][..k] == outcomes[..k];
  }

  lemma TallyEnds(outcomes: seq<Outcome>, frames: int, errors: int, first: Outcome)
    requires Tally(outcomes, |outcomes|, frames, errors, first)
    ensures frames == Count(outcomes, true) && errors == Count(outcomes, false) && first == FirstError(outcomes)
  {
    assert outcomes[..|outcomes|] == outcomes;
  }

  lemma NothingSent(was: seq<Node>, black: nat, dark: bool, f: Frame, outcomes: seq<Outcome>)
    requires AllSized(was) && |was| == |outcomes|
    ensures FannedOut(was, was, 0, black, dark, f, outcomes)
    ensures Tally(outcomes, 0, 0, 0, Delivered)
  {
    assert outcomes[0..] == outcomes;
  }

  lemma FannedOutStep(was: seq<Node>, now: seq<Node>, k: nat, black: nat, dark: bool, f: Frame, outcomes: seq<Outcome>)
    requires AllSized(was) && k < |was| == |outcomes|
    requires FannedOut(was, now, k, black, dark, f, outcomes)
    ensures |now| == |was| && AllSized(now)
    ensures FannedOut(was, now[k := SentTo(now[k], |was|, black, dark, f, outcomes[k])], k + 1, black, dark, f, outcomes)
  {
    hide SentTo;
  }

  ghost predicate AllSized(nodes: seq<Node>) {
    forall k :: 0 <= k < |nodes| ==> |nodes[k].buffer| == nodes[k].target.count
  }

  /** The first `k` nodes have been sent to, the others are as they were. */
  ghost predicate FannedOut(was: seq<Node>, now: seq<Node>, k: nat, black: nat, dark: bool, f: Frame, outcomes: seq<Outcome>)
    requires k <= |was| == |outcomes|
    requires AllSized(was)
  {
    |now| == |was| && forall i :: 0 <= i < |was| ==>
      now[i] == if i < k then SentTo(was[i], |was|, black, dark, f, outcomes[i]) else was[i]
  }

  lemma FannedOutIsStep(r: Rig, frame: Frame, outcomes: seq<Outcome>, meanwhile: seq<bool>, now: seq<Node>)
    requires Sized(r) && |outcomes| == |meanwhile| == |r.nodes|
    requires FannedOut(r.nodes, now, |r.nodes|, r.black, r.blackout, Calibrated(r.lut, frame), outcomes)
    ensures Step(r, Op.Send(frame, outcomes, meanwhile))
      == r.(nodes := now,
            blackout := if r.nodes == [] then r.blackout else meanwhile[|r.nodes| - 1],
            frames := r.frames + Count(outcomes, true),
            errors := r.errors + Count(outcomes, false))
  {
    hide SentTo, Calibrated, Count;
    assert Step(r, Op.Send(frame, outcomes, meanwhile)).nodes == now;
  }

  lemma IdentityChangesNothing(f: Frame)
    ensures Calibrated(Identity, f) == f
  {
    assert Calibrated(Identity, f).pixels == f.pixels;
  }
}
