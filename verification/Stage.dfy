/** The stage, the pacer and the main loop as the objects the daemon runs, proved against the values
    of a playback run. The show runtime is abstract: its state and position after each tick are inputs. */
module Stage {
  import opened Basics
  import opened FrameSource
  import opened OutputRig
  import opened Playback
  import Output

  class Stage {
    const source: Source
    const output: Output.OutputManager
    /** The heartbeat's last valid frame. */
    var recorded: Option<Frame>
    var lastSent: Option<nat>

    ghost predicate Valid()
      reads this, source, output.nodes
    {
      source.Valid() && output.Valid()
    }

    ghost function State(): StageState
      reads this, source
    {
      StageState(source.at, recorded, lastSent)
    }

    constructor (source: Source, output: Output.OutputManager)
      requires source.Valid() && output.Valid()
      ensures Valid() && this.source == source && this.output == output
      ensures State() == StageState(source.at, None, None)
    {
      this.source, this.output := source, output;
      recorded, lastSent := None, None;
    }

    /** `Heartbeat::beat`: resends the recorded frame, if there is one. */
    method Beat(outcomes: seq<Outcome>, meanwhile: seq<bool>) returns (sent: bool, answer: Outcome)
      requires output.Valid() && |outcomes| == |meanwhile| == |output.nodes|
      modifies output, output.nodes
      ensures output.Valid() && sent == recorded.Some?
      ensures output.State() == if sent then Step(old(output.State()), Send(recorded.value, outcomes, meanwhile))
                                else old(output.State())
      ensures sent ==> answer == FirstError(outcomes)
    {
      match recorded {
        case None => sent, answer := false, Delivered;
        case Some(frame) =>
          answer := output.Send(frame, outcomes, meanwhile);
          sent := true;
      }
    }

    /** Resends the recorded frame when it is owed. */
    method KeepAlive(now: nat, outcomes: seq<Outcome>, meanwhile: seq<bool>) returns (tick: StageTick)
      requires output.Valid() && |outcomes| == |meanwhile| == |output.nodes|
      modifies this`lastSent, output, output.nodes
      ensures output.Valid()
      ensures var wire := if Due(old(lastSent), now) then recorded else None;
        var answer := FirstError(outcomes);
        && lastSent == (if wire.Some? && answer.Delivered? then Some(now) else old(lastSent))
        && tick == (if wire.None? then Quiet else if answer.Failed? then SendFailed(answer.error) else Held)
        && output.State() == if wire.Some? then Step(old(output.State()), Send(wire.value, outcomes, meanwhile))
                             else old(output.State())
    {
      hide Step, FirstError, Output.OutputManager.State, Output.OutputManager.Valid;
      var owed := match lastSent
        case Some(t) => (if now >= t then now - t else 0) >= HEARTBEAT_MS
        case None => false;
      if !owed {
        return Quiet;
      }
      var sent, answer := Beat(outcomes, meanwhile);
      if !sent {
        return Quiet;
      }
      match answer {
        case Delivered =>
          lastSent := Some(now);
          tick := Held;
        case Failed(e) => tick := SendFailed(e);
      }
    }

    /** One tick: the only way a frame reaches the output. The show's frame is recorded before it is
        sent; otherwise the keep-alive decides. */
    method OnTick(state: Playback.State, position: nat, now: nat, outcomes: seq<Outcome>, meanwhile: seq<bool>)
      returns (tick: StageTick)
      requires Valid() && |outcomes| == |meanwhile| == |output.nodes|
      modifies this, source, output, output.nodes
      ensures Valid()
      ensures State() == Ticked(source.file, old(State()), state, position, now, FirstError(outcomes))
      ensures tick == Reported(source.file, old(State()), state, position, now, FirstError(outcomes))
      ensures var wire := Wire(source.file, old(State()), state, position, now);
        output.State() == if wire.Some? then Step(old(output.State()), Send(wire.value, outcomes, meanwhile))
                          else old(output.State())
    {
      hide Seek, Step, FirstError, Chosen, NonDecreasing, RestsInOrder, Rests, Output.OutputManager.State, Output.OutputManager.Valid;
      if state == Playing {
        var record := source.FrameAt(position);
        if record.Some? {
          var frame := Frame(record.value.pixels, record.value.timestamp);
          recorded := Some(frame);
          var answer := output.Send(frame, outcomes, meanwhile);
          match answer {
            case Delivered =>
              lastSent := Some(now);
              return Sent(position);
            case Failed(e) => return SendFailed(e);
          }
        }
      }
      tick := KeepAlive(now, outcomes, meanwhile);
    }
  }

  /** A virtual clock: waiting moves it to the deadline, never back, and wakes late by what is asked. */
  class Pacer {
    var now: nat
    var sleeps: seq<nat>

    constructor (start: nat)
      ensures now == start && sleeps == []
    {
      now, sleeps := start, [];
    }

    method SleepUntil(deadline: nat, lag: nat)
      modifies this
      ensures now == WakeTime(old(now), deadline, lag) && now >= old(now) && now >= deadline
      ensures sleeps == old(sleeps) + [deadline]
    {
      sleeps := sleeps + [deadline];
      now := (if now >= deadline then now else deadline) + lag;
    }
  }

  datatype ExitReason = ShutdownRequested | MaxTicks | ReachedEnd | StillRunning

  /** Whether the loop stops when `k` turns are done, and why: the end of the show is checked after a
      turn, shutdown and the tick limit before one; what is given of the surroundings ends it too. */
  function Stop(turns: seq<Turn>, k: nat, maxTicks: Option<nat>, exitOnFinish: bool): Option<ExitReason>
    requires k <= |turns|
  {
    if exitOnFinish && k > 0 && turns[k - 1].state == Finished then Some(ReachedEnd)
    else if k == |turns| then Some(StillRunning)
    else if turns[k].shutdown then Some(ShutdownRequested)
    else if maxTicks.Some? && k >= maxTicks.value then Some(MaxTicks)
    else None
  }

  /** When the loop stops and why. It makes no turn after a shutdown was requested, none beyond the
      limit, and none after the end of the show if that ends it; and it stops for one of these only. */
  lemma StopsWhenTold(turns: seq<Turn>, ticks: nat, maxTicks: Option<nat>, exitOnFinish: bool, reason: ExitReason)
    requires ticks <= |turns| && Stop(turns, ticks, maxTicks, exitOnFinish) == Some(reason)
    requires forall k :: 0 <= k < ticks ==> Stop(turns, k, maxTicks, exitOnFinish) == None
    ensures forall k :: 0 <= k < ticks ==> !turns[k].shutdown
    ensures maxTicks.Some? ==> ticks <= maxTicks.value
    ensures exitOnFinish ==> forall k :: 0 <= k < ticks - 1 ==> turns[k].state != Finished
    ensures match reason
      case ReachedEnd => exitOnFinish && ticks > 0 && turns[ticks - 1].state == Finished
      case ShutdownRequested => ticks < |turns| && turns[ticks].shutdown
      case MaxTicks => maxTicks == Some(ticks)
      case StillRunning => ticks == |turns|
    ensures exitOnFinish && ticks > 0 && turns[ticks - 1].state == Finished ==> reason == ReachedEnd
    ensures reason == MaxTicks ==> ticks < |turns| && !turns[ticks].shutdown
  {
    forall k | 0 <= k < ticks ensures !turns[k].shutdown && (maxTicks.Some? ==> k < maxTicks.value) {
      assert Stop(turns, k, maxTicks, exitOnFinish) == None;
    }
    forall k | 0 <= k < ticks - 1 && exitOnFinish ensures turns[k].state != Finished {
      assert Stop(turns, k + 1, maxTicks, exitOnFinish) == None;
    }
    if maxTicks.Some? && ticks > 0 {
      assert Stop(turns, ticks - 1, maxTicks, exitOnFinish) == None;
    }
  }

  /** The loop's tick is the configured one, but at least a millisecond: never late, it wakes at each
      multiple of that. */
  lemma PunctualLoop(file: seq<Record>, start: nat, tickMs: nat, turns: seq<Turn>)
    requires forall k :: 0 <= k < |turns| ==> turns[k].lag == 0
    ensures Played(file, start, Period(tickMs), turns).now == start + |turns| * (if tickMs == 0 then 1 else tickMs)
  {
    hide Played;
    PunctualRun(file, start, Period(tickMs), turns);
  }

  function Period(tickMs: nat): (p: nat)
    ensures p > 0
  {
    if tickMs >= 1 then tickMs else 1
  }

  /** `tick_do_palco`: one tick of the stage; `warned` says whether a failed send was journalled. */
  method TickStage(stage: Stage, turn: Turn, now: nat, warned: bool) returns (warns: bool)
    requires stage.Valid() && |turn.outcomes| == |turn.meanwhile| == |stage.output.nodes|
    modifies stage, stage.source, stage.output, stage.output.nodes
    ensures stage.Valid()
    ensures stage.State() == Ticked(stage.source.file, old(stage.State()), turn.state, turn.position, now, FirstError(turn.outcomes))
    ensures var wire := Wire(stage.source.file, old(stage.State()), turn.state, turn.position, now);
      stage.output.State() == if wire.Some? then Step(old(stage.output.State()), Send(wire.value, turn.outcomes, turn.meanwhile))
                              else old(stage.output.State())
    ensures warns <==> warned || Reported(stage.source.file, old(stage.State()), turn.state, turn.position, now, FirstError(turn.outcomes)).SendFailed?
  {
    hide Ticked, Wire, Step, FirstError, Reported, Output.OutputManager.State, Output.OutputManager.Valid;
    var tick := stage.OnTick(turn.state, turn.position, now, turn.outcomes, turn.meanwhile);
    warns := warned || tick.SendFailed?;
  }

  /** The deadline after a tick, and the skipped ticks so far. */
  method Reschedule(deadline: nat, now: nat, period: nat, skipped: nat) returns (next: nat, total: nat)
    requires period > 0
    ensures var (d, late) := NextDeadline(deadline, now, period);
      next == d && total == skipped + late
  {
    next, total := deadline + period, skipped;
    if now >= next {
      var late := (now - next) / period + 1;
      total := total + late;
      next := now + period;
    }
  }

  /** The main loop runs exactly the turns before its first reason to stop, waits once per tick, and
      leaves the output as the run's sends do, one after the other. */
  method RunLoop(stage: Stage, pacer: Pacer, tickMs: nat, maxTicks: Option<nat>, exitOnFinish: bool, turns: seq<Turn>)
    returns (ticks: nat, skipped: nat, reason: ExitReason)
    requires stage.Valid() && stage.State() == StageState(0, None, None)
    requires AllAnswered(turns, |stage.output.nodes|)
    modifies pacer, stage, stage.source, stage.output, stage.output.nodes
    ensures ticks <= |turns| && Stop(turns, ticks, maxTicks, exitOnFinish) == Some(reason)
    ensures forall k :: 0 <= k < ticks ==> Stop(turns, k, maxTicks, exitOnFinish) == None
    ensures var run := Played(stage.source.file, old(pacer.now), Period(tickMs), turns[..ticks]);
      && ticks == run.ticks && skipped == run.skipped
      && pacer.now == run.now && |pacer.sleeps| == |old(pacer.sleeps)| + ticks
      && stage.Valid() && stage.State() == run.stage
    ensures Carried(old(stage.output.State()), SendsOf(stage.source.file, old(pacer.now), Period(tickMs), turns[..ticks]),
                    stage.output.State())
    ensures old(Accounted(stage.output.State(), 0)) ==>
      Accounted(stage.output.State(), |Played(stage.source.file, old(pacer.now), Period(tickMs), turns[..ticks]).attempts|)
  {
    hide Ticked, Wire, FirstError, Accounted, Reported, NextDeadline, Stop, InStep, Played, Next, WakeTime, SendsOf, Carried,
      Step, Period, Stage.State, Stage.Valid, Output.OutputManager.State;
    ticks, skipped := 0, 0;
    var period := Period(tickMs);
    var deadline: nat := pacer.now + period;
    ghost var file, start, rig := stage.source.file, pacer.now, stage.output.State();
    var warned := false;
    StartsInStep(file, start, period);
    ValidIsSized(stage);
    NothingCarried(rig, file, start, period);
    assert turns[..0] == [];
    while true
      invariant ticks <= |turns| && forall k :: 0 <= k < ticks ==> Stop(turns, k, maxTicks, exitOnFinish) == None
      invariant ticks > 0 ==> !(exitOnFinish && turns[ticks - 1].state == Finished)
      invariant stage.Valid() && InStep(Played(file, start, period, turns[..ticks]), ticks, skipped, deadline, pacer.now, stage.State())
      invariant |pacer.sleeps| == |old(pacer.sleeps)| + ticks
      invariant Carried(rig, SendsOf(file, start, period, turns[..ticks]), stage.output.State())
      decreases |turns| - ticks
    {
      StopCases(turns, ticks, maxTicks, exitOnFinish);
      if ticks == |turns| {
        reason := StillRunning;
        break;
      }
      if turns[ticks].shutdown {
        reason := ShutdownRequested;
        break;
      }
      if maxTicks.Some? && ticks >= maxTicks.value {
        reason := MaxTicks;
        break;
      }
      ghost var run, before := Played(file, start, period, turns[..ticks]), stage.output.State();
      InStepMeans(run, ticks, skipped, deadline, pacer.now, stage.State());
      pacer.SleepUntil(deadline, turns[ticks].lag);
      var now := pacer.now;
      warned := TickStage(stage, turns[ticks], now, warned);
      var next, total := Reschedule(deadline, now, period, skipped);
      StaysInStep(file, run, ticks, skipped, deadline, period, turns[ticks], next, total);
      PlayedSnoc(file, start, period, turns, ticks + 1);
      CarriedSnoc(rig, file, start, period, turns, ticks + 1, before, stage.output.State());
      ticks, skipped, deadline := ticks + 1, total, next;
      if exitOnFinish && turns[ticks - 1].state == Finished {
        StopCases(turns, ticks, maxTicks, exitOnFinish);
        reason := ReachedEnd;
        break;
      }
    }
    InStepMeans(Played(file, start, period, turns[..ticks]), ticks, skipped, deadline, pacer.now, stage.State());
    AccountCarried(rig, file, start, period, turns[..ticks], stage.output.State());
  }

  /** The rig is what those operations, in order, make of the rig there was. */
  ghost predicate Carried(before: Rig, ops: seq<Op>, now: Rig) {
    Sized(before) && AllFit(ops, |before.nodes|) && now == After(before, ops)
  }

  lemma StopCases(turns: seq<Turn>, k: nat, maxTicks: Option<nat>, exitOnFinish: bool)
    requires k <= |turns|
    ensures var stop := Stop(turns, k, maxTicks, exitOnFinish);
      if exitOnFinish && k > 0 && turns[k - 1].state == Finished then stop == Some(ReachedEnd)
      else if k == |turns| then stop == Some(StillRunning)
      else if turns[k].shutdown then stop == Some(ShutdownRequested)
      else if maxTicks.Some? && k >= maxTicks.value then stop == Some(MaxTicks)
      else stop == None
  {
  }

  lemma StartsInStep(file: seq<Record>, start: nat, period: nat)
    requires period > 0
    ensures InStep(Played(file, start, period, []), 0, 0, start + period, start, StageState(0, None, None))
    ensures Played(file, start, period, []).attempts == []
  {
  }

  lemma InStepMeans(r: Run, ticks: nat, skipped: nat, deadline: nat, now: nat, stage: StageState)
    requires InStep(r, ticks, skipped, deadline, now, stage)
    ensures r.ticks == ticks && r.skipped == skipped && r.deadline == deadline && r.now == now && r.stage == stage
  {
  }

  lemma StaysInStep(file: seq<Record>, r: Run, ticks: nat, skipped: nat, deadline: nat, period: nat, turn: Turn, next: nat, total: nat)
    requires period > 0 && InStep(r, ticks, skipped, deadline, r.now, r.stage)
    requires var (d, late) := NextDeadline(deadline, WakeTime(r.now, deadline, turn.lag), period);
      next == d && total == skipped + late
    ensures var now := WakeTime(r.now, deadline, turn.lag);
      && InStep(Next(file, r, period, turn), ticks + 1, total, next, now,
                Ticked(file, r.stage, turn.state, turn.position, now, FirstError(turn.outcomes)))
      && |Next(file, r, period, turn).attempts|
         == |r.attempts| + if Wire(file, r.stage, turn.state, turn.position, now).Some? then 1 else 0
  {
  }

  /** The loop's variables are those of the run. */
  ghost predicate InStep(r: Run, ticks: nat, skipped: nat, deadline: nat, now: nat, stage: StageState) {
    r.ticks == ticks && r.skipped == skipped && r.deadline == deadline && r.now == now && r.stage == stage
  }

  lemma PlayedSnoc(file: seq<Record>, start: nat, period: nat, turns: seq<Turn>, n: nat)
    requires period > 0 && 0 < n <= |turns|
    ensures Played(file, start, period, turns[..n])
      == Next(file, Played(file, start, period, turns[..n - 1]), period, turns[n - 1])
  {
    hide Next;
    assert turns[..n][..n - 1] == turns[..n - 1];
  }

  lemma ValidIsSized(stage: Stage)
    requires stage.Valid()
    ensures Sized(stage.output.State()) && |stage.output.State().nodes| == |stage.output.nodes|
  {
  }

  lemma NothingCarried(rig: Rig, file: seq<Record>, start: nat, period: nat)
    requires Sized(rig) && period > 0
    ensures Carried(rig, SendsOf(file, start, period, []), rig)
  {
  }

  /** One more turn carries its send, if it has one, to the rig. */
  lemma CarriedSnoc(rig: Rig, file: seq<Record>, start: nat, period: nat, turns: seq<Turn>, n: nat, before: Rig, after: Rig)
    requires period > 0 && 0 < n <= |turns| && AllAnswered(turns, |rig.nodes|)
    requires Carried(rig, SendsOf(file, start, period, turns[..n - 1]), before)
    requires var r, t := Played(file, start, period, turns[..n - 1]), turns[n - 1];
      var wire := Wire(file, r.stage, t.state, t.position, WakeTime(r.now, r.deadline, t.lag));
      after == if wire.Some? then Step(before, Send(wire.value, t.outcomes, t.meanwhile)) else before
    ensures Carried(rig, SendsOf(file, start, period, turns[..n]), after)
  {
    hide Step, Wire, Played, WakeTime, OutputRig.After;
    var t, sends := turns[n - 1], SendsOf(file, start, period, turns[..n - 1]);
    assert sends + [] == sends;
    assert turns[..n][..n - 1] == turns[..n - 1];
    var wire := LastWire(file, start, period, turns[..n]);
    if wire.Some? {
      OutputRig.AfterSnoc(rig, sends, Send(wire.value, t.outcomes, t.meanwhile));
    }
  }

  lemma AccountCarried(rig: Rig, file: seq<Record>, start: nat, period: nat, turns: seq<Turn>, now: Rig)
    requires period > 0 && Carried(rig, SendsOf(file, start, period, turns), now)
    ensures Accounted(rig, 0) ==> Accounted(now, |Played(file, start, period, turns).attempts|)
  {
    hide Accounted, Played, OutputRig.After, SendsOf;
    var ops := SendsOf(file, start, period, turns);
    SendsAreAttempts(file, start, period, turns);
    forall i | 0 <= i < |ops| ensures ops[i].Send? {
      assert IsAttempt(ops[i], Played(file, start, period, turns).attempts[i]);
    }
    OnlySends(ops);
    if Accounted(rig, 0) {
      AfterIsAccounted(rig, 0, ops);
    }
  }
}
