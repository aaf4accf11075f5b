/** Playback as values: what each tick puts on the wire, when the loop ticks, and what that guarantees
    over whole runs. Time advances only by the lateness of each wake-up, which is an input. */
module Playback {
  import opened Basics
  import opened FrameSource
  import opened OutputRig

  const HEARTBEAT_MS: nat := 800

  datatype State = Idle | Loaded | Ready | Playing | Paused | Stopped | Finished

  /** The stage between ticks: the file cursor, the last frame the show produced, and when a send last
      succeeded. */
  datatype StageState = StageState(at: nat, recorded: Option<Frame>, lastSent: Option<nat>)

  datatype StageTick = Sent(position: nat) | Held | Quiet | SendFailed(error: int)

  // ---- one tick ----

  function FrameOf(r: Record): Frame {
    Frame(r.pixels, r.timestamp)
  }

  function Cursor(file: seq<Record>, at: nat, position: nat): nat {
    if at < |file| then Seek(file, at, position) else at
  }

  /** The frame the show has for this tick: none unless it is playing and the file has records. */
  function Shown(file: seq<Record>, p: StageState, state: State, position: nat): Option<Frame> {
    if state == Playing && p.at < |file| then Some(FrameOf(file[Cursor(file, p.at, position)])) else None
  }

  /** Whether the keep-alive is owed; never before a first successful send. */
  function Due(lastSent: Option<nat>, now: nat): bool {
    lastSent.Some? && now >= lastSent.value && now - lastSent.value >= HEARTBEAT_MS
  }

  /** What goes to the output: the show's frame, or else, when owed, the last one the show produced. */
  function Wire(file: seq<Record>, p: StageState, state: State, position: nat, now: nat): Option<Frame> {
    var shown := Shown(file, p, state, position);
    if shown.Some? then shown else if Due(p.lastSent, now) then p.recorded else None
  }

  function Ticked(file: seq<Record>, p: StageState, state: State, position: nat, now: nat, answer: Outcome): StageState {
    var shown := Shown(file, p, state, position);
    StageState(if state == Playing then Cursor(file, p.at, position) else p.at,
          if shown.Some? then shown else p.recorded,
          if Wire(file, p, state, position, now).Some? && answer.Delivered? then Some(now) else p.lastSent)
  }

  function Reported(file: seq<Record>, p: StageState, state: State, position: nat, now: nat, answer: Outcome): StageTick {
    if Wire(file, p, state, position, now).None? then Quiet
    else if answer.Failed? then SendFailed(answer.error)
    else if Shown(file, p, state, position).Some? then Sent(position) else Held
  }

  // ---- the loop ----

  /** One iteration as its surroundings see it: whether a shutdown was requested before it, how late
      the pacer wakes, where the show is, and how the drivers answer. */
  datatype Turn = Turn(shutdown: bool, lag: nat, state: State, position: nat, outcomes: seq<Outcome>, meanwhile: seq<bool>)

  datatype Attempt = Attempt(time: nat, frame: Frame, answer: Outcome)

  datatype Run = Run(now: nat, deadline: nat, ticks: nat, skipped: nat, stage: StageState, attempts: seq<Attempt>)

  function Begin(start: nat, period: nat): Run {
    Run(start, start + period, 0, 0, StageState(0, None, None), [])
  }

  /** The deadline after a tick at `now`, and the ticks given up to reach it. */
  function NextDeadline(deadline: nat, now: nat, period: nat): (nat, nat)
    requires period > 0
  {
    if now >= deadline + period then (now + period, (now - (deadline + period)) / period + 1) else (deadline + period, 0)
  }

  /** The time the pacer returns: the deadline, or now if that has passed, and then the lateness. */
  function WakeTime(now: nat, deadline: nat, lag: nat): nat {
    (if now >= deadline then now else deadline) + lag
  }

  function Next(file: seq<Record>, r: Run, period: nat, t: Turn): Run
    requires period > 0
  {
    var now := WakeTime(r.now, r.deadline, t.lag);
    var answer := FirstError(t.outcomes);
    var wire := Wire(file, r.stage, t.state, t.position, now);
    var (deadline, skips) := NextDeadline(r.deadline, now, period);
    Run(now, deadline, r.ticks + 1, r.skipped + skips,
        Ticked(file, r.stage, t.state, t.position, now, answer),
        if wire.Some? then r.attempts + [Attempt(now, wire.value, answer)] else r.attempts)
  }

  function Played(file: seq<Record>, start: nat, period: nat, turns: seq<Turn>): Run
    requires period > 0
  {
    if turns == [] then Begin(start, period)
    else Next(file, Played(file, start, period, turns[..|turns| - 1]), period, turns[|turns| - 1])
  }

  // ---- pacing ----

  lemma DivisionBounds(x: nat, period: nat)
    requires period > 0
    ensures period * (x / period) <= x < period * (x / period) + period
  {
  }

  lemma Distribute(p: nat, a: int, b: int)
    ensures p * (a + b) == p * a + p * b
  {
  }

  /** Ticks and skipped ticks together account for the time between deadlines: every tick takes at
      least a period, and at most two plus what is reported as skipped. */
  ghost predicate Paced(first: nat, r: Run, period: nat) {
    && first <= r.deadline
    && period * (r.ticks + r.skipped) <= r.deadline - first
    && r.deadline - first <= period * (2 * r.ticks + r.skipped)
  }

  lemma PacedStep(first: nat, r: Run, period: nat, now: nat)
    requires period > 0 && Paced(first, r, period) && now >= r.deadline
    ensures var (deadline, skips) := NextDeadline(r.deadline, now, period);
      && now < deadline <= now + period
      && period * (r.ticks + 1 + (r.skipped + skips)) <= deadline - first
      && deadline - first <= period * (2 * (r.ticks + 1) + (r.skipped + skips))
  {
    var (deadline, skips) := NextDeadline(r.deadline, now, period);
    Distribute(period, r.ticks + r.skipped, 1 + skips);
    Distribute(period, 2 * r.ticks + r.skipped, 2 + skips);
    Distribute(period, skips, 1);
    Distribute(period, skips, 2);
    if now >= r.deadline + period {
      DivisionBounds(now - (r.deadline + period), period);
      Distribute(period, skips - 1, 1);
    }
  }

  /** Absolute deadlines: the next one is never due already and never further off than a period, and
      lateness is counted as skips instead of accumulating as debt. */
  lemma {:induction false} RunIsPaced(file: seq<Record>, start: nat, period: nat, turns: seq<Turn>)
    requires period > 0
    ensures var r := Played(file, start, period, turns);
      && r.now < r.deadline <= r.now + period
      && Paced(start + period, r, period)
      && r.ticks == |turns|
    decreases |turns|
  {
    hide Ticked, Wire, NextDeadline;
    if turns != [] {
      var n := |turns| - 1;
      RunIsPaced(file, start, period, turns[..n]);
      var r := Played(file, start, period, turns[..n]);
      PacedStep(start + period, r, period, WakeTime(r.now, r.deadline, turns[n].lag));
    }
  }

  /** What is reported as skipped is the number of whole periods by which the deadline was missed. */
  lemma SkipsAreWholePeriods(deadline: nat, now: nat, period: nat)
    requires period > 0 && now >= deadline
    ensures var skips := NextDeadline(deadline, now, period).1;
      period * skips <= now - deadline < period * skips + period
  {
    var skips := NextDeadline(deadline, now, period).1;
    if now >= deadline + period {
      DivisionBounds(now - (deadline + period), period);
      Distribute(period, skips - 1, 1);
    }
  }

  /** A loop that is never late ticks once per period, on the period, and skips nothing. */
  lemma {:induction false} PunctualRun(file: seq<Record>, start: nat, period: nat, turns: seq<Turn>)
    requires period > 0 && forall k :: 0 <= k < |turns| ==> turns[k].lag == 0
    ensures var r := Played(file, start, period, turns);
      r.now == start + |turns| * period && r.deadline == r.now + period && r.ticks == |turns| && r.skipped == 0
    decreases |turns|
  {
    hide Next;
    if turns != [] {
      var n := |turns| - 1;
      PunctualRun(file, start, period, turns[..n]);
      PunctualTurn(file, Played(file, start, period, turns[..n]), period, turns[n]);
      OnePeriodMore(n, period);
    }
  }

  lemma PunctualTurn(file: seq<Record>, r: Run, period: nat, t: Turn)
    requires period > 0 && t.lag == 0 && r.deadline == r.now + period
    ensures var next := Next(file, r, period, t);
      && next.now == r.deadline && next.deadline == next.now + period
      && next.ticks == r.ticks + 1 && next.skipped == r.skipped
  {
    hide Ticked, Wire, FirstError;
  }

  lemma OnePeriodMore(n: nat, period: nat)
    ensures (n + 1) * period == n * period + period
  {
  }

  // ---- the keep-alive ----

  /** Some send up to and including number `k` succeeded. */
  predicate Alive(attempts: seq<Attempt>, k: int) {
    exists i :: 0 <= i <= k && i < |attempts| && attempts[i].answer.Delivered?
  }

  /** Between two consecutive attempts, once one has succeeded, less than `bound` passes. */
  ghost predicate NoGap(attempts: seq<Attempt>, bound: nat) {
    forall k :: 0 <= k && k + 1 < |attempts| && Alive(attempts, k) ==> CloseAt(attempts, k, bound)
  }

  predicate CloseAt(attempts: seq<Attempt>, k: nat, bound: nat)
    requires k + 1 < |attempts|
  {
    attempts[k + 1].time < attempts[k].time + bound
  }

  /** What a stage knows of the attempts so far. */
  ghost predicate Remembers(r: Run) {
    && (r.stage.lastSent.Some? <==> Alive(r.attempts, |r.attempts| - 1))
    && (r.attempts != [] ==> r.attempts[|r.attempts| - 1].time <= r.now)
    && (r.stage.lastSent.Some? ==>
      && r.stage.recorded.Some?
      && r.stage.lastSent.value <= r.attempts[|r.attempts| - 1].time
      && r.now < r.attempts[|r.attempts| - 1].time + HEARTBEAT_MS)
  }

  lemma AliveSnoc(attempts: seq<Attempt>, a: Attempt, k: nat)
    ensures k < |attempts| ==> (Alive(attempts + [a], k) <==> Alive(attempts, k))
    ensures Alive(attempts + [a], |attempts|) <==> Alive(attempts, |attempts| - 1) || a.answer.Delivered?
  {
    var more := attempts + [a];
    if i :| 0 <= i < |attempts| && attempts[i].answer.Delivered? {
      assert more[i].answer.Delivered?;
    }
    if a.answer.Delivered? {
      assert more[|attempts|].answer.Delivered?;
    }
    if k < |attempts| && Alive(attempts, k) {
      var i :| 0 <= i <= k && attempts[i].answer.Delivered?;
      assert more[i].answer.Delivered?;
    }
  }

  lemma NoGapSnoc(attempts: seq<Attempt>, a: Attempt, bound: nat)
    requires NoGap(attempts, bound)
    requires Alive(attempts, |attempts| - 1) ==> a.time < attempts[|attempts| - 1].time + bound
    ensures NoGap(attempts + [a], bound)
  {
    hide Alive;
    var more := attempts + [a];
    forall k | 0 <= k && k + 1 < |more| && Alive(more, k) ensures CloseAt(more, k, bound) {
      AliveSnoc(attempts, a, k);
      if k + 1 < |attempts| {
        assert CloseAt(attempts, k, bound);
      }
    }
  }

  lemma RemembersStep(file: seq<Record>, r: Run, period: nat, t: Turn)
    requires period > 0 && Remembers(r) && r.now < r.deadline
    ensures Remembers(Next(file, r, period, t))
  {
    hide NextDeadline, Shown, Cursor, FirstError;
    var now := WakeTime(r.now, r.deadline, t.lag);
    var wire := Wire(file, r.stage, t.state, t.position, now);
    if wire.Some? {
      var a := Attempt(now, wire.value, FirstError(t.outcomes));
      AliveSnoc(r.attempts, a, 0);
    }
  }

  /** The keep-alive promise over whole runs. Whatever the show does and however the later sends fare,
      once one send has succeeded no two consecutive attempts are as much as the heartbeat, a period
      and the lateness apart, and none is owed for longer than the heartbeat. */
  lemma {:induction false} RunHasNoGap(file: seq<Record>, start: nat, period: nat, turns: seq<Turn>, late: nat)
    requires period > 0
    requires forall k :: 0 <= k < |turns| ==> turns[k].lag <= late
    ensures var r := Played(file, start, period, turns);
      && NoGap(r.attempts, HEARTBEAT_MS + period + late)
      && Remembers(r)
    decreases |turns|
  {
    hide Next, NoGap, Remembers;
    if turns == [] {
      NothingYet(Begin(start, period), HEARTBEAT_MS + period + late);
    } else {
      var n := |turns| - 1;
      RunHasNoGap(file, start, period, turns[..n], late);
      RunIsPaced(file, start, period, turns[..n]);
      var r := Played(file, start, period, turns[..n]);
      RemembersStep(file, r, period, turns[n]);
      NoGapStep(file, r, period, turns[n], late);
    }
  }

  lemma NoGapStep(file: seq<Record>, r: Run, period: nat, t: Turn, late: nat)
    requires period > 0 && NoGap(r.attempts, HEARTBEAT_MS + period + late) && Remembers(r)
    requires r.now < r.deadline <= r.now + period && t.lag <= late
    ensures NoGap(Next(file, r, period, t).attempts, HEARTBEAT_MS + period + late)
  {
    hide Ticked, Wire, NextDeadline, NoGap, Remembers, Alive, FirstError;
    var now := WakeTime(r.now, r.deadline, t.lag);
    var wire := Wire(file, r.stage, t.state, t.position, now);
    if wire.Some? {
      RememberedAttempt(r);
      NoGapSnoc(r.attempts, Attempt(now, wire.value, FirstError(t.outcomes)), HEARTBEAT_MS + period + late);
    }
  }

  lemma NothingYet(r: Run, bound: nat)
    requires r.attempts == [] && r.stage.lastSent.None?
    ensures NoGap(r.attempts, bound) && Remembers(r)
  {
  }

  lemma RememberedAttempt(r: Run)
    requires Remembers(r)
    ensures Alive(r.attempts, |r.attempts| - 1) ==>
      r.attempts != [] && r.now < r.attempts[|r.attempts| - 1].time + HEARTBEAT_MS
  {
  }

  /** With a period and a lateness of at most 1600 ms together, controllers that give up after 2400 ms
      of silence never do. */
  lemma SilenceStaysUnderCeiling(file: seq<Record>, start: nat, period: nat, turns: seq<Turn>, late: nat)
    requires period > 0 && period + late <= 1600
    requires forall k :: 0 <= k < |turns| ==> turns[k].lag <= late
    ensures NoGap(Played(file, start, period, turns).attempts, 2400)
  {
    hide Played, Remembers;
    RunHasNoGap(file, start, period, turns, late);
    var attempts := Played(file, start, period, turns).attempts;
    forall k | 0 <= k && k + 1 < |attempts| && Alive(attempts, k) ensures CloseAt(attempts, k, 2400) {
      assert CloseAt(attempts, k, HEARTBEAT_MS + period + late);
    }
  }

  /** When the latest delivered attempt was made. */
  function LastDelivered(attempts: seq<Attempt>): Option<nat> {
    if attempts == [] then None
    else if attempts[|attempts| - 1].answer.Delivered? then Some(attempts[|attempts| - 1].time)
    else LastDelivered(attempts[..|attempts| - 1])
  }

  /** What the stage remembers of a run: when it last delivered, and a frame if it ever did. */
  lemma {:induction false} StageRemembers(file: seq<Record>, start: nat, period: nat, turns: seq<Turn>)
    requires period > 0
    ensures var r := Played(file, start, period, turns);
      && r.stage.lastSent == LastDelivered(r.attempts)
      && (r.stage.lastSent.Some? ==> r.stage.recorded.Some?)
      && (r.stage.at < |file| || file == [])
      && (r.stage.lastSent.Some? ==> r.stage.lastSent.value <= r.now)
      && r.now < r.deadline
    decreases |turns|
  {
    hide NextDeadline, FirstError, Seek;
    if turns != [] {
      var n := |turns| - 1;
      var r := Played(file, start, period, turns[..n]);
      StageRemembers(file, start, period, turns[..n]);
      RunIsPaced(file, start, period, turns);
      var now := WakeTime(r.now, r.deadline, turns[n].lag);
      var wire := Wire(file, r.stage, turns[n].state, turns[n].position, now);
      if wire.Some? {
        var a := Attempt(now, wire.value, FirstError(turns[n].outcomes));
        assert (r.attempts + [a])[..|r.attempts|] == r.attempts;
      }
    }
  }

  /** The keep-alive in a turn without a new frame of the show: there is an attempt exactly when 800 ms
      or more have passed since one was last delivered. So a paused show is resent, but not sooner. */
  lemma HeldExactlyWhenOwed(file: seq<Record>, start: nat, period: nat, turns: seq<Turn>)
    requires period > 0 && turns != []
    requires turns[|turns| - 1].state != Playing || file == []
    ensures var before, r := Played(file, start, period, turns[..|turns| - 1]).attempts, Played(file, start, period, turns);
      && (r.attempts == before || (|r.attempts| == |before| + 1 && r.attempts[|before|].time == r.now))
      && (r.attempts != before <==> LastDelivered(before).Some? && r.now >= LastDelivered(before).value + 800)
  {
    hide NextDeadline, FirstError, Seek, LastDelivered;
    StageRemembers(file, start, period, turns[..|turns| - 1]);
  }

  /** What a tick reports: a frame sent at its position while the show has one, otherwise whether the
      last frame was held, which takes one, and 800 ms without a delivery; and the error of a failed send. */
  lemma ReportSays(file: seq<Record>, p: StageState, state: State, position: nat, now: nat, answer: Outcome)
    ensures var tick := Reported(file, p, state, position, now, answer);
      if state == Playing && p.at < |file| then
        tick == if answer.Failed? then SendFailed(answer.error) else Sent(position)
      else if p.lastSent.Some? && now >= p.lastSent.value + 800 && p.recorded.Some? then
        tick == if answer.Failed? then SendFailed(answer.error) else Held
      else tick == Quiet
  {
  }

  // ---- what is on the wire ----

  /** The positions of the turns in which the show was playing, in order. */
  function PositionsPlayed(turns: seq<Turn>): (positions: seq<nat>) {
    if turns == [] then []
    else
      var t := turns[|turns| - 1];
      PositionsPlayed(turns[..|turns| - 1]) + if t.state == Playing then [t.position] else []
  }

  /** The frame the show had in the last of them. */
  function LastShown(file: seq<Record>, turns: seq<Turn>): Option<Frame> {
    if file == [] || PositionsPlayed(turns) == [] then None
    else
      var record := file[Visited(file, PositionsPlayed(turns))];
      Some(Frame(record.pixels, record.timestamp))
  }

  /** Whatever is attempted is the frame the show last had: its own record for the position while
      playing, that same frame again afterwards, and never one the show did not produce; and while it is
      playing there is an attempt in every turn. */
  lemma {:induction false} WireShowsLatest(file: seq<Record>, start: nat, period: nat, turns: seq<Turn>)
    requires period > 0
    ensures var r := Played(file, start, period, turns);
      && r.stage.at == (if file == [] then 0 else Visited(file, PositionsPlayed(turns)))
      && r.stage.recorded == LastShown(file, turns)
      && (turns != [] ==>
        var before, last := Played(file, start, period, turns[..|turns| - 1]).attempts, turns[|turns| - 1];
        if r.attempts == before then last.state == Playing ==> file == []
        else LastShown(file, turns).Some?
             && r.attempts == before + [Attempt(r.now, LastShown(file, turns).value, FirstError(last.outcomes))])
    decreases |turns|
  {
    hide NextDeadline, FirstError, Seek, Visited, PositionsPlayed;
    NothingPlayed(file);
    if turns != [] {
      WireShowsLatest(file, start, period, turns[..|turns| - 1]);
      CursorFollows(file, turns);
    }
  }

  lemma NothingPlayed(file: seq<Record>)
    ensures PositionsPlayed([]) == [] && (file != [] ==> Visited(file, []) == 0)
  {
  }

  /** A turn moves the cursor exactly when the show is playing in it. */
  lemma CursorFollows(file: seq<Record>, turns: seq<Turn>)
    requires turns != []
    ensures var before, after, last :=
              PositionsPlayed(turns[..|turns| - 1]), PositionsPlayed(turns), turns[|turns| - 1];
      if last.state == Playing
      then after != [] && (file != [] ==> Visited(file, after) == Seek(file, Visited(file, before), last.position))
      else after == before
  {
    hide Seek;
    var before, last := PositionsPlayed(turns[..|turns| - 1]), turns[|turns| - 1];
    if last.state == Playing {
      assert (before + [last.position])[..|before|] == before;
    }
  }

  /** On a file whose resting places are in order that frame follows from the last of these positions
      alone, and on one in order it is the record that position asks for. */
  lemma LastShownIsChosen(file: seq<Record>, turns: seq<Turn>)
    requires file != [] && PositionsPlayed(turns) != []
    ensures var positions := PositionsPlayed(turns); var position := positions[|positions| - 1];
      && (RestsInOrder(file) ==>
        var record := file[Seek(file, 0, position)]; LastShown(file, turns) == Some(Frame(record.pixels, record.timestamp)))
      && (NonDecreasing(file[1..]) ==>
        var record := file[Chosen(file, position)]; LastShown(file, turns) == Some(Frame(record.pixels, record.timestamp)))
  {
    hide Seek, RestsInOrder, NonDecreasing, Chosen;
    var positions := PositionsPlayed(turns);
    var n := |positions| - 1;
    var c := Visited(file, positions[..n]);
    assert Visited(file, positions) == Seek(file, c, positions[n]);
    if RestsInOrder(file) {
      HistoryFreeIffRestsInOrder(file);
      assert Seek(file, Visited(file, positions[..n]), positions[n]) == Seek(file, 0, positions[n]);
    }
    if NonDecreasing(file[1..]) {
      SeekFindsChosen(file, c, positions[n]);
    }
  }

  // ---- what the output is asked to do ----

  ghost predicate AllAnswered(turns: seq<Turn>, nodes: nat) {
    forall k :: 0 <= k < |turns| ==> |turns[k].outcomes| == |turns[k].meanwhile| == nodes
  }

  /** The frame the last turn puts on the wire, if any. */
  function LastWire(file: seq<Record>, start: nat, period: nat, turns: seq<Turn>): Option<Frame>
    requires period > 0 && turns != []
  {
    var n := |turns| - 1;
    var r := Played(file, start, period, turns[..n]);
    Wire(file, r.stage, turns[n].state, turns[n].position, WakeTime(r.now, r.deadline, turns[n].lag))
  }

  /** The sends of a run, in order, as the output receives them. */
  function SendsOf(file: seq<Record>, start: nat, period: nat, turns: seq<Turn>): seq<Op>
    requires period > 0
  {
    if turns == [] then []
    else
      var t, wire := turns[|turns| - 1], LastWire(file, start, period, turns);
      SendsOf(file, start, period, turns[..|turns| - 1])
      + if wire.Some? then [Send(wire.value, t.outcomes, t.meanwhile)] else []
  }

  ghost predicate IsAttempt(op: Op, a: Attempt) {
    op.Send? && op.frame == a.frame && FirstError(op.outcomes) == a.answer
  }

  /** They are the attempts of the run, one for one: the same frames, answered alike. */
  lemma {:induction false} SendsAreAttempts(file: seq<Record>, start: nat, period: nat, turns: seq<Turn>)
    requires period > 0
    ensures var sends, attempts := SendsOf(file, start, period, turns), Played(file, start, period, turns).attempts;
      |sends| == |attempts| && forall i :: 0 <= i < |sends| ==> IsAttempt(sends[i], attempts[i])
    decreases |turns|
  {
    hide Wire, Ticked, NextDeadline, FirstError;
    if turns != [] {
      SendsAreAttempts(file, start, period, turns[..|turns| - 1]);
    }
  }
}
