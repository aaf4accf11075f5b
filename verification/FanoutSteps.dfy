/** The event fan-out as a machine of atomic steps. A broadcast holds the subscriber list from its
    first delivery to its last, so nobody joins or leaves in between, but browsers read at any point,
    and the losses reach the global counter only after the list is released. */
module FanoutSteps {
  import opened Basics

  type Msg = string

  /** One browser: its queue, what it lost, and, for the record, where in the log of broadcasts it
      joined and which positions it has read. */
  datatype Sub = Sub(id: nat, joined: nat, queue: seq<Msg>, dropped: nat, read: seq<nat>)

  /** A broadcast that holds the list: how many browsers it has served, and the losses so far. */
  datatype Cast = Cast(served: nat, lost: nat)

  datatype Hub = Hub(cap: nat, nextId: nat, subs: seq<Sub>, log: seq<Msg>, global: nat,
                     cast: Option<Cast>, owed: seq<nat>, gone: nat)

  // ---- delivery ----

  /** `entrega`: the oldest are dropped until there is room. */
  function Offered(queue: seq<Msg>, cap: nat, m: Msg): (r: (seq<Msg>, nat))
    requires cap >= 1
    ensures |r.0| == Min(|queue| + 1, cap) && |r.0| + r.1 == |queue| + 1
    ensures |queue| < cap ==> r == (queue + [m], 0)
    decreases |queue|
  {
    if |queue| >= cap then
      var (rest, lost) := Offered(queue[1..], cap, m);
      (rest, lost + 1)
    else (queue + [m], 0)
  }

  function DeliverTo(s: Sub, cap: nat, m: Msg): Sub
    requires cap >= 1
  {
    var (queue, lost) := Offered(s.queue, cap, m);
    s.(queue := queue, dropped := s.dropped + lost)
  }

  /** `proximo` on a browser that has been offered the log up to `upto`. */
  function Taken(s: Sub, upto: int): Sub {
    if s.queue == [] || upto < |s.queue| then s
    else s.(queue := s.queue[1..], read := s.read + [upto - |s.queue|])
  }

  // ---- steps ----

  datatype Action =
    | Join | Leave(id: nat)
    | Begin(m: Msg) | Deliver | Release | Account(i: nat)
    | Read(id: nat)

  function Position(subs: seq<Sub>, id: nat): (k: nat)
    ensures k <= |subs|
    ensures k < |subs| ==> subs[k].id == id
    ensures forall j :: 0 <= j < k ==> subs[j].id != id
  {
    if subs == [] || subs[0].id == id then 0 else 1 + Position(subs[1..], id)
  }

  predicate Enabled(h: Hub, a: Action) {
    match a
    case Join => h.cast.None?
    case Leave(_) => h.cast.None?
    case Begin(_) => h.cast.None?
    case Deliver => h.cast.Some? && h.cast.value.served < |h.subs|
    case Release => h.cast.Some? && h.cast.value.served == |h.subs|
    case Account(i) => i < |h.owed|
    case Read(_) => true
  }

  /** How much of the log browser `k` has been offered. */
  function Upto(h: Hub, k: nat): int {
    if h.cast.Some? && k >= h.cast.value.served then |h.log| - 1 else |h.log|
  }

  function Step(h: Hub, a: Action): Hub
    requires h.cap >= 1 && Enabled(h, a) && (h.cast.Some? ==> h.log != [])
  {
    match a
    case Join => h.(subs := h.subs + [Sub(h.nextId, |h.log|, [], 0, [])], nextId := h.nextId + 1)
    case Leave(id) =>
      var k := Position(h.subs, id);
      if k == |h.subs| then h
      else h.(subs := h.subs[..k] + h.subs[k + 1..], gone := h.gone + h.subs[k].dropped)
    case Begin(m) => h.(log := h.log + [m], cast := Some(Cast(0, 0)))
    case Deliver =>
      var k := h.cast.value.served;
      var s := DeliverTo(h.subs[k], h.cap, h.log[|h.log| - 1]);
      h.(subs := h.subs[k := s], cast := Some(Cast(k + 1, h.cast.value.lost + (s.dropped - h.subs[k].dropped))))
    case Release => h.(cast := None, owed := h.owed + [h.cast.value.lost])
    case Account(i) => h.(global := h.global + h.owed[i], owed := h.owed[..i] + h.owed[i + 1..])
    case Read(id) =>
      var k := Position(h.subs, id);
      if k == |h.subs| then h else h.(subs := h.subs[k := Taken(h.subs[k], Upto(h, k))])
  }

  // ---- the invariant ----

  predicate Increasing(s: seq<nat>) {
    forall i, j :: 0 <= i < j < |s| ==> s[i] < s[j]
  }

  /** What holds of one browser offered the log up to `upto`: everything since it joined is read,
      pending or dropped; what is pending is the most recent of it; reads go forward. */
  ghost predicate SubOk(s: Sub, cap: nat, log: seq<Msg>, upto: int) {
    && s.joined + |s.queue| <= upto <= |log|
    && |s.queue| <= cap
    && s.queue == log[upto - |s.queue|..upto]
    && |s.read| + |s.queue| + s.dropped == upto - s.joined
    && Increasing(s.read)
    && forall i :: 0 <= i < |s.read| ==> s.joined <= s.read[i] < upto - |s.queue|
  }

  function Sum(s: seq<nat>): nat {
    if s == [] then 0 else Sum(s[..|s| - 1]) + s[|s| - 1]
  }

  function Losses(subs: seq<Sub>): nat {
    if subs == [] then 0 else Losses(subs[..|subs| - 1]) + subs[|subs| - 1].dropped
  }

  function InFlight(h: Hub): nat {
    (if h.cast.Some? then h.cast.value.lost else 0) + Sum(h.owed)
  }

  ghost predicate SubsOk(h: Hub) {
    forall k :: 0 <= k < |h.subs| ==> SubOk(h.subs[k], h.cap, h.log, Upto(h, k))
  }

  predicate IdsOk(subs: seq<Sub>, nextId: nat) {
    && (forall j, k :: 0 <= j < k < |subs| ==> subs[j].id != subs[k].id)
    && forall k :: 0 <= k < |subs| ==> subs[k].id < nextId
  }

  /** No loss is forgotten: what the global counter has and what is on its way to it is what every
      browser ever connected has lost. */
  predicate Balanced(h: Hub) {
    h.global + InFlight(h) == h.gone + Losses(h.subs)
  }

  ghost predicate Inv(h: Hub) {
    && h.cap >= 1
    && (h.cast.Some? ==> h.cast.value.served <= |h.subs| && h.log != [])
    && SubsOk(h) && IdsOk(h.subs, h.nextId) && Balanced(h)
  }

  function Fresh(cap: nat): (h: Hub)
    ensures Inv(h)
  {
    Hub(if cap >= 1 then cap else 1, 0, [], [], 0, None, [], 0)
  }

  // ---- sums ----

  lemma {:induction false} SumAppend(a: seq<nat>, b: seq<nat>)
    ensures Sum(a + b) == Sum(a) + Sum(b)
    decreases |b|
  {
    if b == [] {
      assert a + b == a;
    } else {
      SumAppend(a, b[..|b| - 1]);
      assert (a + b)[..|a + b| - 1] == a + b[..|b| - 1];
    }
  }

  lemma {:induction false} LossesAppend(a: seq<Sub>, b: seq<Sub>)
    ensures Losses(a + b) == Losses(a) + Losses(b)
    decreases |b|
  {
    if b == [] {
      assert a + b == a;
    } else {
      LossesAppend(a, b[..|b| - 1]);
      assert (a + b)[..|a + b| - 1] == a + b[..|b| - 1];
    }
  }

  lemma SingleLoss(s: Sub)
    ensures Losses([s]) == s.dropped
  {
    assert [s][..0] == [];
  }

  lemma LossesAround(a: seq<Sub>, s: Sub, b: seq<Sub>)
    ensures Losses(a + [s] + b) == Losses(a + b) + s.dropped
  {
    hide Losses;
    LossesAppend(a + [s], b);
    LossesAppend(a, [s]);
    LossesAppend(a, b);
    SingleLoss(s);
  }

  lemma LossesAt(subs: seq<Sub>, k: nat, s: Sub)
    requires k < |subs|
    ensures Losses(subs[k := s]) == Losses(subs) - subs[k].dropped + s.dropped
    ensures Losses(subs[..k] + subs[k + 1..]) == Losses(subs) - subs[k].dropped
  {
    hide Losses;
    var a, b := subs[..k], subs[k + 1..];
    assert subs == a + [subs[k]] + b && subs[k := s] == a + [s] + b;
    LossesAround(a, subs[k], b);
    LossesAround(a, s, b);
  }

  lemma SingleSum(x: nat)
    ensures Sum([x]) == x
  {
    assert [x][..0] == [];
  }

  lemma SumWithout(s: seq<nat>, i: nat)
    requires i < |s|
    ensures Sum(s) == Sum(s[..i] + s[i + 1..]) + s[i]
  {
    hide Sum;
    var a, b := s[..i], s[i + 1..];
    assert s == a + [s[i]] + b;
    SumAppend(a + [s[i]], b);
    SumAppend(a, [s[i]]);
    SumAppend(a, b);
    SingleSum(s[i]);
  }

  // ---- every step keeps the invariant ----

  lemma {:induction false} OfferedKeepsRecent(queue: seq<Msg>, cap: nat, m: Msg, log: seq<Msg>, upto: nat)
    requires cap >= 1 && |queue| <= upto < |log| && queue == log[upto - |queue|..upto] && log[upto] == m
    ensures var (q, lost) := Offered(queue, cap, m);
      |q| <= upto + 1 && q == log[upto + 1 - |q|..upto + 1]
    decreases |queue|
  {
    if |queue| >= cap {
      OfferedKeepsRecent(queue[1..], cap, m, log, upto);
      assert Offered(queue, cap, m).0 == Offered(queue[1..], cap, m).0;
    } else {
      assert log[upto - |queue|..upto + 1] == log[upto - |queue|..upto] + [log[upto]];
    }
  }

  lemma DeliveredOk(s: Sub, cap: nat, log: seq<Msg>, upto: nat)
    requires cap >= 1 && upto < |log| && SubOk(s, cap, log, upto)
    ensures SubOk(DeliverTo(s, cap, log[upto]), cap, log, upto + 1)
  {
    OfferedKeepsRecent(s.queue, cap, log[upto], log, upto);
    assert |Offered(s.queue, cap, log[upto]).0| + Offered(s.queue, cap, log[upto]).1 == |s.queue| + 1;
  }

  /** What a browser takes is the oldest it has pending, and that is the log at the position noted. */
  lemma TakenOk(s: Sub, cap: nat, log: seq<Msg>, upto: int)
    requires SubOk(s, cap, log, upto)
    ensures SubOk(Taken(s, upto), cap, log, upto) && Taken(s, upto).id == s.id && Taken(s, upto).dropped == s.dropped
    ensures s.queue != [] ==>
      var r := Taken(s, upto).read;
      r == s.read + [r[|s.read|]] && s.queue[0] == log[r[|s.read|]]
  {
  }

  lemma LongerLogOk(s: Sub, cap: nat, log: seq<Msg>, m: Msg)
    requires SubOk(s, cap, log, |log|)
    ensures SubOk(s, cap, log + [m], |log|)
  {
  }

  lemma JoinInv(h: Hub)
    requires Inv(h) && Enabled(h, Join)
    ensures Inv(Step(h, Join))
  {
    hide Losses, Sum;
    var s := Sub(h.nextId, |h.log|, [], 0, []);
    LossesAppend(h.subs, [s]);
    SingleLoss(s);
    assert SubOk(s, h.cap, h.log, |h.log|);
    SubsAppend(h, s);
    assert IdsOk(h.subs + [s], h.nextId + 1);
  }

  lemma SubsAppend(h: Hub, s: Sub)
    requires SubsOk(h) && h.cast.None? && SubOk(s, h.cap, h.log, |h.log|)
    ensures SubsOk(h.(subs := h.subs + [s], nextId := h.nextId + 1))
  {
    hide SubOk;
  }

  lemma SubsWithout(h: Hub, k: nat, gone: nat)
    requires SubsOk(h) && IdsOk(h.subs, h.nextId) && h.cast.None? && k < |h.subs|
    ensures SubsOk(h.(subs := h.subs[..k] + h.subs[k + 1..], gone := gone))
    ensures IdsOk(h.subs[..k] + h.subs[k + 1..], h.nextId)
  {
    hide SubOk;
    var rest := h.subs[..k] + h.subs[k + 1..];
    assert forall j :: 0 <= j < |rest| ==> rest[j] == h.subs[if j < k then j else j + 1];
  }

  lemma LeaveInv(h: Hub, id: nat)
    requires Inv(h) && Enabled(h, Leave(id))
    ensures Inv(Step(h, Leave(id)))
  {
    hide SubOk, SubsOk, IdsOk, Losses, Sum;
    var k := Position(h.subs, id);
    if k < |h.subs| {
      LossesAt(h.subs, k, h.subs[k]);
      SubsWithout(h, k, h.gone + h.subs[k].dropped);
    }
  }

  lemma BeginInv(h: Hub, m: Msg)
    requires Inv(h) && Enabled(h, Begin(m))
    ensures Inv(Step(h, Begin(m)))
  {
    hide SubOk, IdsOk, Losses, Sum;
    forall k | 0 <= k < |h.subs| ensures SubOk(h.subs[k], h.cap, h.log + [m], |h.log|) {
      LongerLogOk(h.subs[k], h.cap, h.log, m);
    }
  }

  lemma IdsKept(subs: seq<Sub>, k: nat, s: Sub, nextId: nat)
    requires IdsOk(subs, nextId) && k < |subs| && s.id == subs[k].id
    ensures IdsOk(subs[k := s], nextId)
  {
  }

  lemma DeliverInv(h: Hub)
    requires Inv(h) && Enabled(h, Deliver)
    ensures Inv(Step(h, Deliver))
  {
    hide SubOk, IdsOk, Losses, Sum;
    var k := h.cast.value.served;
    var n := |h.log| - 1;
    var s := DeliverTo(h.subs[k], h.cap, h.log[n]);
    DeliveredOk(h.subs[k], h.cap, h.log, n);
    LossesAt(h.subs, k, s);
    IdsKept(h.subs, k, s, h.nextId);
  }

  lemma ReadInv(h: Hub, id: nat)
    requires Inv(h)
    ensures Inv(Step(h, Read(id)))
  {
    hide SubOk, IdsOk, Losses, Sum, Taken;
    var k := Position(h.subs, id);
    if k < |h.subs| {
      var s := h.subs[k];
      TakenOk(s, h.cap, h.log, Upto(h, k));
      LossesAt(h.subs, k, Taken(s, Upto(h, k)));
      IdsKept(h.subs, k, Taken(s, Upto(h, k)), h.nextId);
    }
  }

  lemma ReleaseInv(h: Hub)
    requires Inv(h) && Enabled(h, Release)
    ensures Inv(Step(h, Release))
  {
    hide SubOk, IdsOk, Losses, Sum;
    SumAppend(h.owed, [h.cast.value.lost]);
    SingleSum(h.cast.value.lost);
  }

  lemma AccountInv(h: Hub, i: nat)
    requires Inv(h) && Enabled(h, Account(i))
    ensures Inv(Step(h, Account(i)))
  {
    hide SubOk, IdsOk, Losses, Sum;
    SumWithout(h.owed, i);
  }

  lemma StepInv(h: Hub, a: Action)
    requires Inv(h) && Enabled(h, a)
    ensures Inv(Step(h, a))
  {
    hide Inv, Step;
    match a {
      case Join => JoinInv(h);
      case Leave(id) => LeaveInv(h, id);
      case Begin(m) => BeginInv(h, m);
      case Deliver => DeliverInv(h);
      case Read(id) => ReadInv(h, id);
      case Release => ReleaseInv(h);
      case Account(i) => AccountInv(h, i);
    }
  }

  // ---- runs ----

  ghost function Apply(h: Hub, a: Action): (r: Hub)
    requires Inv(h) && Enabled(h, a)
    ensures Inv(r) && r.cap == h.cap
  {
    StepInv(h, a);
    Step(h, a)
  }

  ghost predicate Runs(h: Hub, actions: seq<Action>)
    requires Inv(h)
    decreases |actions|
  {
    actions == [] || (Enabled(h, actions[0]) && Runs(Apply(h, actions[0]), actions[1..]))
  }

  ghost function End(h: Hub, actions: seq<Action>): (r: Hub)
    requires Inv(h) && Runs(h, actions)
    ensures Inv(r)
    decreases |actions|
  {
    if actions == [] then h else End(Apply(h, actions[0]), actions[1..])
  }

  /** In any run, from a fresh fan-out: between broadcasts every message since a browser joined is
      read, pending or dropped by it, what is pending is the most recent of them and never more than
      the capacity, and it has read in order. */
  lemma BrowserAccount(cap: nat, actions: seq<Action>)
    requires Runs(Fresh(cap), actions)
    ensures var h := End(Fresh(cap), actions);
      h.cast.None? ==> forall k :: 0 <= k < |h.subs| ==> SubOk(h.subs[k], h.cap, h.log, |h.log|)
  {
    hide Runs, Step, SubOk;
    var h := End(Fresh(cap), actions);
    forall k | 0 <= k < |h.subs| && h.cast.None? ensures SubOk(h.subs[k], h.cap, h.log, |h.log|) {
      assert SubOk(h.subs[k], h.cap, h.log, Upto(h, k));
    }
  }

  /** And whenever no broadcast is under way or still to be added up, the global counter is the losses
      of every browser ever connected. */
  lemma GlobalAccount(cap: nat, actions: seq<Action>)
    requires Runs(Fresh(cap), actions)
    ensures var h := End(Fresh(cap), actions);
      h.cast.None? && h.owed == [] ==> h.global == h.gone + Losses(h.subs)
  {
    hide Runs, Step, SubOk;
    var h := End(Fresh(cap), actions);
    assert Balanced(h);
  }

  /** It never falls: not when a browser leaves, not ever. */
  lemma {:induction false} GlobalNeverFalls(h: Hub, actions: seq<Action>)
    requires Inv(h) && Runs(h, actions)
    ensures h.global <= End(h, actions).global && h.gone <= End(h, actions).gone
    decreases |actions|
  {
    hide Inv;
    if actions != [] {
      GlobalNeverFalls(Apply(h, actions[0]), actions[1..]);
    }
  }

  // ---- no more is lost than must be ----

  /** A delivery loses the oldest message of a full queue, and otherwise nothing. */
  lemma DeliveryLosesOneAtMost(h: Hub)
    requires Inv(h) && Enabled(h, Deliver)
    ensures var k, m := h.cast.value.served, h.log[|h.log| - 1];
      var s, t := h.subs[k], Step(h, Deliver).subs[k];
      && |s.queue| <= h.cap
      && t.id == s.id && t.joined == s.joined && t.read == s.read
      && if |s.queue| == h.cap then t.queue == s.queue[1..] + [m] && t.dropped == s.dropped + 1
         else t.queue == s.queue + [m] && t.dropped == s.dropped
  {
    hide IdsOk, Balanced;
    var s := h.subs[h.cast.value.served];
    assert SubOk(s, h.cap, h.log, Upto(h, h.cast.value.served));
    if |s.queue| == h.cap {
      OfferedFull(s.queue, h.cap, h.log[|h.log| - 1]);
    }
  }

  lemma OfferedFull(queue: seq<Msg>, cap: nat, m: Msg)
    requires cap >= 1 && |queue| == cap
    ensures Offered(queue, cap, m) == (queue[1..] + [m], 1)
  {
    assert Offered(queue[1..], cap, m) == (queue[1..] + [m], 0);
  }

  /** A browser that has read nothing has lost only what its capacity could not hold. */
  predicate KeepsMost(s: Sub, cap: nat) {
    s.read == [] && s.dropped > 0 ==> |s.queue| == cap
  }

  ghost predicate AllKeepMost(h: Hub) {
    forall k :: 0 <= k < |h.subs| ==> KeepsMost(h.subs[k], h.cap)
  }

  lemma StepKeepsMost(h: Hub, a: Action)
    requires Inv(h) && Enabled(h, a) && AllKeepMost(h)
    ensures AllKeepMost(Step(h, a))
  {
    if a.Deliver? {
      DeliveryLosesOneAtMost(h);
    } else {
      hide SubOk, IdsOk, Balanced, KeepsMost, Taken;
      NewcomerKeepsMost(h);
      if a.Read? {
        TakenKeepsMost(h, Position(h.subs, a.id));
      }
    }
  }

  lemma NewcomerKeepsMost(h: Hub)
    ensures KeepsMost(Sub(h.nextId, |h.log|, [], 0, []), h.cap)
  {
  }

  lemma TakenKeepsMost(h: Hub, k: nat)
    ensures k < |h.subs| && KeepsMost(h.subs[k], h.cap) ==> KeepsMost(Taken(h.subs[k], Upto(h, k)), h.cap)
  {
  }

  lemma {:induction false} RunKeepsMost(h: Hub, actions: seq<Action>)
    requires Inv(h) && Runs(h, actions) && AllKeepMost(h)
    ensures AllKeepMost(End(h, actions)) && End(h, actions).cap == h.cap
    decreases |actions|
  {
    hide Inv, AllKeepMost, Step;
    if actions != [] {
      StepKeepsMost(h, actions[0]);
      RunKeepsMost(Apply(h, actions[0]), actions[1..]);
    }
  }

  /** In any run, a browser that never reads has exactly the latest messages pending, as many as were
      broadcast since it joined or as its capacity holds. */
  lemma UnreadQueueIsLatest(cap: nat, actions: seq<Action>, k: nat)
    requires Runs(Fresh(cap), actions) && k < |End(Fresh(cap), actions).subs|
    requires var h := End(Fresh(cap), actions); h.cast.None? && h.subs[k].read == []
    ensures var h := End(Fresh(cap), actions);
      var n := Min(if cap >= 1 then cap else 1, |h.log| - h.subs[k].joined);
      h.subs[k].joined <= |h.log| && h.subs[k].queue == h.log[|h.log| - n..]
  {
    hide Runs, Step, SubOk, KeepsMost, IdsOk, Balanced, End;
    var h := End(Fresh(cap), actions);
    RunKeepsMost(Fresh(cap), actions);
    assert SubOk(h.subs[k], h.cap, h.log, Upto(h, k)) && KeepsMost(h.subs[k], h.cap);
    MostIsLatest(h.subs[k], h.cap, h.log);
  }

  lemma MostIsLatest(s: Sub, cap: nat, log: seq<Msg>)
    requires SubOk(s, cap, log, |log|) && KeepsMost(s, cap) && s.read == []
    ensures s.joined <= |log| && s.queue == log[|log| - Min(cap, |log| - s.joined)..]
  {
    assert |s.queue| == Min(cap, |log| - s.joined);
  }

  /** A read takes the oldest message from that browser's queue, and touches nothing else. */
  lemma ReadTakesOldest(h: Hub, k: nat)
    requires Inv(h) && k < |h.subs|
    ensures var s, next := h.subs[k], Step(h, Read(h.subs[k].id));
      var t := next.subs[k];
      && next == h.(subs := h.subs[k := t])
      && (s.queue == [] ==> t == s)
      && (s.queue != [] ==>
        && t.queue == s.queue[1..] && t.dropped == s.dropped && t.id == s.id && t.joined == s.joined
        && |t.read| == |s.read| + 1 && t.read[..|s.read|] == s.read
        && t.read[|s.read|] < |h.log| && h.log[t.read[|s.read|]] == s.queue[0])
  {
    hide Balanced;
    var j := Position(h.subs, h.subs[k].id);
    assert j == k;
    assert SubOk(h.subs[k], h.cap, h.log, Upto(h, k));
  }

  /** Leaving takes the browser with that id off the list, if it is there; the others stay as they are,
      in order. */
  lemma LeaveRemovesOnly(h: Hub, id: nat)
    requires Inv(h) && Enabled(h, Leave(id))
    ensures var now := Step(h, Leave(id)).subs;
      && (forall k :: 0 <= k < |now| ==> now[k].id != id)
      && (forall k :: 0 <= k < |h.subs| && h.subs[k].id == id ==> now == h.subs[..k] + h.subs[k + 1..])
      && ((forall k :: 0 <= k < |h.subs| ==> h.subs[k].id != id) ==> now == h.subs)
  {
    hide SubOk, Balanced, SubsOk;
    var k := Position(h.subs, id);
    if k < |h.subs| {
      var now := h.subs[..k] + h.subs[k + 1..];
      assert forall j :: 0 <= j < |now| ==> now[j] == h.subs[if j < k then j else j + 1];
    }
  }

  // ---- a broadcast without interference ----

  /** The first `k` deliveries of one message. */
  ghost function Delivered(h: Hub, m: Msg, k: nat): (r: Hub)
    requires Inv(h) && h.cast.None? && k <= |h.subs|
    ensures Inv(r) && r.cast.Some? && r.cast.value.served == k && |r.subs| == |h.subs| && r.owed == h.owed
  {
    hide SubsOk, IdsOk, Balanced, DeliverTo;
    if k == 0 then Apply(h, Begin(m)) else Apply(Delivered(h, m, k - 1), Deliver)
  }

  /** All of it: deliver to everyone, release the list, add the losses up. */
  ghost function Broadcasted(h: Hub, m: Msg): (r: Hub)
    requires Inv(h) && h.cast.None?
    ensures Inv(r) && r.cast.None?
  {
    hide SubsOk, IdsOk, Balanced;
    Apply(Apply(Delivered(h, m, |h.subs|), Release), Account(|h.owed|))
  }

  lemma {:induction false} DeliveredIs(h: Hub, m: Msg, k: nat)
    requires Inv(h) && h.cast.None? && k <= |h.subs|
    ensures var d := Delivered(h, m, k);
      && (forall i :: 0 <= i < |h.subs| ==> d.subs[i] == if i < k then DeliverTo(h.subs[i], h.cap, m) else h.subs[i])
      && d == h.(subs := d.subs, log := h.log + [m], cast := d.cast)
      && h.gone + Losses(d.subs) == h.global + Sum(h.owed) + d.cast.value.lost
    decreases k
  {
    hide SubsOk, IdsOk, Losses, Sum, DeliverTo;
    assert Balanced(Delivered(h, m, k));
    if k > 0 {
      DeliveredIs(h, m, k - 1);
    }
  }

  lemma BroadcastedIs(h: Hub, m: Msg)
    requires Inv(h) && h.cast.None? && h.owed == []
    ensures var b := Broadcasted(h, m);
      && |b.subs| == |h.subs|
      && (forall i :: 0 <= i < |h.subs| ==> b.subs[i] == DeliverTo(h.subs[i], h.cap, m))
      && b == h.(subs := b.subs, log := h.log + [m], global := h.gone + Losses(b.subs))
  {
    hide SubsOk, IdsOk, Losses, DeliverTo;
    DeliveredIs(h, m, |h.subs|);
    var r := Apply(Delivered(h, m, |h.subs|), Release);
    assert r.owed == [r.owed[0]] && r.owed[..0] + r.owed[1..] == [];
  }
}
