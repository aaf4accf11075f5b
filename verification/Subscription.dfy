/** The upstream subscription: claim, establish and two-step release, by any number of threads, one
    atomic access per step; and the supervisor's waits between attempts. */
module Subscription {
  import opened PowersOfTwo

  /** What one thread is doing. A holder has the guard; `Counted` is between the two writes of
      `estabelecida`, `Lowered` between the two of the guard's drop. */
  datatype Phase = Idle | Holding | Counted | Flowing | Lowered

  datatype State = State(claimed: bool, established: bool, subscriptions: nat, phases: seq<Phase>)

  datatype Action = Claim(t: nat) | Count(t: nat) | Establish(t: nat) | Lower(t: nat) | Free(t: nat)

  predicate Enabled(s: State, a: Action) {
    a.t < |s.phases| &&
    match a
    case Claim(t) => s.phases[t] == Idle
    case Count(t) => s.phases[t] == Holding
    case Establish(t) => s.phases[t] == Counted
    case Lower(t) => s.phases[t] == Holding || s.phases[t] == Flowing
    case Free(t) => s.phases[t] == Lowered
  }

  /** A claim is a compare-exchange: it succeeds only on an unclaimed subscription. */
  function Step(s: State, a: Action): (r: State)
    requires Enabled(s, a)
    ensures |r.phases| == |s.phases|
  {
    match a
    case Claim(t) => if s.claimed then s else s.(claimed := true, phases := s.phases[t := Holding])
    case Count(t) => s.(subscriptions := s.subscriptions + 1, phases := s.phases[t := Counted])
    case Establish(t) => s.(established := true, phases := s.phases[t := Flowing])
    case Lower(t) => s.(established := false, phases := s.phases[t := Lowered])
    case Free(t) => s.(claimed := false, phases := s.phases[t := Idle])
  }

  function Start(threads: nat): (s: State)
    ensures Inv(s)
  {
    State(false, false, 0, seq(threads, _ => Idle))
  }

  /** At most one guard exists; the claim says whether one does; and the gauge is up exactly while its
      holder has a flow. */
  ghost predicate Inv(s: State) {
    && (forall i, j :: 0 <= i < j < |s.phases| ==> s.phases[i] == Idle || s.phases[j] == Idle)
    && (s.claimed <==> exists t :: 0 <= t < |s.phases| && s.phases[t] != Idle)
    && (s.established <==> exists t :: 0 <= t < |s.phases| && s.phases[t] == Flowing)
  }

  lemma StepInv(s: State, a: Action)
    requires Inv(s) && Enabled(s, a)
    ensures Inv(Step(s, a))
  {
    var r := Step(s, a);
    if r != s {
      assert forall j :: 0 <= j < |s.phases| && j != a.t ==> r.phases[j] == s.phases[j] == Idle;
      assert r.phases[a.t] == match a
        case Claim(_) => Holding
        case Count(_) => Counted
        case Establish(_) => Flowing
        case Lower(_) => Lowered
        case Free(_) => Idle;
    }
  }

  // ---- runs ----

  ghost function Apply(s: State, a: Action): (r: State)
    requires Inv(s) && Enabled(s, a)
    ensures Inv(r) && |r.phases| == |s.phases|
  {
    StepInv(s, a);
    Step(s, a)
  }

  ghost predicate Runs(s: State, actions: seq<Action>)
    requires Inv(s)
    decreases |actions|
  {
    actions == [] || (Enabled(s, actions[0]) && Runs(Apply(s, actions[0]), actions[1..]))
  }

  ghost function End(s: State, actions: seq<Action>): (r: State)
    requires Inv(s) && Runs(s, actions)
    ensures Inv(r) && |r.phases| == |s.phases|
    decreases |actions|
  {
    if actions == [] then s else End(Apply(s, actions[0]), actions[1..])
  }

  /** Under every interleaving: never two guards, nothing established that is not claimed, and a claim
      succeeds exactly when no guard exists, which is when every earlier flow is marked down. */
  lemma NeverTwo(threads: nat, actions: seq<Action>, a: Action)
    requires Runs(Start(threads), actions) && Enabled(End(Start(threads), actions), a)
    ensures var s := End(Start(threads), actions);
      && (s.established ==> s.claimed)
      && (forall i, j :: 0 <= i < j < |s.phases| ==> !(s.phases[i] != Idle && s.phases[j] != Idle))
      && (a.Claim? ==> (Step(s, a).phases[a.t] == Holding <==> !s.claimed) && (s.claimed ==> Step(s, a) == s))
      && (!s.claimed ==> !s.established && forall t :: 0 <= t < |s.phases| ==> s.phases[t] == Idle)
  {
    hide Runs, End;
  }

  /** A guard is held until its own release: without that, nobody else's steps take it away. */
  lemma {:induction false} HeldUntilFreed(s: State, actions: seq<Action>, t: nat)
    requires Inv(s) && Runs(s, actions) && t < |s.phases| && s.phases[t] != Idle
    requires Free(t) !in actions
    ensures End(s, actions).phases[t] != Idle && End(s, actions).claimed
    decreases |actions|
  {
    hide Inv;
    if actions != [] {
      assert actions[0] in actions;
      OthersLeaveIt(s, actions[0], t);
      HeldUntilFreed(Apply(s, actions[0]), actions[1..], t);
    } else {
      HolderIsClaimed(s, t);
    }
  }

  lemma HolderIsClaimed(s: State, t: nat)
    requires Inv(s) && t < |s.phases| && s.phases[t] != Idle
    ensures s.claimed
  {
  }

  lemma OthersLeaveIt(s: State, a: Action, t: nat)
    requires Enabled(s, a) && t < |s.phases| && s.phases[t] != Idle && a != Free(t)
    ensures Step(s, a).phases[t] != Idle
  {
  }

  /** So between two successful claims the first guard has gone through its whole release: the flow was
      marked down, and only then the claim was given up. */
  lemma NextClaimWaits(s: State, actions: seq<Action>, t: nat, u: nat)
    requires Inv(s) && Runs(s, actions) && t < |s.phases| && s.phases[t] == Holding
    requires Enabled(End(s, actions), Claim(u)) && Step(End(s, actions), Claim(u)).phases[u] == Holding
    ensures exists l, m :: 0 <= l < m < |actions| && actions[l] == Lower(t) && actions[m] == Free(t)
  {
    hide Inv, Step;
    var end := End(s, actions);
    ClaimFindsFree(end, u);
    if Free(t) !in actions {
      HeldUntilFreed(s, actions, t);
    } else {
      var m := FirstFree(actions, t);
      LoweredBeforeFreed(s, actions, t, m);
    }
  }

  lemma ClaimFindsFree(s: State, u: nat)
    requires Enabled(s, Claim(u)) && Step(s, Claim(u)).phases[u] == Holding
    ensures !s.claimed
  {
  }

  lemma {:induction false} FirstFree(actions: seq<Action>, t: nat) returns (m: nat)
    requires Free(t) in actions
    ensures m < |actions| && actions[m] == Free(t) && Free(t) !in actions[..m]
    decreases |actions|
  {
    if actions[0] == Free(t) {
      m := 0;
    } else {
      var k := FirstFree(actions[1..], t);
      m := k + 1;
      assert actions[..m] == [actions[0]] + actions[1..][..k];
    }
  }

  /** A guard that is not yet lowered must be before it can be freed. */
  lemma {:induction false} LoweredBeforeFreed(s: State, actions: seq<Action>, t: nat, m: nat)
    requires Inv(s) && Runs(s, actions) && t < |s.phases| && s.phases[t] != Idle && s.phases[t] != Lowered
    requires m < |actions| && actions[m] == Free(t)
    ensures exists l :: 0 <= l < m && actions[l] == Lower(t)
    decreases |actions|
  {
    hide Inv;
    assert actions[0] != Free(t);
    if actions[0] == Lower(t) {
      assert m > 0;
    } else {
      LoweredBeforeFreed(Apply(s, actions[0]), actions[1..], t, m - 1);
      var l :| 0 <= l < m - 1 && actions[1..][l] == Lower(t);
      assert actions[l + 1] == Lower(t);
    }
  }

  /** A guard can always be given up by its holder alone, and then the subscription can be claimed. */
  lemma {:induction false} HolderCanGiveUp(s: State, t: nat) returns (actions: seq<Action>)
    requires Inv(s) && t < |s.phases| && s.phases[t] != Idle
    ensures Runs(s, actions) && forall a :: a in actions ==> a.t == t
    ensures End(s, actions).phases[t] == Idle && !End(s, actions).claimed && !End(s, actions).established
    decreases match s.phases[t] case Counted => 3 case Flowing => 2 case Holding => 2 case Lowered => 1 case Idle => 0
  {
    var a := match s.phases[t] case Counted => Establish(t) case Lowered => Free(t) case _ => Lower(t);
    var next := Apply(s, a);
    if a.Free? {
      actions := [a];
      assert [a][1..] == [];
      assert Runs(next, []);
      NobodyHolds(next, t);
    } else {
      var rest := HolderCanGiveUp(next, t);
      actions := [a] + rest;
      assert actions[1..] == rest;
    }
  }

  lemma NobodyHolds(s: State, t: nat)
    requires Inv(s) && t < |s.phases| && s.phases[t] == Idle && !s.claimed
    ensures !s.established
  {
  }

  function Counts(actions: seq<Action>): nat {
    if actions == [] then 0 else (if actions[0].Count? then 1 else 0) + Counts(actions[1..])
  }

  /** The counter of subscriptions counts each of them once. */
  lemma {:induction false} SubscriptionsCounted(s: State, actions: seq<Action>)
    requires Inv(s) && Runs(s, actions)
    ensures End(s, actions).subscriptions == s.subscriptions + Counts(actions)
    decreases |actions|
  {
    hide Inv;
    if actions != [] {
      SubscriptionsCounted(Apply(s, actions[0]), actions[1..]);
    }
  }

  // ---- the supervisor ----

  const BACKOFF_INITIAL: nat := 50
  const BACKOFF_MAX: nat := 5000

  /** The wait after `k` failures in a row since the last flow, or since the start. */
  function Backoff(k: nat): nat {
    if BACKOFF_INITIAL * PowerOfTwo(k) <= BACKOFF_MAX then BACKOFF_INITIAL * PowerOfTwo(k) else BACKOFF_MAX
  }

  /** How many attempts ago there last was a flow, counting the first attempt as if there had been. */
  function SinceFlow(hadFlow: seq<bool>, i: nat): nat
    requires i < |hadFlow|
  {
    if i == 0 || hadFlow[i] then 0 else SinceFlow(hadFlow, i - 1) + 1
  }

  lemma BackoffDoubles(k: nat)
    ensures Backoff(k + 1) == if Backoff(k) * 2 <= BACKOFF_MAX then Backoff(k) * 2 else BACKOFF_MAX
    ensures Backoff(0) == BACKOFF_INITIAL
  {
    assert PowerOfTwo(k + 1) == 2 * PowerOfTwo(k);
  }

  /** Each wait from the one before, in milliseconds. */
  lemma WaitFollows(hadFlow: seq<bool>, i: nat)
    requires i < |hadFlow|
    ensures Backoff(SinceFlow(hadFlow, i)) == if i == 0 || hadFlow[i] then 50
      else if 2 * Backoff(SinceFlow(hadFlow, i - 1)) <= 5000 then 2 * Backoff(SinceFlow(hadFlow, i - 1)) else 5000
  {
    hide Backoff;
    BackoffDoubles(0);
    if i > 0 {
      BackoffDoubles(SinceFlow(hadFlow, i - 1));
    }
  }

  /** The waits of `subir_subscricao`, given whether each attempt came to a flow: they double up to
      their ceiling and start over after a flow. */
  method Supervise(hadFlow: seq<bool>) returns (waits: seq<nat>)
    ensures |waits| == |hadFlow|
    ensures forall i :: 0 <= i < |hadFlow| ==> waits[i] == Backoff(SinceFlow(hadFlow, i))
    ensures forall i :: 0 <= i < |hadFlow| ==>
      waits[i] == if i == 0 || hadFlow[i] then 50 else if 2 * waits[i - 1] <= 5000 then 2 * waits[i - 1] else 5000
  {
    hide Backoff;
    waits := [];
    var wait := BACKOFF_INITIAL;
    BackoffDoubles(0);
    for i := 0 to |hadFlow|
      invariant |waits| == i
      invariant wait == if i == 0 then BACKOFF_INITIAL else Backoff(SinceFlow(hadFlow, i - 1) + 1)
      invariant forall k :: 0 <= k < i ==> waits[k] == Backoff(SinceFlow(hadFlow, k))
    {
      if hadFlow[i] {
        wait := BACKOFF_INITIAL;
      }
      waits := waits + [wait];
      BackoffDoubles(SinceFlow(hadFlow, i));
      wait := if wait * 2 <= BACKOFF_MAX then wait * 2 else BACKOFF_MAX;
    }
    forall i | 0 <= i < |hadFlow|
      ensures waits[i] == if i == 0 || hadFlow[i] then 50 else if 2 * waits[i - 1] <= 5000 then 2 * waits[i - 1] else 5000
    {
      WaitFollows(hadFlow, i);
    }
  }
}
