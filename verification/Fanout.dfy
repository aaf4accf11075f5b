/** The fan-out as objects: subscribers with their queues and counters, and the broadcaster that owns
    them. Each method is one of the machine's steps, or a whole broadcast without interference. */
module Fanout {
  import opened Basics
  import opened FanoutSteps

  class Subscriber {
    const id: nat
    const capacity: nat
    var queue: seq<Msg>
    var dropped: nat
    ghost const joined: nat
    ghost var upto: nat
    ghost var read: seq<nat>

    ghost function State(): Sub
      reads this
    {
      Sub(id, joined, queue, dropped, read)
    }

    constructor (id: nat, capacity: nat, ghost joined: nat)
      ensures State() == Sub(id, joined, [], 0, []) && this.capacity == capacity && upto == joined
    {
      this.id, this.capacity, this.joined := id, capacity, joined;
      queue, dropped, upto, read := [], 0, joined, [];
    }

    /** `proximo`: the oldest pending message, if there is one. */
    method Next() returns (r: Option<Msg>)
      requires |queue| <= upto
      modifies this
      ensures State() == Taken(old(State()), upto) && upto == old(upto)
      ensures r == if old(queue) == [] then None else Some(old(queue)[0])
    {
      r := None;
      if queue != [] {
        r := Some(queue[0]);
        read := read + [upto - |queue|];
        queue := queue[1..];
      }
    }

    /** `entrega`: never blocks; a full queue loses its oldest, and the loss is counted. */
    method Deliver(m: Msg) returns (lost: nat)
      requires capacity >= 1
      modifies this
      ensures State() == DeliverTo(old(State()), capacity, m)
      ensures lost == dropped - old(dropped) && upto == old(upto) + 1
    {
      lost := 0;
      while |queue| >= capacity
        invariant Offered(old(queue), capacity, m) == (Offered(queue, capacity, m).0, Offered(queue, capacity, m).1 + lost)
        invariant dropped == old(dropped) + lost && upto == old(upto) && read == old(read)
        decreases |queue|
      {
        queue := queue[1..];
        dropped := dropped + 1;
        lost := lost + 1;
      }
      queue := queue + [m];
      upto := upto + 1;
    }
  }

  ghost function StatesOf(subs: seq<Subscriber>): (s: seq<Sub>)
    reads subs
    ensures |s| == |subs| && forall k :: 0 <= k < |subs| ==> s[k] == subs[k].State()
  {
    seq(|subs|, k requires 0 <= k < |subs| reads subs => subs[k].State())
  }

  /** Every browser of the list has been offered the first `n` messages. */
  ghost predicate UpTo(subs: seq<Subscriber>, capacity: nat, n: nat)
    reads subs
  {
    forall k :: 0 <= k < |subs| ==> subs[k].capacity == capacity && subs[k].upto == n
  }

  predicate Unlike(subs: seq<Subscriber>) {
    forall i, j :: 0 <= i < j < |subs| ==> subs[i] != subs[j]
  }

  function Without<T>(s: seq<T>, at: nat): seq<T> {
    if at < |s| then s[..at] + s[at + 1..] else s
  }

  lemma WithoutSnoc<T>(s: seq<T>, x: T, at: nat)
    ensures Without(s + [x], at) == if at == |s| then Without(s, at) else Without(s, at) + [x]
  {
  }

  class Fanout {
    const capacity: nat
    var subs: seq<Subscriber>
    var nextId: nat
    var total: nat
    ghost var log: seq<Msg>
    ghost var gone: nat

    ghost function Subs(): (s: seq<Sub>)
      reads this`subs, subs
      ensures |s| == |subs| && forall k :: 0 <= k < |subs| ==> s[k] == subs[k].State()
    {
      StatesOf(subs)
    }

    ghost function State(): Hub
      reads this, subs
    {
      Hub(capacity, nextId, Subs(), log, total, None, [], gone)
    }

    ghost predicate Valid()
      reads this, subs
    {
      Inv(State()) && UpTo(subs, capacity, |log|)
    }

    constructor (capacity: nat)
      ensures Valid() && State() == Fresh(capacity)
    {
      this.capacity := if capacity >= 1 then capacity else 1;
      subs, nextId, total, log, gone := [], 0, 0, [], 0;
      new;
      assert Subs() == [];
    }

    /** `ligar`. */
    method Connect() returns (s: Subscriber)
      requires Valid()
      modifies this
      ensures Valid() && State() == Step(old(State()), Join)
      ensures fresh(s) && subs == old(subs) + [s]
    {
      hide Inv;
      StepInv(State(), Join);
      var id := nextId;
      nextId := nextId + 1;
      s := new Subscriber(id, capacity, |log|);
      subs := subs + [s];
      assert Subs() == old(Subs()) + [s.State()];
    }

    /** `retain`: the browsers whose id is another. */
    method Others(id: nat) returns (kept: seq<Subscriber>)
      requires IdsOk(Subs(), nextId)
      ensures kept == Without(subs, Position(Subs(), id))
    {
      hide Without, IdsOk, Position, StatesOf;
      kept := [];
      ghost var states := Subs();
      ghost var at := Position(states, id);
      assert Without(subs[..0], at) == [] by { NothingLeft(subs[..0], at); }
      for k := 0 to |subs|
        invariant kept == Without(subs[..k], at)
      {
        OnlyOne(states, nextId, id, k);
        assert states[k] == subs[k].State();
        assert subs[..k + 1] == subs[..k] + [subs[k]];
        WithoutSnoc(subs[..k], subs[k], at);
        if subs[k].id != id {
          kept := kept + [subs[k]];
        }
      }
      assert subs[..|subs|] == subs;
    }

    /** `desligar`: everyone but the browser with that id stays. */
    method Disconnect(id: nat)
      requires Valid()
      modifies this
      ensures Valid() && State() == Step(old(State()), Leave(id))
    {
      hide Inv, IdsOk, Losses, Step, Position, UpTo, Without, StatesOf, Subscriber.State;
      ghost var h := State();
      StepInv(h, Leave(id));
      UniqueIds(h);
      LeaveIs(h, id);
      var kept := Others(id);
      ghost var at := Position(h.subs, id);
      if at < |subs| {
        gone := gone + h.subs[at].dropped;
      } else {
        NobodyLeaves(h.subs, at);
      }
      KeptStates(subs, at, capacity, |log|);
      subs := kept;
    }

    /** One delivery; the other queues are not touched. */
    method DeliverAt(k: nat, m: Msg) returns (lost: nat)
      requires k < |subs| && capacity >= 1 && subs[k].capacity == capacity && Unlike(subs)
      modifies subs[k]
      ensures Subs() == old(Subs())[k := DeliverTo(old(Subs())[k], capacity, m)]
      ensures subs[k].upto == old(subs[k].upto) + 1
      ensures lost == Losses(Subs()) - Losses(old(Subs()))
    {
      hide DeliverTo, Losses;
      lost := subs[k].Deliver(m);
      assert Subs() == old(Subs())[k := subs[k].State()];
      LossesAt(old(Subs()), k, subs[k].State());
    }

    /** The loop over the list, which is held throughout. */
    method DeliverAll(m: Msg, ghost n: nat) returns (lost: nat)
      requires capacity >= 1 && Unlike(subs) && UpTo(subs, capacity, n)
      modifies subs
      ensures Served(old(Subs()), Subs(), |subs|, capacity, m)
      ensures UpTo(subs, capacity, n + 1)
      ensures lost == Losses(Subs()) - Losses(old(Subs()))
    {
      hide Losses, DeliverTo, Served, Subscriber.State;
      ghost var was := Subs();
      NoneServed(was, capacity, m);
      lost := 0;
      for k := 0 to |subs|
        invariant Served(was, Subs(), k, capacity, m)
        invariant forall i :: 0 <= i < |subs| ==> subs[i].upto == if i < k then n + 1 else n
        invariant lost == Losses(Subs()) - Losses(was)
      {
        ServedStep(was, Subs(), k, capacity, m);
        var more := DeliverAt(k, m);
        lost := lost + more;
      }
    }

    /** `difundir`: everyone connected is offered the message, and what they lose is added up once. */
    method Broadcast(m: Msg)
      requires Valid()
      modifies this, subs
      ensures Valid() && State() == Broadcasted(old(State()), m)
    {
      hide Inv, Losses, Served, Broadcasted, StatesOf, UpTo, Unlike, Subscriber.State, Subs;
      ghost var h := State();
      DistinctSubs();
      var lost := DeliverAll(m, |log|);
      ServedIsBroadcast(h, m, Subs(), lost);
      Tally(m, lost);
    }

    /** The end of it: the message is in the log, and the losses are counted once. */
    method Tally(m: Msg, lost: nat)
      modifies this`log, this`total
      ensures log == old(log) + [m] && total == old(total) + lost
    {
      log := log + [m];
      if lost > 0 {
        total := total + lost;
      }
    }

    lemma DistinctSubs()
      requires Valid()
      ensures capacity >= 1 && Unlike(subs)
    {
      forall i, j | 0 <= i < j < |subs| ensures subs[i] != subs[j] {
        assert Subs()[i].id != Subs()[j].id;
      }
    }
  }

  /** The first `k` browsers have been delivered to, the others not yet. */
  ghost predicate Served(was: seq<Sub>, now: seq<Sub>, k: nat, cap: nat, m: Msg)
    requires cap >= 1
  {
    |now| == |was| && forall i :: 0 <= i < |was| ==> now[i] == if i < k then DeliverTo(was[i], cap, m) else was[i]
  }

  lemma NoneServed(was: seq<Sub>, cap: nat, m: Msg)
    requires cap >= 1
    ensures Served(was, was, 0, cap, m)
  {
  }

  lemma ServedStep(was: seq<Sub>, now: seq<Sub>, k: nat, cap: nat, m: Msg)
    requires cap >= 1 && Served(was, now, k, cap, m) && k < |was|
    ensures |now| == |was| && Served(was, now[k := DeliverTo(now[k], cap, m)], k + 1, cap, m)
  {
    hide DeliverTo;
  }

  lemma ServedIsBroadcast(h: Hub, m: Msg, now: seq<Sub>, lost: nat)
    requires Inv(h) && h.cast.None? && h.owed == []
    requires Served(h.subs, now, |h.subs|, h.cap, m) && lost == Losses(now) - Losses(h.subs)
    ensures Broadcasted(h, m) == h.(subs := now, log := h.log + [m], global := h.global + lost)
  {
    hide Inv, Losses, DeliverTo, Broadcasted;
    BroadcastedIs(h, m);
    BalancedNow(h);
    assert now == Broadcasted(h, m).subs;
  }

  lemma NobodyLeaves<T>(s: seq<T>, at: nat)
    requires at >= |s|
    ensures Without(s, at) == s
  {
  }

  lemma NothingLeft<T>(s: seq<T>, at: nat)
    requires s == []
    ensures Without(s, at) == []
  {
  }

  lemma KeptStates(subs: seq<Subscriber>, at: nat, capacity: nat, n: nat)
    requires UpTo(subs, capacity, n)
    ensures StatesOf(Without(subs, at)) == Without(StatesOf(subs), at)
    ensures UpTo(Without(subs, at), capacity, n)
  {
    hide Subscriber.State;
    var rest := Without(subs, at);
    assert forall k :: 0 <= k < |rest| ==> rest[k] == subs[if k < at then k else k + 1];
  }

  lemma LeaveIs(h: Hub, id: nat)
    requires Inv(h) && h.cast.None?
    ensures var at := Position(h.subs, id);
      Step(h, Leave(id)) == if at == |h.subs| then h
                            else h.(subs := Without(h.subs, at), gone := h.gone + h.subs[at].dropped)
  {
    hide Inv, Position;
  }

  lemma UniqueIds(h: Hub)
    requires Inv(h)
    ensures IdsOk(h.subs, h.nextId)
  {
  }

  lemma BalancedNow(h: Hub)
    requires Inv(h) && h.cast.None? && h.owed == []
    ensures h.global == h.gone + Losses(h.subs)
  {
    assert Balanced(h);
  }

  lemma OnlyOne(subs: seq<Sub>, nextId: nat, id: nat, k: nat)
    requires IdsOk(subs, nextId) && k < |subs|
    ensures subs[k].id == id <==> k == Position(subs, id)
  {
  }
}
