/** Many peers on one UDP socket (crates/netsnmp/src/udp_shared.rs): any
    interleaving of sends, receives, cancellations and datagrams. */
module UdpShared {
  import opened Values
  import opened Channels

  /** The receiver is in the hands of a `send` that has not stashed it yet, in its
      handle's slot, or with a `receive`; or the datagram was returned, the sender
      was found dropped, or the receiver was dropped. */
  datatype Phase = InHand | Stashed | Awaiting | Returned(datagram: nat) | Closed | Dropped

  /** One call of `route`: the handle it was for. Its channel has the same
      number. */
  datatype Registration = Registration(handle: nat, phase: Phase)

  /** `pending` holds each handle's stashed receiver, `latest` its most recent
      stash. */
  datatype Sys = Sys(hub: Hub<i32>, regs: seq<Registration>, pending: map<nat, nat>, latest: map<nat, nat>)

  const Start: Sys := Sys(Hub(map[], [], []), [], map[], map[])

  /** `Datagram` is one whose id could be extracted; others are dropped unseen. */
  datatype Event =
    | Route(handle: nat, id: i32)
    | Stash(reg: nat)
    | Abandon(reg: nat)
    | Datagram(id: i32)
    | Unroute(id: i32)
    | Receive(handle: nat)
    | Complete(reg: nat)
    | Fail(reg: nat)
    | Cancel(reg: nat)

  predicate In(s: Sys, r: nat, phase: Phase) {
    r < |s.regs| && r < |s.hub.channels| && s.regs[r].phase == phase
  }

  predicate Possible(s: Sys, e: Event) {
    match e
    case Route(_, _) => true
    case Stash(r) => In(s, r, InHand) && (s.regs[r].handle in s.pending ==>
      s.pending[s.regs[r].handle] < |s.regs| && s.pending[s.regs[r].handle] < |s.hub.channels|)
    case Abandon(r) => In(s, r, InHand)
    case Datagram(_) => true
    case Unroute(_) => true
    case Receive(h) => h in s.pending && s.pending[h] < |s.regs|
    case Complete(r) => In(s, r, Awaiting) && s.hub.channels[r].inbox.Some?
    case Fail(r) => In(s, r, Awaiting) && s.hub.channels[r].inbox.None? && !Waited(s.hub, r)
    case Cancel(r) => In(s, r, Awaiting)
  }

  function SetPhase(s: Sys, r: nat, phase: Phase): Sys
    requires r < |s.regs|
  {
    s.(regs := s.regs[r := s.regs[r].(phase := phase)])
  }

  /** Drop a receiver. */
  function DropReg(s: Sys, r: nat): Sys
    requires r < |s.regs| && r < |s.hub.channels|
  {
    SetPhase(s.(hub := Deafen(s.hub, r)), r, Dropped)
  }

  /** The slot takes the receiver; the one it held is dropped. */
  function Stashing(s: Sys, r: nat): Sys
    requires Possible(s, Stash(r))
  {
    var h := s.regs[r].handle;
    var cleared := if h in s.pending then DropReg(s, s.pending[h]) else s;
    SetPhase(cleared.(pending := s.pending[h := r], latest := s.latest[h := r]), r, Stashed)
  }

  ghost function Step(s: Sys, e: Event): Sys
    requires Possible(s, e) && Keyed(s.hub)
  {
    match e
    case Route(h, id) => s.(hub := Open(s.hub, id), regs := s.regs + [Registration(h, InHand)])
    case Stash(r) => Stashing(s, r)
    case Abandon(r) => DropReg(s, r)
    case Datagram(id) => s.(hub := Deliver(s.hub, id))
    case Unroute(id) => s.(hub := Forget(s.hub, id))
    case Receive(h) => SetPhase(s.(pending := s.pending - {h}), s.pending[h], Awaiting)
    case Complete(r) => SetPhase(s, r, Returned(s.hub.channels[r].inbox.value))
    case Fail(r) => SetPhase(s, r, Closed)
    case Cancel(r) => DropReg(s, r)
  }

  // ----- What holds in every run -----

  predicate Receiving(p: Phase) {
    p.InHand? || p.Stashed? || p.Awaiting?
  }

  ghost predicate Placed(s: Sys) {
    && |s.regs| == |s.hub.channels|
    && (forall r :: 0 <= r < |s.regs| ==>
          && (s.hub.channels[r].listening <== Receiving(s.regs[r].phase))
          && (s.regs[r].phase.Returned? ==> s.hub.channels[r].inbox == Some(s.regs[r].phase.datagram)))
  }

  /** A handle's slot holds its latest stash. */
  ghost predicate Slotted(s: Sys) {
    forall h :: h in s.pending ==>
      && s.pending[h] < |s.regs| && s.regs[s.pending[h]] == Registration(h, Stashed)
      && h in s.latest && s.latest[h] == s.pending[h]
  }

  /** The sender under an id is that of the newest registration with the id. */
  ghost predicate Newest(h: Hub<i32>) {
    forall c, d :: 0 <= c < d < |h.channels| && Waited(h, c) ==> h.channels[d].key != h.channels[c].key
  }

  ghost predicate Good(s: Sys) {
    Sound(s.hub) && Newest(s.hub) && Placed(s) && Slotted(s)
  }

  ghost predicate IsRun(states: seq<Sys>, events: seq<Event>) {
    && |states| == |events| + 1
    && states[0] == Start
    && forall i :: 0 <= i < |events| ==>
         Possible(states[i], events[i]) && Keyed(states[i].hub) && states[i + 1] == Step(states[i], events[i])
  }

  /** What a step does to the table: some operations on it, in order. */
  function TableOps(s: Sys, e: Event): seq<Op<i32>>
    requires Possible(s, e)
  {
    match e
    case Route(_, id) => [Opening(id)]
    case Stash(r) => if s.regs[r].handle in s.pending then [Deafening(s.pending[s.regs[r].handle])] else []
    case Abandon(r) => [Deafening(r)]
    case Datagram(id) => [Delivering(id)]
    case Unroute(id) => [Forgetting(id)]
    case Cancel(r) => [Deafening(r)]
    case _ => []
  }

  lemma StepIsTableOp(s: Sys, e: Event)
    requires Possible(s, e) && Keyed(s.hub)
    ensures var ops := TableOps(s, e); |ops| <= 1 && Step(s, e).hub == if ops == [] then s.hub else Apply(s.hub, ops[0])
  {
  }

  lemma ApplyKeepsNewest(h: Hub<i32>, op: Op<i32>)
    requires Sound(h) && Newest(h)
    ensures Newest(Apply(h, op))
  {
    var h' := Apply(h, op);
    forall c, d | 0 <= c < d < |h'.channels| && Waited(h', c)
      ensures h'.channels[d].key != h'.channels[c].key
    {
      if !Waited(h, c) {
        SettledChannelStays(h, op, c);
      }
    }
  }

  lemma StepKeepsPlaced(s: Sys, e: Event)
    requires Good(s) && Possible(s, e)
    ensures Placed(Step(s, e))
  {
    if e.Datagram? {
      forall r | 0 <= r < |s.regs|
        ensures var c, c' := s.hub.channels[r], Deliver(s.hub, e.id).channels[r];
          c'.listening == c.listening && (c.inbox.Some? ==> c'.inbox == c.inbox)
      {
        DeliverReaches(s.hub, e.id, r);
      }
    }
  }

  lemma StepKeepsSlotted(s: Sys, e: Event)
    requires Good(s) && Possible(s, e)
    ensures Slotted(Step(s, e))
  {
    if e.Stash? {
      StashKeepsSlotted(s, e.reg);
    }
  }

  lemma StashKeepsSlotted(s: Sys, r: nat)
    requires Good(s) && Possible(s, Stash(r))
    ensures Slotted(Stashing(s, r))
  {
  }

  lemma {:induction false} RunsAreGood(states: seq<Sys>, events: seq<Event>, i: nat)
    requires IsRun(states, events) && i < |states|
    ensures Good(states[i])
  {
    if i > 0 {
      var s, e := states[i - 1], events[i - 1];
      RunsAreGood(states, events, i - 1);
      assert states[i] == Step(s, e);
      StepIsTableOp(s, e);
      if TableOps(s, e) != [] {
        ApplyKeepsSound(s.hub, TableOps(s, e)[0]);
        ApplyKeepsNewest(s.hub, TableOps(s, e)[0]);
      }
      StepKeepsPlaced(s, e);
      StepKeepsSlotted(s, e);
    }
  }

  /** Every payload that was returned is a datagram with the id of its
      registration, and no datagram was returned for two registrations, so none
      went to two handles. */
  lemma ReturnsMatch(states: seq<Sys>, events: seq<Event>, i: nat, q: nat, r: nat)
    requires IsRun(states, events) && i < |states| && q < |states[i].regs| && r < |states[i].regs|
    requires states[i].regs[q].phase.Returned? && states[i].regs[r].phase.Returned?
    ensures var s := states[i];
      && q < |s.hub.channels| && s.regs[q].phase.datagram < |s.hub.log|
      && s.hub.log[s.regs[q].phase.datagram] == s.hub.channels[q].key
      && (s.regs[q].phase.datagram == s.regs[r].phase.datagram ==> q == r)
  {
    RunsAreGood(states, events, i);
  }

  /** A registration gets at most one datagram: its outcome is final. */
  lemma {:induction false} OutcomeIsFinal(states: seq<Sys>, events: seq<Event>, i: nat, j: nat, r: nat)
    requires IsRun(states, events) && i <= j < |states| && r < |states[i].regs| && !Receiving(states[i].regs[r].phase)
    ensures r < |states[j].regs| && states[j].regs[r] == states[i].regs[r]
    decreases j
  {
    if i < j {
      OutcomeIsFinal(states, events, i, j - 1, r);
      RunsAreGood(states, events, j - 1);
      assert states[j] == Step(states[j - 1], events[j - 1]);
      StepKeepsOutcome(states[j - 1], events[j - 1], r);
    }
  }

  lemma StepKeepsOutcome(s: Sys, e: Event, r: nat)
    requires Good(s) && Possible(s, e) && r < |s.regs| && !Receiving(s.regs[r].phase)
    ensures r < |Step(s, e).regs| && Step(s, e).regs[r] == s.regs[r]
  {
  }

  /** Who awaits after a step awaited before it, or is just taken. */
  lemma AwaitingStep(s: Sys, e: Event, r: nat)
    requires Good(s) && Possible(s, e) && r < |Step(s, e).regs| && Step(s, e).regs[r].phase.Awaiting?
    ensures r < |s.regs| && s.regs[r].handle == Step(s, e).regs[r].handle
    ensures s.regs[r] == Step(s, e).regs[r]
         || (s.regs[r].phase == Stashed && e == Receive(s.regs[r].handle)
             && s.regs[r].handle in s.latest && s.latest[s.regs[r].handle] == r)
  {
  }

  /** Whoever awaits was taken from its handle's slot, where it was the latest
      stash. */
  lemma {:induction false} AwaitedWasLatest(states: seq<Sys>, events: seq<Event>, i: nat, r: nat) returns (j: nat)
    requires IsRun(states, events) && i < |states| && r < |states[i].regs| && states[i].regs[r].phase.Awaiting?
    ensures j < i && r < |states[j].regs| && events[j] == Receive(states[i].regs[r].handle)
    ensures states[j].regs[r] == Registration(states[i].regs[r].handle, Stashed)
    ensures var h := states[i].regs[r].handle;
      h in states[j].latest && states[j].latest[h] == r
    decreases i
  {
    assert i > 0;
    RunsAreGood(states, events, i - 1);
    assert states[i] == Step(states[i - 1], events[i - 1]);
    AwaitingStep(states[i - 1], events[i - 1], r);
    if r < |states[i - 1].regs| && states[i - 1].regs[r] == states[i].regs[r] {
      j := AwaitedWasLatest(states, events, i - 1, r);
    } else {
      j := i - 1;
    }
  }

  /** The handle stashes once more. */
  predicate Restashes(s: Sys, e: Event, h: nat) {
    e.Stash? && e.reg < |s.regs| && s.regs[e.reg].handle == h
  }

  /** Handle h has stashed, and registration r is past its stash. */
  predicate Taken(s: Sys, h: nat, r: nat) {
    h in s.latest && r < |s.regs| && s.regs[r].phase != InHand
  }

  lemma LatestStep(s: Sys, e: Event, h: nat, r: nat)
    requires Good(s) && Possible(s, e) && Taken(s, h, r)
    ensures Taken(Step(s, e), h, r)
    ensures Step(s, e).latest[h] == r <==> s.latest[h] == r && !Restashes(s, e, h)
  {
  }

  lemma TakenStep(states: seq<Sys>, events: seq<Event>, i: nat, h: nat, r: nat)
    requires IsRun(states, events) && i < |events| && Taken(states[i], h, r)
    ensures Taken(states[i + 1], h, r)
    ensures states[i + 1].latest[h] == r <==> states[i].latest[h] == r && !Restashes(states[i], events[i], h)
  {
    RunsAreGood(states, events, i);
    assert states[i + 1] == Step(states[i], events[i]);
    LatestStep(states[i], events[i], h, r);
  }

  lemma TakenWasLatest(states: seq<Sys>, events: seq<Event>, j: nat, h: nat)
    requires IsRun(states, events) && j < |events| && events[j] == Receive(h) && h in states[j].pending
    ensures Taken(states[j + 1], h, states[j].pending[h]) && states[j + 1].latest[h] == states[j].pending[h]
  {
    RunsAreGood(states, events, j);
    assert states[j + 1] == Step(states[j], events[j]);
  }

  lemma {:induction false} StaysTaken(states: seq<Sys>, events: seq<Event>, i: nat, k: nat, h: nat, r: nat)
    requires IsRun(states, events) && i <= k < |states| && Taken(states[i], h, r)
    ensures Taken(states[k], h, r)
    decreases k
  {
    if i < k {
      StaysTaken(states, events, i, k - 1, h, r);
      TakenStep(states, events, k - 1, h, r);
    }
  }

  /** What a `receive` took stays its handle's latest stash until the next one, and
      never is again. */
  lemma LatestIff(states: seq<Sys>, events: seq<Event>, j: nat, i: nat, h: nat, r: nat)
    requires IsRun(states, events) && j < i < |states| && events[j] == Receive(h)
    requires h in states[j].pending && states[j].pending[h] == r
    ensures h in states[i].latest
    ensures states[i].latest[h] == r <==> forall k :: j < k < i ==> !Restashes(states[k], events[k], h)
  {
    var held := (k: nat) => k < |states| && h in states[k].latest && states[k].latest[h] == r;
    var cut := (k: nat) => k < |events| && k < |states| && Restashes(states[k], events[k], h);
    TakenWasLatest(states, events, j, h);
    forall k | j < k < i ensures held(k + 1) <==> held(k) && !cut(k) {
      StaysTaken(states, events, j + 1, k, h, r);
      TakenStep(states, events, k, h, r);
    }
    StaysTaken(states, events, j + 1, i, h, r);
    HeldIff(held, cut, j, i);
    assert forall k :: j < k < i ==> cut(k) == Restashes(states[k], events[k], h);
  }

  /** The payload a `receive` returns carries the id under which its handle had
      sent last when that `receive` began; at the time of return that is still the
      latest exactly when the handle stashed nothing in between. */
  lemma PayloadIsForLatestSend(states: seq<Sys>, events: seq<Event>, i: nat) returns (j: nat)
    requires IsRun(states, events) && i < |events| && events[i].Complete?
    ensures var r, s := events[i].reg, states[i];
      && j < i && r < |s.regs| && r < |s.hub.channels| && s.hub.channels[r].inbox.Some?
      && s.hub.channels[r].inbox.value < |s.hub.log|
      && s.hub.log[s.hub.channels[r].inbox.value] == s.hub.channels[r].key
      && events[j] == Receive(s.regs[r].handle)
      && s.regs[r].handle in states[j].latest && states[j].latest[s.regs[r].handle] == r
      && states[i + 1].regs[r].phase == Returned(s.hub.channels[r].inbox.value)
      && s.regs[r].handle in s.latest
      && (s.latest[s.regs[r].handle] == r <==> forall k :: j < k < i ==> !Restashes(states[k], events[k], s.regs[r].handle))
  {
    RunsAreGood(states, events, i);
    assert states[i + 1] == Step(states[i], events[i]);
    j := AwaitedWasLatest(states, events, i, events[i].reg);
    RunsAreGood(states, events, j);
    LatestIff(states, events, j, i, states[i].regs[events[i].reg].handle, events[i].reg);
  }

  /** One more step at the end of a run. */
  lemma Extend(states: seq<Sys>, events: seq<Event>, e: Event) returns (states': seq<Sys>, events': seq<Event>)
    requires IsRun(states, events) && Possible(states[|events|], e)
    ensures Keyed(states[|events|].hub) && IsRun(states', events')
    ensures |events'| == |events| + 1 && events'[|events|] == e
    ensures states'[|events|] == states[|events|] && states'[|events'|] == Step(states[|events|], e)
  {
    RunsAreGood(states, events, |events|);
    states', events' := states + [Step(states[|events|], e)], events + [e];
    forall i | 0 <= i < |events'|
      ensures Possible(states'[i], events'[i]) && Keyed(states'[i].hub) && states'[i + 1] == Step(states'[i], events'[i])
    {
      if i < |events| {
        assert states'[i] == states[i] && states'[i + 1] == states[i + 1] && events'[i] == events[i];
      }
    }
  }

  /** A `receive` awaits the answer to its handle's first send. */
  lemma AwaitingFirst(h: nat, first: i32) returns (states: seq<Sys>, events: seq<Event>)
    ensures IsRun(states, events)
    ensures states[|events|] == Sys(Hub(map[first := 0], [Channel(first, None, true)], []), [Registration(h, Awaiting)], map[], map[h := 0])
  {
    states, events := [Start], [];
    states, events := Extend(states, events, Route(h, first));
    states, events := Extend(states, events, Stash(0));
    states, events := Extend(states, events, Receive(h));
  }

  /** The handle sends again in the meantime. */
  lemma AwaitingSecond(h: nat, first: i32, second: i32) returns (states: seq<Sys>, events: seq<Event>)
    requires first != second
    ensures IsRun(states, events)
    ensures states[|events|] == Sys(Hub(map[first := 0, second := 1], [Channel(first, None, true), Channel(second, None, true)], []),
      [Registration(h, Awaiting), Registration(h, Stashed)], map[h := 1], map[h := 1])
  {
    states, events := AwaitingFirst(h, first);
    states, events := Extend(states, events, Route(h, second));
    states, events := Extend(states, events, Stash(1));
  }

  /** The payload that the waiting `receive` then returns carries the id of the
      earlier send. */
  lemma SomeRunReturnsAnEarlierSend(h: nat, first: i32, second: i32) returns (states: seq<Sys>, events: seq<Event>)
    requires first != second
    ensures IsRun(states, events) && |events| > 0
    ensures var n := |events| - 1;
      && events[n] == Complete(0) && |states[n].regs| == |states[n].hub.channels| == 2
      && h in states[n].latest && states[n].latest[h] == 1 && states[n].hub.channels[1].key == second
      && states[n].regs[0].handle == h && states[n].hub.log == [first]
      && states[n + 1].regs[0].phase == Returned(0)
  {
    states, events := AwaitingSecond(h, first, second);
    states, events := Extend(states, events, Datagram(first));
    states, events := Extend(states, events, Complete(0));
  }

  /** A datagram fills the newest registration under its id if that one still
      stands in the table and listens, and no other. */
  lemma DatagramGoesToNewest(states: seq<Sys>, events: seq<Event>, i: nat, r: nat)
    requires IsRun(states, events) && i < |events| && events[i].Datagram? && r < |states[i].hub.channels|
    requires states[i + 1].hub.channels[r] != states[i].hub.channels[r]
    ensures var h := states[i].hub;
      && h.channels[r].key == events[i].id && h.channels[r].inbox.None? && h.channels[r].listening
      && (forall d :: r < d < |h.channels| ==> h.channels[d].key != events[i].id)
      && states[i + 1].hub.channels == h.channels[r := h.channels[r].(inbox := Some(|h.log|))]
  {
    RunsAreGood(states, events, i);
    assert states[i + 1] == Step(states[i], events[i]);
    DeliverReaches(states[i].hub, events[i].id, r);
  }

  lemma StepKeepsSettled(s: Sys, e: Event, r: nat)
    requires Good(s) && Possible(s, e) && r < |s.hub.channels| && !Waited(s.hub, r)
    ensures var h := Step(s, e).hub;
      r < |h.channels| && !Waited(h, r) && h.channels[r].inbox == s.hub.channels[r].inbox
  {
    StepIsTableOp(s, e);
    if TableOps(s, e) != [] {
      SettledChannelStays(s.hub, TableOps(s, e)[0], r);
    }
  }

  lemma {:induction false} SettledForever(states: seq<Sys>, events: seq<Event>, i: nat, j: nat, r: nat)
    requires IsRun(states, events) && i <= j < |states| && r < |states[i].hub.channels| && !Waited(states[i].hub, r)
    ensures r < |states[j].hub.channels| && !Waited(states[j].hub, r)
    ensures states[j].hub.channels[r].inbox == states[i].hub.channels[r].inbox
    decreases j
  {
    if i < j {
      SettledForever(states, events, i, j - 1, r);
      RunsAreGood(states, events, j - 1);
      assert states[j] == Step(states[j - 1], events[j - 1]);
      StepKeepsSettled(states[j - 1], events[j - 1], r);
    }
  }

  /** A registration whose id is routed again before its datagram came never gets
      one. */
  lemma SupersededGetsNothing(states: seq<Sys>, events: seq<Event>, i: nat, j: nat, r: nat)
    requires IsRun(states, events) && i < j < |states| && r < |states[i].hub.channels|
    requires events[i].Route? && events[i].id == states[i].hub.channels[r].key && states[i].hub.channels[r].inbox.None?
    ensures r < |states[j].hub.channels| && states[j].hub.channels[r].inbox.None?
    ensures r < |states[j].regs| && !states[j].regs[r].phase.Returned?
  {
    RunsAreGood(states, events, i);
    assert states[i + 1] == Step(states[i], events[i]);
    assert !Waited(states[i + 1].hub, r);
    SettledForever(states, events, i + 1, j, r);
    RunsAreGood(states, events, j);
  }
}
