/** Forwarded requests of the AgentX master and the Responses that answer them
    (crates/netsnmp-agent/src/agentx/master.rs): any interleaving of any number
    of forwarders with the connection loops. */
module Exchange {
  import opened Oids
  import opened Values
  import opened Channels

  /** Which session, and which packet id in it: one pending table per session is
      one table with both in its key. */
  datatype Key = Key(sid: u32, pid: u32)

  /** A forwarder: it has chosen its packet id; its sender is in the pending table
      and the request is being written; it waits; its time is up and its receiver
      gone, but the table is not yet cleaned; it is done. */
  datatype Phase = Chosen | Sending | Waiting | Expired | Answered(response: nat) | TimedOut | Disconnected

  /** `ordinal` counts the session's forwards. */
  datatype Waiter = Waiter(key: Key, ordinal: nat, channel: nat, phase: Phase)

  /** A session's packet counter, and how often it was advanced. */
  datatype Counter = Counter(next: u32, total: nat)

  /** `owners` tells whose channel each one is. */
  datatype Sys = Sys(hub: Hub<Key>, sessions: map<u32, Counter>, waiters: seq<Waiter>, owners: seq<nat>)

  const Start: Sys := Sys(Hub(map[], [], []), map[], [], [])

  datatype Event =
    | Connect(session: u32)
    | Forward(sid: u32)
    | Insert(w: nat)
    | Written(w: nat, ok: bool)
    | Respond(key: Key)
    | Take(w: nat)
    | Expire(w: nat)
    | Clean(w: nat)

  predicate In(s: Sys, w: nat, phase: Phase) {
    w < |s.waiters| && s.waiters[w].phase == phase
  }

  /** Waiting on a channel that exists. */
  predicate OnChannel(s: Sys, w: nat) {
    w < |s.waiters| && s.waiters[w].channel < |s.hub.channels|
  }

  /** A waiter takes an answer that is there; its time only runs out on an empty
      channel. */
  predicate Possible(s: Sys, e: Event) {
    match e
    case Connect(sid) => sid !in s.sessions
    case Forward(sid) => sid in s.sessions
    case Insert(w) => In(s, w, Chosen)
    case Written(w, _) => In(s, w, Sending) && OnChannel(s, w)
    case Respond(key) => key.sid in s.sessions
    case Take(w) => In(s, w, Waiting) && OnChannel(s, w) && s.hub.channels[s.waiters[w].channel].inbox.Some?
    case Expire(w) => In(s, w, Waiting) && OnChannel(s, w) && s.hub.channels[s.waiters[w].channel].inbox.None?
    case Clean(w) => In(s, w, Expired) && OnChannel(s, w)
  }

  /** The counter after one more forward. */
  function Advanced(c: Counter): Counter {
    Counter(WrappingNext(c.next), c.total + 1)
  }

  /** A session's packet counter as the forwarders share it; `total` counts them
      without wrapping. */
  class PacketCounter {
    var next: u32
    ghost var total: nat

    ghost predicate Valid()
      reads this
    {
      next == total % 0x1_0000_0000
    }

    constructor ()
      ensures Valid() && total == 0
    {
      next, total := 0, 0;
    }

    /** The n-th forward gets id n modulo 2^32. */
    method NextPacket() returns (pid: u32)
      requires Valid()
      modifies this
      ensures Valid() && total == old(total) + 1 && pid == total % 0x1_0000_0000
      ensures Counter(next, total) == Advanced(Counter(old(next), old(total)))
    {
      NextCounts(total);
      next := WrappingNext(next);
      total := total + 1;
      pid := next;
    }
  }

  function SetPhase(s: Sys, w: nat, phase: Phase): Sys
    requires w < |s.waiters|
  {
    s.(waiters := s.waiters[w := s.waiters[w].(phase := phase)])
  }

  ghost function Step(s: Sys, e: Event): Sys
    requires Possible(s, e) && Keyed(s.hub)
  {
    match e
    case Connect(sid) => s.(sessions := s.sessions[sid := Counter(0, 0)])
    case Forward(sid) =>
      var c := Advanced(s.sessions[sid]);
      s.(sessions := s.sessions[sid := c],
         waiters := s.waiters + [Waiter(Key(sid, c.next), c.total, 0, Chosen)])
    case Insert(w) =>
      var waiter := s.waiters[w].(channel := |s.hub.channels|, phase := Sending);
      s.(hub := Open(s.hub, waiter.key), waiters := s.waiters[w := waiter], owners := s.owners + [w])
    case Written(w, ok) =>
      if ok then SetPhase(s, w, Waiting)
      else SetPhase(s.(hub := Deafen(s.hub, s.waiters[w].channel)), w, Disconnected)
    case Respond(key) => s.(hub := Deliver(s.hub, key))
    case Take(w) => SetPhase(s, w, Answered(s.hub.channels[s.waiters[w].channel].inbox.value))
    case Expire(w) => SetPhase(s.(hub := Deafen(s.hub, s.waiters[w].channel)), w, Expired)
    case Clean(w) => SetPhase(s.(hub := Forget(s.hub, s.waiters[w].key)), w, TimedOut)
  }

  /** Its receiver still exists. */
  predicate Receiving(w: Waiter) {
    w.phase.Sending? || w.phase.Waiting?
  }

  /** It may still touch the table under its key. */
  predicate Outstanding(w: Waiter) {
    Receiving(w) || w.phase.Expired?
  }

  predicate Done(w: Waiter) {
    w.phase.Answered? || w.phase.TimedOut? || w.phase.Disconnected?
  }

  // ----- What holds in every run -----

  /** A waiter past its insertion has a channel of its own under its own key; an
      receiving one listens; an answered one holds what its channel received. */
  ghost predicate Placed(s: Sys) {
    && (forall w :: 0 <= w < |s.waiters| && s.waiters[w].phase != Chosen ==>
          && s.waiters[w].channel < |s.hub.channels|
          && s.hub.channels[s.waiters[w].channel].key == s.waiters[w].key
          && (Receiving(s.waiters[w]) ==> s.hub.channels[s.waiters[w].channel].listening)
          && (s.waiters[w].phase.Answered? ==> s.hub.channels[s.waiters[w].channel].inbox == Some(s.waiters[w].phase.response)))
    && (forall v, w :: 0 <= v < w < |s.waiters| && s.waiters[v].phase != Chosen && s.waiters[w].phase != Chosen ==>
          s.waiters[v].channel != s.waiters[w].channel)
  }

  ghost predicate Good(s: Sys) {
    Sound(s.hub) && Placed(s)
  }

  ghost predicate IsRun(states: seq<Sys>, events: seq<Event>) {
    && |states| == |events| + 1
    && states[0] == Start
    && forall i :: 0 <= i < |events| ==>
         Possible(states[i], events[i]) && Keyed(states[i].hub) && states[i + 1] == Step(states[i], events[i])
  }

  lemma StepKeepsSound(s: Sys, e: Event)
    requires Sound(s.hub) && Possible(s, e)
    ensures Sound(Step(s, e).hub)
  {
    match e
    case Insert(w) => OpenKeepsSound(s.hub, s.waiters[w].key);
    case Written(w, ok) =>
      if !ok {
        DeafenKeepsSound(s.hub, s.waiters[w].channel);
      }
    case Respond(key) => DeliverKeepsSound(s.hub, key);
    case Expire(w) => DeafenKeepsSound(s.hub, s.waiters[w].channel);
    case Clean(w) => ForgetKeepsSound(s.hub, s.waiters[w].key);
    case _ =>
  }

  lemma RespondKeepsPlaced(s: Sys, key: Key)
    requires Good(s) && Possible(s, Respond(key))
    ensures Placed(Step(s, Respond(key)))
  {
    var s' := Step(s, Respond(key));
    forall w | 0 <= w < |s.waiters| && s.waiters[w].phase != Chosen
      ensures var c, c' := s.hub.channels[s.waiters[w].channel], s'.hub.channels[s.waiters[w].channel];
        c'.key == c.key && c'.listening == c.listening && (c.inbox.Some? ==> c'.inbox == c.inbox)
    {
      DeliverReaches(s.hub, key, s.waiters[w].channel);
    }
  }

  lemma ForwardKeepsPlaced(s: Sys, e: Event)
    requires Good(s) && Possible(s, e) && e.Forward?
    ensures Placed(Step(s, e))
  {
  }

  /** From s to t waiter w goes on to another phase, and at most its own channel
      stops listening. */
  ghost predicate MovesOn(s: Sys, t: Sys, w: nat) {
    && w < |s.waiters| == |t.waiters| && s.waiters[w].phase != Chosen && t.waiters[w].phase != Chosen
    && (forall v :: 0 <= v < |s.waiters| ==> t.waiters[v].key == s.waiters[v].key && t.waiters[v].channel == s.waiters[v].channel)
    && (forall v :: 0 <= v < |s.waiters| && v != w ==> t.waiters[v] == s.waiters[v])
    && |t.hub.channels| == |s.hub.channels|
    && (forall c :: 0 <= c < |s.hub.channels| ==>
          t.hub.channels[c].key == s.hub.channels[c].key && t.hub.channels[c].inbox == s.hub.channels[c].inbox)
    && (forall c :: 0 <= c < |s.hub.channels| && (c != s.waiters[w].channel || Receiving(t.waiters[w])) ==>
          t.hub.channels[c] == s.hub.channels[c])
    && (Receiving(t.waiters[w]) ==> Receiving(s.waiters[w]))
  }

  lemma WrittenMovesOn(s: Sys, e: Event)
    requires Good(s) && Possible(s, e) && e.Written?
    ensures MovesOn(s, Step(s, e), e.w) && Step(s, e).hub.table == s.hub.table && !Step(s, e).waiters[e.w].phase.Answered?
  {
  }

  lemma TakeMovesOn(s: Sys, e: Event)
    requires Good(s) && Possible(s, e) && e.Take?
    ensures MovesOn(s, Step(s, e), e.w) && Step(s, e).hub == s.hub
    ensures s.hub.channels[s.waiters[e.w].channel].inbox == Some(Step(s, e).waiters[e.w].phase.response)
  {
  }

  lemma GivingUpMovesOn(s: Sys, e: Event, w: nat)
    requires Good(s) && Possible(s, e) && (e == Expire(w) || e == Clean(w))
    ensures MovesOn(s, Step(s, e), w) && !Step(s, e).waiters[w].phase.Answered?
    ensures e.Expire? ==> Step(s, e).hub.table == s.hub.table
  {
  }

  lemma PhaseKeepsPlaced(s: Sys, t: Sys, w: nat)
    requires Placed(s) && MovesOn(s, t, w)
    requires t.waiters[w].phase.Answered? ==> t.hub.channels[t.waiters[w].channel].inbox == Some(t.waiters[w].phase.response)
    ensures Placed(t)
  {
  }

  lemma InsertKeepsPlaced(s: Sys, w: nat)
    requires Good(s) && Possible(s, Insert(w))
    ensures Placed(Step(s, Insert(w)))
  {
  }

  lemma StepKeepsPlaced(s: Sys, e: Event)
    requires Good(s) && Possible(s, e)
    ensures Placed(Step(s, e))
  {
    match e
    case Connect(_) =>
    case Forward(_) => ForwardKeepsPlaced(s, e);
    case Respond(key) => RespondKeepsPlaced(s, key);
    case Insert(w) => InsertKeepsPlaced(s, w);
    case Written(w, _) => WrittenMovesOn(s, e);
      PhaseKeepsPlaced(s, Step(s, e), w);
    case Take(w) => TakeMovesOn(s, e);
      PhaseKeepsPlaced(s, Step(s, e), w);
    case Expire(w) => GivingUpMovesOn(s, e, w);
      PhaseKeepsPlaced(s, Step(s, e), w);
    case Clean(w) => GivingUpMovesOn(s, e, w);
      PhaseKeepsPlaced(s, Step(s, e), w);
  }

  lemma {:induction false} RunsAreGood(states: seq<Sys>, events: seq<Event>, i: nat)
    requires IsRun(states, events) && i < |states|
    ensures Good(states[i])
  {
    if i > 0 {
      RunsAreGood(states, events, i - 1);
      assert states[i] == Step(states[i - 1], events[i - 1]);
      StepKeepsSound(states[i - 1], events[i - 1]);
      StepKeepsPlaced(states[i - 1], events[i - 1]);
    }
  }

  /** The Responses among the events, in order. */
  function Responses(events: seq<Event>): seq<Key> {
    if events == [] then []
    else
      var n := |events| - 1;
      Responses(events[..n]) + if events[n].Respond? then [events[n].key] else []
  }

  /** The log numbers the Responses that came in. */
  lemma {:induction false} LogIsResponses(states: seq<Sys>, events: seq<Event>, i: nat)
    requires IsRun(states, events) && i < |states|
    ensures states[i].hub.log == Responses(events[..i])
  {
    if i > 0 {
      LogIsResponses(states, events, i - 1);
      assert events[..i][..i - 1] == events[..i - 1];
      assert states[i] == Step(states[i - 1], events[i - 1]);
    }
  }

  /** An answer came from a Response of the same session with the same packet id,
      and no Response answered two forwarders: in every run, packet ids reused or
      not. */
  lemma AnswersMatch(states: seq<Sys>, events: seq<Event>, i: nat, w: nat, v: nat)
    requires IsRun(states, events) && i < |states|
    requires w < |states[i].waiters| && states[i].waiters[w].phase.Answered?
    requires v < |states[i].waiters| && states[i].waiters[v].phase.Answered?
    ensures var s, responses := states[i], Responses(events[..i]);
      && s.waiters[w].phase.response < |responses|
      && responses[s.waiters[w].phase.response] == s.waiters[w].key
      && (s.waiters[v].phase.response == s.waiters[w].phase.response ==> v == w)
  {
    RunsAreGood(states, events, i);
    LogIsResponses(states, events, i);
    var s := states[i];
    var c, d := s.waiters[w].channel, s.waiters[v].channel;
    assert s.hub.channels[c].inbox == Some(s.waiters[w].phase.response);
    assert s.hub.channels[d].inbox == Some(s.waiters[v].phase.response);
  }

  /** No forwarder completes twice: once done, always done, with the same
      outcome. */
  lemma {:induction false} CompletedOnce(states: seq<Sys>, events: seq<Event>, i: nat, j: nat, w: nat)
    requires IsRun(states, events) && i <= j < |states| && w < |states[i].waiters| && Done(states[i].waiters[w])
    ensures w < |states[j].waiters| && states[j].waiters[w] == states[i].waiters[w]
    decreases j
  {
    if i < j {
      CompletedOnce(states, events, i, j - 1, w);
      assert states[j] == Step(states[j - 1], events[j - 1]);
    }
  }

  // ----- Runs in which no packet id is reused while outstanding -----

  /** Inserting finds no outstanding forwarder under the same key. */
  ghost predicate NoReuse(s: Sys, e: Event) {
    e.Insert? && e.w < |s.waiters| ==>
      forall v :: 0 <= v < |s.waiters| && Outstanding(s.waiters[v]) ==> s.waiters[v].key != s.waiters[e.w].key
  }

  ghost predicate Empty(s: Sys, w: nat)
    requires OnChannel(s, w)
  {
    s.hub.channels[s.waiters[w].channel].inbox.None?
  }

  /** Outstanding forwarders have different keys, and each receiving one that has no
      answer yet has its sender in the table. */
  ghost predicate Reachable(s: Sys) {
    && (forall w :: 0 <= w < |s.waiters| && Receiving(s.waiters[w]) ==>
          s.waiters[w].channel < |s.hub.channels| && (Empty(s, w) ==> Waited(s.hub, s.waiters[w].channel)))
    && (forall v, w :: 0 <= v < w < |s.waiters| && Outstanding(s.waiters[v]) && Outstanding(s.waiters[w]) ==>
          s.waiters[v].key != s.waiters[w].key)
  }

  lemma RespondKeepsReachable(s: Sys, key: Key)
    requires Good(s) && Reachable(s) && Possible(s, Respond(key))
    ensures Reachable(Step(s, Respond(key)))
  {
    var s' := Step(s, Respond(key));
    forall w | 0 <= w < |s.waiters| && Receiving(s.waiters[w])
      ensures s.waiters[w].channel < |s'.hub.channels| && (Empty(s', w) ==> Waited(s'.hub, s.waiters[w].channel))
    {
      DeliverReaches(s.hub, key, s.waiters[w].channel);
    }
  }

  lemma CleanKeepsReachable(s: Sys, w: nat)
    requires Good(s) && Reachable(s) && Possible(s, Clean(w))
    ensures Reachable(Step(s, Clean(w)))
  {
    var s' := Step(s, Clean(w));
    forall v | 0 <= v < |s'.waiters| && Receiving(s'.waiters[v])
      ensures s'.waiters[v].channel < |s'.hub.channels| && (Empty(s', v) ==> Waited(s'.hub, s'.waiters[v].channel))
    {
      assert v != w && s'.waiters[v] == s.waiters[v];
      assert s.waiters[v].key != s.waiters[w].key;
    }
  }

  lemma InsertKeepsReachable(s: Sys, w: nat)
    requires Good(s) && Reachable(s) && Possible(s, Insert(w)) && NoReuse(s, Insert(w))
    ensures Reachable(Step(s, Insert(w)))
  {
  }

  lemma PhaseKeepsReachable(s: Sys, t: Sys, w: nat)
    requires Placed(s) && Reachable(s) && MovesOn(s, t, w) && t.hub.table == s.hub.table
    requires Outstanding(t.waiters[w]) ==> Outstanding(s.waiters[w])
    ensures Reachable(t)
  {
  }

  lemma ForwardKeepsReachable(s: Sys, e: Event)
    requires Good(s) && Reachable(s) && Possible(s, e) && e.Forward?
    ensures Reachable(Step(s, e))
  {
  }

  lemma StepKeepsReachable(s: Sys, e: Event)
    requires Good(s) && Reachable(s) && Possible(s, e) && NoReuse(s, e)
    ensures Reachable(Step(s, e))
  {
    match e
    case Connect(_) =>
    case Forward(_) => ForwardKeepsReachable(s, e);
    case Insert(w) => InsertKeepsReachable(s, w);
    case Written(w, _) => WrittenMovesOn(s, e);
      PhaseKeepsReachable(s, Step(s, e), w);
    case Respond(key) => RespondKeepsReachable(s, key);
    case Take(w) => TakeMovesOn(s, e);
      PhaseKeepsReachable(s, Step(s, e), w);
    case Expire(w) => GivingUpMovesOn(s, e, w);
      PhaseKeepsReachable(s, Step(s, e), w);
    case Clean(w) => CleanKeepsReachable(s, w);
  }

  ghost predicate IsCarefulRun(states: seq<Sys>, events: seq<Event>) {
    IsRun(states, events) && forall i :: 0 <= i < |events| ==> NoReuse(states[i], events[i])
  }

  lemma {:induction false} CarefulRunsReach(states: seq<Sys>, events: seq<Event>, i: nat)
    requires IsCarefulRun(states, events) && i < |states|
    ensures Good(states[i]) && Reachable(states[i])
  {
    RunsAreGood(states, events, i);
    if i > 0 {
      CarefulRunsReach(states, events, i - 1);
      assert NoReuse(states[i - 1], events[i - 1]);
      assert states[i] == Step(states[i - 1], events[i - 1]);
      StepKeepsReachable(states[i - 1], events[i - 1]);
    }
  }

  /** The forwarder a Response is for. */
  predicate Expects(s: Sys, w: nat, key: Key) {
    && w < |s.waiters| && Receiving(s.waiters[w]) && s.waiters[w].key == key
    && OnChannel(s, w) && s.hub.channels[s.waiters[w].channel].inbox.None?
  }

  /** Every channel belongs to a forwarder, and is deaf once that one gave up. */
  ghost predicate Owned(s: Sys) {
    && |s.owners| == |s.hub.channels|
    && forall c :: 0 <= c < |s.owners| ==>
         && s.owners[c] < |s.waiters|
         && s.waiters[s.owners[c]].channel == c && s.waiters[s.owners[c]].phase != Chosen
         && (s.hub.channels[c].listening ==> Receiving(s.waiters[s.owners[c]]) || s.waiters[s.owners[c]].phase.Answered?)
  }

  lemma RespondKeepsOwned(s: Sys, key: Key)
    requires Good(s) && Owned(s) && Possible(s, Respond(key))
    ensures Owned(Step(s, Respond(key)))
  {
    var s' := Step(s, Respond(key));
    forall c | 0 <= c < |s.hub.channels|
      ensures s'.hub.channels[c].listening == s.hub.channels[c].listening
    {
      DeliverReaches(s.hub, key, c);
    }
  }

  lemma StepKeepsOwned(s: Sys, e: Event)
    requires Good(s) && Owned(s) && Possible(s, e)
    ensures Owned(Step(s, e))
  {
    match e
    case Respond(key) => RespondKeepsOwned(s, key);
    case _ =>
  }

  lemma {:induction false} RunsAreOwned(states: seq<Sys>, events: seq<Event>, i: nat)
    requires IsRun(states, events) && i < |states|
    ensures Owned(states[i])
  {
    if i > 0 {
      RunsAreOwned(states, events, i - 1);
      RunsAreGood(states, events, i - 1);
      assert states[i] == Step(states[i - 1], events[i - 1]);
      StepKeepsOwned(states[i - 1], events[i - 1]);
    }
  }

  /** The channels when message number m fills that of forwarder w. */
  function Filled(s: Sys, w: nat, m: nat): seq<Channel<Key>>
    requires OnChannel(s, w)
  {
    var c := s.waiters[w].channel;
    s.hub.channels[c := s.hub.channels[c].(inbox := Some(m))]
  }

  lemma ExpectedIsFilled(s: Sys, w: nat, key: Key)
    requires Good(s) && Reachable(s) && Expects(s, w, key)
    ensures Deliver(s.hub, key).channels == Filled(s, w, |s.hub.log|)
  {
    assert Empty(s, w);
  }

  lemma UnexpectedIsDropped(s: Sys, key: Key)
    requires Good(s) && Owned(s) && !(exists w: nat :: Expects(s, w, key))
    ensures Deliver(s.hub, key).channels == s.hub.channels
  {
    if key in s.hub.table && s.hub.channels[s.hub.table[key]].listening {
      var c := s.hub.table[key];
      var w := s.owners[c];
      assert s.hub.channels[c].inbox.None?;
      assert Receiving(s.waiters[w]);
      assert Expects(s, w, key);
    }
  }

  /** A Response reaches the one waiting, unanswered forwarder of its session
      and packet id; without such a forwarder (a late, duplicate or unknown
      Response) it is dropped and no channel changes. */
  lemma ResponseReachesItsForwarder(states: seq<Sys>, events: seq<Event>, i: nat)
    requires IsCarefulRun(states, events) && i < |events| && events[i].Respond?
    ensures var s, s', key := states[i], states[i + 1], events[i].key;
      && (forall w :: Expects(s, w, key) ==> s'.hub.channels == Filled(s, w, |s.hub.log|))
      && (forall v, w :: Expects(s, v, key) && Expects(s, w, key) ==> v == w)
      && ((exists w :: Expects(s, w, key)) || s'.hub.channels == s.hub.channels)
      && s'.waiters == s.waiters
  {
    CarefulRunsReach(states, events, i);
    RunsAreOwned(states, events, i);
    var s, key := states[i], events[i].key;
    assert states[i + 1] == Step(s, events[i]);
    forall w | Expects(s, w, key)
      ensures Deliver(s.hub, key).channels == Filled(s, w, |s.hub.log|)
    {
      ExpectedIsFilled(s, w, key);
    }
    if !(exists w :: Expects(s, w, key)) {
      UnexpectedIsDropped(s, key);
    }
  }

  // ----- What becomes of a Response when packet ids are reused -----

  /** Another forwarder inserts under w's key, or cleans up after itself there. */
  predicate Disturbs(s: Sys, e: Event, w: nat) {
    && (e.Insert? || e.Clean?) && e.w != w
    && w < |s.waiters| && e.w < |s.waiters| && s.waiters[e.w].key == s.waiters[w].key
  }

  /** It still waits, and no answer came yet. */
  predicate Unanswered(s: Sys, w: nat) {
    w < |s.waiters| && Expects(s, w, s.waiters[w].key)
  }

  /** Its sender is in the table. */
  predicate Tabled(s: Sys, w: nat) {
    w < |s.waiters| && Waited(s.hub, s.waiters[w].channel)
  }

  lemma StepKeepsInserted(s: Sys, e: Event, w: nat)
    requires Possible(s, e) && Keyed(s.hub) && w < |s.waiters| && s.waiters[w].phase != Chosen
    ensures w < |Step(s, e).waiters| && Step(s, e).waiters[w].phase != Chosen
  {
  }

  lemma {:induction false} InsertedStays(states: seq<Sys>, events: seq<Event>, i: nat, j: nat, w: nat)
    requires IsRun(states, events) && i < j < |states| && events[i] == Insert(w)
    ensures w < |states[j].waiters| && states[j].waiters[w].phase != Chosen
    decreases j
  {
    assert states[j] == Step(states[j - 1], events[j - 1]);
    if i < j - 1 {
      InsertedStays(states, events, i, j - 1, w);
      StepKeepsInserted(states[j - 1], events[j - 1], w);
    }
  }

  lemma RespondTabledStep(s: Sys, key: Key, w: nat)
    requires Good(s) && Possible(s, Respond(key)) && w < |s.waiters| && s.waiters[w].phase != Chosen
    requires Unanswered(Step(s, Respond(key)), w)
    ensures Unanswered(s, w) && (Tabled(Step(s, Respond(key)), w) <==> Tabled(s, w))
  {
    DeliverReaches(s.hub, key, s.waiters[w].channel);
  }

  /** One step back from an unanswered forwarder: it was unanswered before, and its
      sender is in the table if it was there before and nobody disturbed it. */
  lemma TabledStep(s: Sys, e: Event, w: nat)
    requires Good(s) && Possible(s, e) && w < |s.waiters| && s.waiters[w].phase != Chosen && Unanswered(Step(s, e), w)
    ensures Unanswered(s, w) && (Tabled(Step(s, e), w) <==> Tabled(s, w) && !Disturbs(s, e, w))
  {
    match e
    case Respond(key) => RespondTabledStep(s, key, w);
    case _ =>
  }

  lemma InsertedWaits(states: seq<Sys>, events: seq<Event>, i: nat, w: nat)
    requires IsRun(states, events) && i < |events| && events[i] == Insert(w)
    ensures Tabled(states[i + 1], w)
  {
    assert states[i + 1] == Step(states[i], events[i]);
  }

  lemma RunTabledStep(states: seq<Sys>, events: seq<Event>, i: nat, j: nat, w: nat)
    requires IsRun(states, events) && i < j < |events| && events[i] == Insert(w) && Unanswered(states[j + 1], w)
    ensures Unanswered(states[j], w)
    ensures Tabled(states[j + 1], w) <==> Tabled(states[j], w) && !Disturbs(states[j], events[j], w)
  {
    RunsAreGood(states, events, j);
    InsertedStays(states, events, i, j, w);
    assert states[j + 1] == Step(states[j], events[j]);
    TabledStep(states[j], events[j], w);
  }

  lemma {:induction false} StayedUnanswered(states: seq<Sys>, events: seq<Event>, i: nat, k: nat, j: nat, w: nat)
    requires IsRun(states, events) && i < k <= j < |states| && events[i] == Insert(w) && Unanswered(states[j], w)
    ensures Unanswered(states[k], w)
    decreases j - k
  {
    if k < j {
      StayedUnanswered(states, events, i, k + 1, j, w);
      RunTabledStep(states, events, i, k, w);
    }
  }

  lemma TabledIff(states: seq<Sys>, events: seq<Event>, i: nat, j: nat, w: nat)
    requires IsRun(states, events) && i < j < |states| && events[i] == Insert(w) && Unanswered(states[j], w)
    ensures Tabled(states[j], w) <==> forall k :: i < k < j ==> !Disturbs(states[k], events[k], w)
  {
    var held := (k: nat) => k < |states| && Tabled(states[k], w);
    var cut := (k: nat) => k < |events| && k < |states| && Disturbs(states[k], events[k], w);
    InsertedWaits(states, events, i, w);
    forall k | i < k < j ensures held(k + 1) <==> held(k) && !cut(k) {
      StayedUnanswered(states, events, i, k + 1, j, w);
      RunTabledStep(states, events, i, k, w);
    }
    HeldIff(held, cut, i, j);
    assert forall k :: i < k < j ==> cut(k) == Disturbs(states[k], events[k], w);
  }

  /** A Response for a waiting, unanswered forwarder reaches it, and nobody else,
      exactly when no other forwarder with its session and packet id was inserted
      or cleaned up since it was; otherwise it never sees that Response. In every
      run, packet ids reused or not. */
  lemma ResponseReachesIff(states: seq<Sys>, events: seq<Event>, i: nat, j: nat, w: nat)
    requires IsRun(states, events) && i < j < |events| && events[i] == Insert(w)
    requires events[j].Respond? && Expects(states[j], w, events[j].key)
    ensures var s, s' := states[j], states[j + 1];
      && |s'.hub.channels| == |s.hub.channels|
      && if forall k :: i < k < j ==> !Disturbs(states[k], events[k], w)
         then s'.hub.channels == Filled(s, w, |s.hub.log|)
         else s'.hub.channels[s.waiters[w].channel].inbox.None?
  {
    RunsAreGood(states, events, j);
    TabledIff(states, events, i, j, w);
    assert states[j + 1] == Step(states[j], events[j]);
    DeliverReaches(states[j].hub, events[j].key, states[j].waiters[w].channel);
  }

  // ----- Runs with at most 2^32 forwards a session -----

  /** Packet ids count the session's forwards, from 1, modulo 2^32. */
  ghost predicate Counted(s: Sys) {
    && (forall sid :: sid in s.sessions ==> s.sessions[sid].next == s.sessions[sid].total % 0x1_0000_0000)
    && (forall w :: 0 <= w < |s.waiters| ==>
          && s.waiters[w].key.sid in s.sessions
          && 1 <= s.waiters[w].ordinal <= s.sessions[s.waiters[w].key.sid].total
          && s.waiters[w].key.pid == s.waiters[w].ordinal % 0x1_0000_0000)
    && (forall v, w :: 0 <= v < w < |s.waiters| && s.waiters[v].key.sid == s.waiters[w].key.sid ==>
          s.waiters[v].ordinal < s.waiters[w].ordinal)
  }

  lemma NextCounts(total: nat)
    ensures WrappingNext(total % 0x1_0000_0000) == (total + 1) % 0x1_0000_0000
  {
  }

  lemma StepKeepsCounted(s: Sys, e: Event)
    requires Counted(s) && Possible(s, e) && Keyed(s.hub)
    ensures Counted(Step(s, e))
  {
    match e
    case Connect(_) =>
    case Forward(_) => ForwardKeepsCounted(s, e);
    case _ =>
      StepKeepsWaiterIds(s, e);
      SameIdsCounted(s, Step(s, e));
  }

  lemma StepKeepsWaiterIds(s: Sys, e: Event)
    requires Possible(s, e) && Keyed(s.hub) && !e.Connect? && !e.Forward?
    ensures var t := Step(s, e);
      && t.sessions == s.sessions && |t.waiters| == |s.waiters|
      && forall w :: 0 <= w < |s.waiters| ==> t.waiters[w].key == s.waiters[w].key && t.waiters[w].ordinal == s.waiters[w].ordinal
  {
  }

  lemma ForwardKeepsCounted(s: Sys, e: Event)
    requires Counted(s) && Possible(s, e) && Keyed(s.hub) && e.Forward?
    ensures Counted(Step(s, e))
  {
    NextCounts(s.sessions[e.sid].total);
  }

  lemma SameIdsCounted(s: Sys, s': Sys)
    requires Counted(s) && s'.sessions == s.sessions && |s'.waiters| == |s.waiters|
    requires forall w :: 0 <= w < |s.waiters| ==> s'.waiters[w].key == s.waiters[w].key && s'.waiters[w].ordinal == s.waiters[w].ordinal
    ensures Counted(s')
  {
  }

  lemma {:induction false} RunsAreCounted(states: seq<Sys>, events: seq<Event>, i: nat)
    requires IsRun(states, events) && i < |states|
    ensures Counted(states[i])
  {
    if i > 0 {
      RunsAreCounted(states, events, i - 1);
      assert states[i] == Step(states[i - 1], events[i - 1]);
      StepKeepsCounted(states[i - 1], events[i - 1]);
    }
  }

  /** Two forwards of a session share a packet id exactly when a multiple of 2^32
      forwards lies between them. */
  lemma PacketIdsCollideIff(s: Sys, v: nat, w: nat)
    requires Counted(s) && v <= w < |s.waiters| && s.waiters[v].key.sid == s.waiters[w].key.sid
    ensures s.waiters[v].key == s.waiters[w].key <==> (s.waiters[w].ordinal - s.waiters[v].ordinal) % 0x1_0000_0000 == 0
  {
  }

  /** Up to 2^32 forwards in each session no packet id is reused. */
  lemma FewForwardsAreCareful(states: seq<Sys>, events: seq<Event>)
    requires IsRun(states, events)
    requires forall i, sid :: 0 <= i < |states| && sid in states[i].sessions ==> states[i].sessions[sid].total <= 0x1_0000_0000
    ensures IsCarefulRun(states, events)
  {
    forall i | 0 <= i < |events|
      ensures NoReuse(states[i], events[i])
    {
      var s, e := states[i], events[i];
      RunsAreCounted(states, events, i);
      if e.Insert? {
        forall v | 0 <= v < |s.waiters| && Outstanding(s.waiters[v])
          ensures s.waiters[v].key != s.waiters[e.w].key
        {
          var sid := s.waiters[e.w].key.sid;
          assert v != e.w;
          if s.waiters[v].key.sid == sid {
            assert s.sessions[sid].total <= 0x1_0000_0000;
            if v < e.w {
              PacketIdsCollideIff(s, v, e.w);
            } else {
              PacketIdsCollideIff(s, e.w, v);
            }
          }
        }
      }
    }
  }

  /** With a reused packet id the guarantee is lost: cleaning up after one
      forwarder removes the other's sender, and its Response is dropped. */
  lemma ReuseLosesTheAnswer(s: Sys, v: nat, w: nat)
    requires Good(s) && v != w && Possible(s, Clean(v)) && In(s, w, Waiting) && s.waiters[v].key == s.waiters[w].key
    requires s.waiters[v].key.sid in s.sessions
    ensures Good(Step(s, Clean(v)))
    ensures var s1 := Step(s, Clean(v));
      Possible(s1, Respond(s.waiters[w].key)) && Step(s1, Respond(s.waiters[w].key)).hub.channels == s1.hub.channels
  {
    StepKeepsSound(s, Clean(v));
    StepKeepsPlaced(s, Clean(v));
  }

  /** One more step at the end of a run. */
  lemma Extend(states: seq<Sys>, events: seq<Event>, e: Event) returns (states': seq<Sys>, events': seq<Event>)
    requires IsRun(states, events) && Possible(states[|events|], e)
    ensures Keyed(states[|events|].hub) && IsRun(states', events')
    ensures |events'| == |events| + 1 && events'[..|events|] == events && events'[|events|] == e
    ensures states'[..|states|] == states && states'[|events'|] == Step(states[|events|], e)
  {
    RunsAreGood(states, events, |events|);
    states', events' := states + [Step(states[|events|], e)], events + [e];
    forall i | 0 <= i < |events'|
      ensures Possible(states'[i], events'[i]) && Keyed(states'[i].hub) && states'[i + 1] == Step(states'[i], events'[i])
    {
      if i < |events| {
        assert states'[i] == states[i] && states'[i + 1] == states[i + 1] && events'[i] == events[i];
      }
    }
  }

  /** n forwarders choose their packet ids and do nothing more. */
  lemma {:induction false} ForwardMany(states: seq<Sys>, events: seq<Event>, sid: u32, n: nat) returns (states': seq<Sys>, events': seq<Event>)
    requires IsRun(states, events) && sid in states[|events|].sessions
    ensures IsRun(states', events')
    ensures var s, t := states[|events|], states'[|events'|];
      && t.hub == s.hub && sid in t.sessions && t.sessions[sid].total == s.sessions[sid].total + n
      && |t.waiters| == |s.waiters| + n && t.waiters[..|s.waiters|] == s.waiters
      && (n > 0 ==> t.waiters[|t.waiters| - 1] == Waiter(Key(sid, t.sessions[sid].next), t.sessions[sid].total, 0, Chosen))
    decreases n
  {
    if n == 0 {
      states', events' := states, events;
      assert states[|events|].waiters[..|states[|events|].waiters|] == states[|events|].waiters;
    } else {
      var states1, events1 := ForwardMany(states, events, sid, n - 1);
      states', events' := Extend(states1, events1, Forward(sid));
    }
  }

  /** Forwarder 0 waits, and 2^32 more have chosen ids after it; the last of them
      has its id. */
  lemma ReusedId(sid: u32) returns (states: seq<Sys>, events: seq<Event>, w: nat)
    ensures IsRun(states, events) && 0 < w && sid in states[|events|].sessions
    ensures states[|events|].sessions[sid].total == 0x1_0000_0001
    ensures var s := states[|events|];
      && In(s, 0, Waiting) && In(s, w, Chosen) && s.waiters[w].key == s.waiters[0].key && s.waiters[0].key.sid == sid
      && s.waiters[0].channel == 0 && |s.hub.channels| == 1 && s.hub.channels[0].inbox.None?
  {
    states, events := [Start], [];
    states, events := Extend(states, events, Connect(sid));
    states, events := Extend(states, events, Forward(sid));
    states, events := Extend(states, events, Insert(0));
    states, events := Extend(states, events, Written(0, true));
    ghost var s := states[|events|];
    assert |s.waiters| == 1 && s.waiters[0].ordinal == 1 && s.sessions[sid].total == 1;
    states, events := ForwardMany(states, events, sid, 0x1_0000_0000);
    w := 0x1_0000_0000;
    ghost var t := states[|events|];
    assert t.waiters[0] == t.waiters[..1][0] == s.waiters[0];
    RunsAreCounted(states, events, |events|);
    PacketIdsCollideIff(t, 0, w);
  }

  /** A run in which a waiting forwarder loses its Response that way, with one
      forward more than FewForwardsAreCareful allows. */
  lemma SomeRunLosesAnAnswer(sid: u32) returns (states: seq<Sys>, events: seq<Event>, w: nat)
    ensures IsRun(states, events) && |events| > 0 && w < |states[|events|].waiters|
    ensures sid in states[|events|].sessions && states[|events|].sessions[sid].total == 0x1_0000_0001
    ensures states[|events|].waiters[w].key.sid == sid
    ensures var n, key := |events| - 1, states[|events|].waiters[w].key;
      && events[n] == Respond(key) && In(states[n], w, Waiting) && OnChannel(states[n], w)
      && states[n].hub.channels[states[n].waiters[w].channel].inbox.None?
      && states[n + 1].hub.channels == states[n].hub.channels
  {
    states, events, w := ReusedId(sid);
    states, events := Extend(states, events, Insert(w));
    states, events := Extend(states, events, Written(w, true));
    states, events := Extend(states, events, Expire(0));
    ghost var s := states[|events|];
    RunsAreGood(states, events, |events|);
    ReuseLosesTheAnswer(s, 0, w);
    states, events := Extend(states, events, Clean(0));
    states, events := Extend(states, events, Respond(s.waiters[w].key));
  }
}
