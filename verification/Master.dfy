/** The AgentX master's session table and registrations
    (crates/netsnmp-agent/src/agentx/master.rs), over every run. */
module Master {
  import opened Oids
  import opened Values
  import opened StableSort
  import AgentxPdus

  datatype Registration = Registration(subtree: Oid, rangeEnd: Oid, sessionId: u32, priority: byte)

  /** The derived sort order: subtree, then priority. */
  predicate RegAtMost(a: Registration, b: Registration) {
    Less(a.subtree, b.subtree) || (a.subtree == b.subtree && a.priority <= b.priority)
  }

  function RegOrder(): (Registration, Registration) -> bool {
    (a: Registration, b: Registration) => RegAtMost(a, b)
  }

  lemma RegOrderIsPreorder()
    ensures Preorder(RegOrder())
  {
    forall x: Registration, y: Registration
      ensures RegAtMost(x, y) || RegAtMost(y, x)
    {
      LessTotal(x.subtree, y.subtree);
    }
    forall x: Registration, y: Registration, z: Registration | RegAtMost(x, y) && RegAtMost(y, z)
      ensures RegAtMost(x, z)
    {
      if Less(x.subtree, y.subtree) && Less(y.subtree, z.subtree) {
        LessTransitive(x.subtree, y.subtree, z.subtree);
      }
    }
  }

  // ----- Ranges -----

  /** The first arc of the range bound replaces one arc of the subtree; an empty
      result means no bound. */
  function RangeEnd(r: AgentxPdus.Reg): Oid {
    if r.rangeSubid == 0 then []
    else
      var idx := r.rangeSubid - 1;
      var bound := if r.rangeBound == [] then 0 else r.rangeBound[0];
      if idx < |r.subtree| then r.subtree[idx := bound] else r.subtree
  }

  function RegistrationOf(sessionId: u32, r: AgentxPdus.Reg): Registration {
    Registration(r.subtree, RangeEnd(r), sessionId, r.priority)
  }

  predicate Covers(r: Registration, oid: Oid) {
    IsPrefix(r.subtree, oid) && (r.rangeEnd == [] || AtMost(oid, r.rangeEnd))
  }

  /** What a registration covers. Without a range: its subtree. With one:
      everything when its subtree is empty; else the first subtree alone when the
      bound is above the replaced arc, that one OID when it is equal or there is
      no such arc, and nothing when it is below. It never reaches the other
      subtrees of its range. */
  lemma RangeCovers(sessionId: u32, r: AgentxPdus.Reg, oid: Oid)
    ensures var idx, n := r.rangeSubid - 1, |r.subtree|;
      var bound := if r.rangeBound == [] then 0 else r.rangeBound[0];
      Covers(RegistrationOf(sessionId, r), oid) <==>
        if r.subtree == [] then true
        else if r.rangeSubid == 0 || (idx < n && bound > r.subtree[idx]) then n <= |oid| && oid[..n] == r.subtree
        else oid == r.subtree && (idx < n ==> bound == r.subtree[idx])
  {
    if r.rangeSubid > 0 {
      RangeCoversSome(r, oid);
    }
  }

  lemma RangeCoversSome(r: AgentxPdus.Reg, oid: Oid)
    requires r.rangeSubid > 0
    ensures var idx := r.rangeSubid - 1;
      var bound := if r.rangeBound == [] then 0 else r.rangeBound[0];
      IsPrefix(r.subtree, oid) && (RangeEnd(r) == [] || AtMost(oid, RangeEnd(r))) <==>
        if r.subtree == [] then true
        else if idx < |r.subtree| && bound > r.subtree[idx] then IsPrefix(r.subtree, oid)
        else oid == r.subtree && (idx < |r.subtree| ==> bound == r.subtree[idx])
  {
    var idx := r.rangeSubid - 1;
    var bound := if r.rangeBound == [] then 0 else r.rangeBound[0];
    var s, end := r.subtree, RangeEnd(r);
    if s != [] && IsPrefix(s, oid) {
      PrefixAtMost(s, oid);
      if idx < |s| && bound != s[idx] {
        assert oid[..idx] == oid[..|s|][..idx] == s[..idx] == end[..idx];
        assert oid[idx] == oid[..|s|][idx] == s[idx];
        if bound > s[idx] {
          assert DiffersAt(oid, end, idx);
          DifferenceIsLess(oid, end, idx);
        } else {
          assert DiffersAt(end, oid, idx);
          DifferenceIsLess(end, oid, idx);
          if AtMost(oid, end) {
            AtMostIsNotLess(oid, end);
          }
        }
      } else {
        assert end == s;
        if AtMost(oid, s) {
          AtMostIsNotLess(oid, s);
        }
      }
    }
  }

  lemma AtMostIsNotLess(a: Oid, b: Oid)
    requires AtMost(a, b)
    ensures !Less(b, a)
  {
    if Less(a, b) && Less(b, a) {
      LessTransitive(a, b, a);
    }
    LessIrreflexive(a);
  }

  // ----- The owner of an OID -----

  predicate KeyBelow(a: Registration, b: Registration) {
    |a.subtree| < |b.subtree| || (|a.subtree| == |b.subtree| && a.priority < b.priority)
  }

  /** The first registration with the least subtree length and priority among
      those that cover the OID. */
  function FirstLeast(rs: seq<Registration>, oid: Oid): Option<Registration> {
    if rs == [] then None
    else
      var n := |rs| - 1;
      var best := FirstLeast(rs[..n], oid);
      if Covers(rs[n], oid) && (best.None? || KeyBelow(rs[n], best.value)) then Some(rs[n]) else best
  }

  predicate IsFirstLeast(rs: seq<Registration>, oid: Oid, i: nat) {
    && i < |rs| && Covers(rs[i], oid)
    && (forall j :: 0 <= j < |rs| && Covers(rs[j], oid) ==> !KeyBelow(rs[j], rs[i]))
    && (forall j :: 0 <= j < i && Covers(rs[j], oid) ==> KeyBelow(rs[i], rs[j]))
  }

  /** No owner exactly when nothing covers the OID; else the first of the least. */
  lemma {:induction false} FirstLeastSpec(rs: seq<Registration>, oid: Oid) returns (i: nat)
    ensures FirstLeast(rs, oid).None? <==> forall r :: r in rs ==> !Covers(r, oid)
    ensures FirstLeast(rs, oid).Some? ==> IsFirstLeast(rs, oid, i) && FirstLeast(rs, oid) == Some(rs[i])
  {
    i := 0;
    if rs != [] {
      var n := |rs| - 1;
      i := FirstLeastSpec(rs[..n], oid);
      assert rs == rs[..n] + [rs[n]];
      if FirstLeast(rs, oid) != FirstLeast(rs[..n], oid) {
        i := n;
      }
    }
  }

  /** Registration i owns the OID: it covers it, and every other one that does has
      a longer subtree, or one of equal length and a greater priority number, or
      stands behind it with both equal. */
  ghost predicate OwnsAt(rs: seq<Registration>, oid: Oid, i: nat) {
    && i < |rs| && Covers(rs[i], oid)
    && forall j :: 0 <= j < |rs| && Covers(rs[j], oid) ==>
         || |rs[i].subtree| < |rs[j].subtree|
         || (|rs[i].subtree| == |rs[j].subtree| && rs[i].priority < rs[j].priority)
         || (|rs[i].subtree| == |rs[j].subtree| && rs[i].priority == rs[j].priority && i <= j)
  }

  /** The registration found is the one that owns the OID; there is none exactly
      when nothing covers it. */
  lemma OwnerIsLeast(rs: seq<Registration>, oid: Oid) returns (i: nat)
    ensures FirstLeast(rs, oid).None? <==> forall j :: 0 <= j < |rs| ==> !Covers(rs[j], oid)
    ensures FirstLeast(rs, oid).Some? ==> OwnsAt(rs, oid, i) && FirstLeast(rs, oid) == Some(rs[i])
  {
    i := FirstLeastSpec(rs, oid);
    if FirstLeast(rs, oid).Some? {
      forall j | 0 <= j < |rs| && Covers(rs[j], oid)
        ensures !KeyBelow(rs[j], rs[i]) && (j < i ==> KeyBelow(rs[i], rs[j]))
      {
      }
    } else {
      assert forall j :: 0 <= j < |rs| ==> rs[j] in rs;
    }
  }

  lemma {:induction false} FirstOfFilter<T(!new)>(s: seq<T>, keep: T -> bool, i: nat)
    requires i < |s| && keep(s[i]) && forall j :: 0 <= j < i ==> !keep(s[j])
    ensures Filter(s, keep) != [] && Filter(s, keep)[0] == s[i]
  {
    if i > 0 {
      FirstOfFilter(s[1..], keep, i - 1);
    }
  }

  function Rivals(oid: Oid, r: Registration): Registration -> bool {
    (x: Registration) => Covers(x, oid) && x.subtree == r.subtree && x.priority == r.priority
  }

  /** Covering registrations with equally long subtrees have the same one. */
  lemma SameKeySameSubtree(a: Registration, b: Registration, oid: Oid)
    requires Covers(a, oid) && Covers(b, oid) && !KeyBelow(a, b) && !KeyBelow(b, a)
    ensures a.subtree == b.subtree && a.priority == b.priority
  {
  }

  /** Sorting the table never changes who owns an OID: among registrations of one
      subtree and priority the earliest arrival wins. */
  lemma OwnerIgnoresSorting(arrivals: seq<Registration>, oid: Oid)
    ensures FirstLeast(Sort(arrivals, RegOrder()), oid) == FirstLeast(arrivals, oid)
  {
    var s := Sort(arrivals, RegOrder());
    SortPermutes(arrivals, RegOrder());
    RegOrderIsPreorder();
    var i := FirstLeastSpec(arrivals, oid);
    var j := FirstLeastSpec(s, oid);
    if FirstLeast(arrivals, oid).Some? {
      var a, b := arrivals[i], s[j];
      assert a in s && b in arrivals;
      SameKeySameSubtree(a, b, oid);
      var rival := Rivals(oid, a);
      SortIsStable(arrivals, rival, RegOrder());
      FirstOfFilter(arrivals, rival, i);
      FirstOfFilter(s, rival, j);
    }
  }

  /** The owner's subtree is a shortest one. It is also a longest one, as the
      lookup is described, exactly when all registrations that cover the OID have
      one subtree. */
  lemma LongestMatchIff(rs: seq<Registration>, oid: Oid)
    requires FirstLeast(rs, oid).Some?
    ensures var r := FirstLeast(rs, oid).value;
      && (forall q :: q in rs && Covers(q, oid) ==> |r.subtree| <= |q.subtree|)
      && ((forall q :: q in rs && Covers(q, oid) ==> |q.subtree| <= |r.subtree|)
          <==> (forall p, q :: p in rs && q in rs && Covers(p, oid) && Covers(q, oid) ==> p.subtree == q.subtree))
  {
    var i := FirstLeastSpec(rs, oid);
    var r := rs[i];
    forall q | q in rs && Covers(q, oid)
      ensures |r.subtree| <= |q.subtree| && (|q.subtree| <= |r.subtree| ==> q.subtree == r.subtree)
    {
      var j :| 0 <= j < |rs| && rs[j] == q;
      assert !KeyBelow(rs[j], rs[i]);
    }
  }

  /** A more specific registration never owns an OID that a broader one covers,
      whatever else is registered. */
  lemma BroaderSubtreeWins(rs: seq<Registration>, broad: Registration, narrow: Registration, oid: Oid)
    requires broad in rs && narrow in rs && Covers(broad, oid) && Covers(narrow, oid) && |broad.subtree| < |narrow.subtree|
    ensures FirstLeast(rs, oid).Some? && FirstLeast(rs, oid) != Some(narrow)
    ensures |FirstLeast(rs, oid).value.subtree| <= |broad.subtree|
  {
    var i := FirstLeastSpec(rs, oid);
    LongestMatchIff(rs, oid);
  }

  // ----- The master -----

  datatype State = State(sessions: map<u32, Oid>, subtrees: seq<Registration>, next: u32)

  function NotOf(sessionId: u32): Registration -> bool {
    (r: Registration) => r.sessionId != sessionId
  }

  function NotAt(sessionId: u32, subtree: Oid): Registration -> bool {
    (r: Registration) => !(r.sessionId == sessionId && r.subtree == subtree)
  }

  function Assigned(m: State, id: Oid): State {
    State(m.sessions[m.next := id], m.subtrees, WrappingNext(m.next))
  }

  function Added(m: State, r: Registration): State {
    m.(subtrees := Sort(m.subtrees + [r], RegOrder()))
  }

  function Removed(m: State, sessionId: u32, subtree: Oid): State {
    m.(subtrees := Filter(m.subtrees, NotAt(sessionId, subtree)))
  }

  function Reclaimed(m: State, sessionId: u32): State {
    m.(subtrees := Filter(m.subtrees, NotOf(sessionId)), sessions := m.sessions - {sessionId})
  }

  class AgentxMaster {
    var sessions: map<u32, Oid>
    var subtrees: seq<Registration>
    var nextSessionId: u32

    function View(): State
      reads this
    {
      State(sessions, subtrees, nextSessionId)
    }

    constructor ()
      ensures View() == State(map[], [], 1)
    {
      sessions, subtrees, nextSessionId := map[], [], 1;
    }

    /** A session for a new connection. */
    method AssignSession(id: Oid) returns (sessionId: u32)
      modifies this
      ensures sessionId == old(nextSessionId) && View() == Assigned(old(View()), id)
    {
      sessionId := nextSessionId;
      nextSessionId := WrappingNext(nextSessionId);
      sessions := sessions[sessionId := id];
    }

    /** Push, then sort the whole table. */
    method AddRegistration(sessionId: u32, r: AgentxPdus.Reg)
      modifies this
      ensures View() == Added(old(View()), RegistrationOf(sessionId, r))
    {
      subtrees := subtrees + [RegistrationOf(sessionId, r)];
      subtrees := Sort(subtrees, RegOrder());
    }

    method RemoveRegistration(sessionId: u32, subtree: Oid)
      modifies this
      ensures View() == Removed(old(View()), sessionId, subtree)
    {
      subtrees := Filter(subtrees, NotAt(sessionId, subtree));
    }

    method ReclaimSession(sessionId: u32)
      modifies this
      ensures View() == Reclaimed(old(View()), sessionId)
    {
      subtrees := Filter(subtrees, NotOf(sessionId));
      sessions := sessions - {sessionId};
    }

    /** `owner_for`: the first least of the covering registrations. */
    method OwnerFor(oid: Oid) returns (owner: Option<u32>)
      ensures owner == match FirstLeast(subtrees, oid) case None => None case Some(r) => Some(r.sessionId)
      ensures owner.None? <==> forall j :: 0 <= j < |subtrees| ==> !Covers(subtrees[j], oid)
      ensures owner.Some? ==> exists i: nat :: OwnsAt(subtrees, oid, i) && owner.value == subtrees[i].sessionId
    {
      var best: Option<Registration> := None;
      for i := 0 to |subtrees|
        invariant best == FirstLeast(subtrees[..i], oid)
      {
        assert subtrees[..i + 1][..i] == subtrees[..i];
        if Covers(subtrees[i], oid) && (best.None? || KeyBelow(subtrees[i], best.value)) {
          best := Some(subtrees[i]);
        }
      }
      assert subtrees[..|subtrees|] == subtrees;
      ghost var least := OwnerIsLeast(subtrees, oid);
      owner := if best.None? then None else Some(best.value.sessionId);
    }
  }

  // ----- Runs -----

  /** The master, its connections, and the registrations in force in the order
      they arrived. `live` are the sessions whose connection loop still runs,
      `gone` those it ended by reclaiming, `failed` those it left through a write
      error. */
  datatype Net = Net(master: State, arrivals: seq<Registration>, live: set<u32>, failed: set<u32>, gone: set<u32>, opens: nat)

  /** What the connection loops do. `sent` tells whether the response could be
      written. `Acknowledged` stands for Ping, Notify, capability and index PDUs,
      `Ignored` for Cleanup, Response and unexpected PDUs, `Ended` for Close and
      a read error. */
  datatype Event =
    | Opened(id: Oid, sent: bool)
    | Registered(sid: u32, reg: AgentxPdus.Reg, sent: bool)
    | Unregistered(sid: u32, subtree: Oid, sent: bool)
    | Acknowledged(sid: u32, sent: bool)
    | Ignored(sid: u32)
    | Ended(sid: u32)

  predicate WriteFails(e: Event) {
    (e.Opened? || e.Registered? || e.Unregistered? || e.Acknowledged?) && !e.sent
  }

  /** A connection that has been opened acts under its own session id. */
  predicate Possible(n: Net, e: Event) {
    !e.Opened? ==> e.sid in n.live
  }

  /** Leaving by the write error. */
  function Settle(n: Net, sid: u32, sent: bool): Net {
    if sent then n else n.(live := n.live - {sid}, failed := n.failed + {sid})
  }

  function Step(n: Net, e: Event): Net {
    match e
    case Opened(id, sent) =>
      Settle(n.(master := Assigned(n.master, id), live := n.live + {n.master.next}, opens := n.opens + 1), n.master.next, sent)
    case Registered(sid, reg, sent) =>
      var r := RegistrationOf(sid, reg);
      Settle(n.(master := Added(n.master, r), arrivals := n.arrivals + [r]), sid, sent)
    case Unregistered(sid, subtree, sent) =>
      Settle(n.(master := Removed(n.master, sid, subtree), arrivals := Filter(n.arrivals, NotAt(sid, subtree))), sid, sent)
    case Acknowledged(sid, sent) => Settle(n, sid, sent)
    case Ignored(_) => n
    case Ended(sid) =>
      n.(master := Reclaimed(n.master, sid), arrivals := Filter(n.arrivals, NotOf(sid)),
         live := n.live - {sid}, gone := n.gone + {sid})
  }

  const Start: Net := Net(State(map[], [], 1), [], {}, {}, {}, 0)

  ghost predicate IsRun(states: seq<Net>, events: seq<Event>) {
    && |states| == |events| + 1
    && states[0] == Start
    && forall i :: 0 <= i < |events| ==> Possible(states[i], events[i]) && states[i + 1] == Step(states[i], events[i])
  }

  /** The id of the k-th session. */
  function IdOf(k: nat): u32 {
    (k + 1) % 0x1_0000_0000
  }

  /** Two sessions get one id exactly when a multiple of 2^32 opens lies between
      them. */
  lemma IdsCollideIff(j: nat, k: nat)
    requires j <= k
    ensures IdOf(j) == IdOf(k) <==> (k - j) % 0x1_0000_0000 == 0
  {
  }

  lemma NextIdOf(k: nat)
    ensures WrappingNext(IdOf(k)) == IdOf(k + 1)
  {
  }

  predicate Used(n: Net, sid: u32) {
    sid in n.live || sid in n.failed || sid in n.gone
  }

  ghost predicate IdsFresh(n: Net) {
    && n.master.next == IdOf(n.opens)
    && forall sid :: Used(n, sid) ==> exists k: nat :: k < n.opens && IdOf(k) == sid
  }

  ghost predicate Tabled(n: Net) {
    && n.master.sessions.Keys == n.live + n.failed
    && n.live !! n.failed && n.live !! n.gone && n.failed !! n.gone
    && (forall r :: r in n.arrivals ==> r.sessionId in n.live || r.sessionId in n.failed)
  }

  /** Sorted, complete and owned: the invariant of every run. */
  ghost predicate Invariant(n: Net) {
    && n.master.subtrees == Sort(n.arrivals, RegOrder())
    && IdsFresh(n)
    && Tabled(n)
  }

  lemma FreshId(n: Net)
    requires IdsFresh(n) && n.opens < 0x1_0000_0000
    ensures !Used(n, n.master.next)
  {
    if Used(n, n.master.next) {
      var k: nat :| k < n.opens && IdOf(k) == n.master.next;
      IdsCollideIff(k, n.opens);
    }
  }

  lemma StepKeepsSorted(n: Net, e: Event)
    requires n.master.subtrees == Sort(n.arrivals, RegOrder())
    ensures Step(n, e).master.subtrees == Sort(Step(n, e).arrivals, RegOrder())
  {
    RegOrderIsPreorder();
    match e
    case Registered(sid, reg, _) => SortIncremental(n.arrivals, RegistrationOf(sid, reg), RegOrder());
    case Unregistered(sid, subtree, _) => SortFilter(n.arrivals, NotAt(sid, subtree), RegOrder());
    case Ended(sid) => SortFilter(n.arrivals, NotOf(sid), RegOrder());
    case _ =>
  }

  lemma StepKeepsIds(n: Net, e: Event)
    requires IdsFresh(n) && Possible(n, e)
    ensures IdsFresh(Step(n, e))
  {
    var n' := Step(n, e);
    NextIdOf(n.opens);
    forall sid | Used(n', sid)
      ensures exists k: nat :: k < n'.opens && IdOf(k) == sid
    {
      if e.Opened? && sid == n.master.next {
        assert IdOf(n.opens) == sid;
      } else {
        assert Used(n, sid);
      }
    }
  }

  lemma StepKeepsTabled(n: Net, e: Event)
    requires Tabled(n) && Possible(n, e) && (e.Opened? ==> !Used(n, n.master.next))
    ensures Tabled(Step(n, e))
  {
    match e
    case Unregistered(sid, subtree, _) => FilterMembers(n.arrivals, NotAt(sid, subtree));
    case Ended(sid) => FilterMembers(n.arrivals, NotOf(sid));
    case _ =>
  }

  /** Opens only add up. */
  lemma {:induction false} OpenedGrows(states: seq<Net>, events: seq<Event>, i: nat, j: nat)
    requires IsRun(states, events) && i <= j < |states|
    ensures states[i].opens <= states[j].opens
    ensures states[i].gone <= states[j].gone
    decreases j
  {
    if i < j {
      OpenedGrows(states, events, i, j - 1);
      assert states[j] == Step(states[j - 1], events[j - 1]);
    }
  }

  /** The invariant in every state of every run of at most 2^32 opens. */
  lemma {:induction false} RunsKeepInvariant(states: seq<Net>, events: seq<Event>, i: nat)
    requires IsRun(states, events) && i < |states| && states[i].opens <= 0x1_0000_0000
    ensures Invariant(states[i])
  {
    if i > 0 {
      var n, e := states[i - 1], events[i - 1];
      OpenedGrows(states, events, i - 1, i);
      RunsKeepInvariant(states, events, i - 1);
      assert states[i] == Step(n, e);
      if e.Opened? {
        FreshId(n);
      }
      StepKeepsSorted(n, e);
      StepKeepsIds(n, e);
      StepKeepsTabled(n, e);
    }
  }

  /** The opens among the events. */
  function Opens(events: seq<Event>): nat {
    if events == [] then 0 else Opens(events[..|events| - 1]) + if events[|events| - 1].Opened? then 1 else 0
  }

  /** Sessions are numbered from 1, modulo 2^32. */
  lemma {:induction false} SessionIdsCount(states: seq<Net>, events: seq<Event>, i: nat)
    requires IsRun(states, events) && i < |states|
    ensures states[i].opens == Opens(events[..i]) && states[i].master.next == (Opens(events[..i]) + 1) % 0x1_0000_0000
  {
    if i > 0 {
      SessionIdsCount(states, events, i - 1);
      assert events[..i][..i - 1] == events[..i - 1];
      assert states[i] == Step(states[i - 1], events[i - 1]);
      NextIdOf(states[i - 1].opens);
    }
  }

  /** A session opened at step i gets an id no session had before. */
  lemma SessionIdsAreDistinct(states: seq<Net>, events: seq<Event>, i: nat)
    requires IsRun(states, events) && i < |events| && events[i].Opened? && states[i + 1].opens <= 0x1_0000_0000
    ensures !Used(states[i], states[i].master.next) && Used(states[i + 1], states[i].master.next)
  {
    assert states[i + 1] == Step(states[i], events[i]);
    RunsKeepInvariant(states, events, i);
    FreshId(states[i]);
  }

  /** Nothing of a session survives its Close or read error: neither then nor at
      any later time does it have a registration or a place in the table. */
  lemma NothingSurvivesTheEnd(states: seq<Net>, events: seq<Event>, i: nat, j: nat)
    requires IsRun(states, events) && i < j < |states| && events[i].Ended? && states[j].opens <= 0x1_0000_0000
    ensures events[i].sid !in states[j].master.sessions
    ensures forall r :: r in states[j].master.subtrees ==> r.sessionId != events[i].sid
  {
    OpenedGrows(states, events, i + 1, j);
    assert states[i + 1] == Step(states[i], events[i]);
    RunsKeepInvariant(states, events, j);
    SortPermutes(states[j].arrivals, RegOrder());
  }

  /** The registration, by this event, of r. */
  predicate Registers(e: Event, r: Registration) {
    e.Registered? && RegistrationOf(e.sid, e.reg) == r
  }

  /** The unregister request or the end of the session that takes r out of
      force. */
  predicate Withdraws(e: Event, r: Registration) {
    (e.Unregistered? && e.sid == r.sessionId && e.subtree == r.subtree) || (e.Ended? && e.sid == r.sessionId)
  }

  /** In every run the registrations in the table are those that were requested
      and not withdrawn since. */
  lemma {:induction false} InForceIff(states: seq<Net>, events: seq<Event>, i: nat, r: Registration)
    requires IsRun(states, events) && i < |states|
    ensures r in states[i].arrivals <==> InForce(events, r, i)
  {
    if i > 0 {
      InForceIff(states, events, i - 1, r);
      ArrivalStep(states[i - 1], events[i - 1], r);
      assert states[i] == Step(states[i - 1], events[i - 1]);
      InForceStep(events, r, i - 1, i);
    }
  }

  /** Requested by event k and not withdrawn before event i. */
  ghost predicate InForceSince(events: seq<Event>, r: Registration, k: nat, i: nat)
    requires i <= |events|
  {
    k < i && Registers(events[k], r) && forall j :: k < j < i ==> !Withdraws(events[j], r)
  }

  ghost predicate InForce(events: seq<Event>, r: Registration, i: nat)
    requires i <= |events|
  {
    exists k: nat :: InForceSince(events, r, k, i)
  }

  lemma ArrivalStep(n: Net, e: Event, r: Registration)
    ensures r in Step(n, e).arrivals <==> Registers(e, r) || (r in n.arrivals && !Withdraws(e, r))
  {
    match e
    case Unregistered(sid, subtree, _) => FilterMembers(n.arrivals, NotAt(sid, subtree));
    case Ended(sid) => FilterMembers(n.arrivals, NotOf(sid));
    case _ =>
  }

  lemma InForceStep(events: seq<Event>, r: Registration, i: nat, next: nat)
    requires next == i + 1 <= |events|
    ensures InForce(events, r, next) <==> Registers(events[i], r) || (InForce(events, r, i) && !Withdraws(events[i], r))
  {
    if Registers(events[i], r) {
      assert InForceSince(events, r, i, next);
    }
    if InForce(events, r, i) && !Withdraws(events[i], r) {
      var k: nat :| InForceSince(events, r, k, i);
      assert InForceSince(events, r, k, next);
    }
    if InForce(events, r, next) && !Registers(events[i], r) {
      var k: nat :| InForceSince(events, r, k, next);
      assert k != i && InForceSince(events, r, k, i);
    }
  }

  /** By subtree, and by priority number where subtrees are equal. */
  predicate InOrder(a: Registration, b: Registration) {
    if a.subtree == b.subtree then a.priority <= b.priority else Less(a.subtree, b.subtree)
  }

  lemma SortedInOrder(rs: seq<Registration>)
    requires Sorted(rs, RegOrder())
    ensures forall j, k :: 0 <= j < k < |rs| ==> InOrder(rs[j], rs[k])
  {
    forall j, k | 0 <= j < k < |rs| ensures InOrder(rs[j], rs[k]) {
      assert RegOrder()(rs[j], rs[k]);
      LessIrreflexive(rs[j].subtree);
    }
  }

  /** In every run the table holds the registrations in force, in this order,
      every one's session is in the table of sessions, and the owner is the one that
      owns the OID among them in order of arrival. */
  lemma OwnersInEveryRun(states: seq<Net>, events: seq<Event>, i: nat, oid: Oid)
    requires IsRun(states, events) && i < |states| && states[i].opens <= 0x1_0000_0000
    ensures var m := states[i].master;
      && (forall r :: r in m.subtrees ==> r.sessionId in m.sessions)
      && (forall j, k :: 0 <= j < k < |m.subtrees| ==> InOrder(m.subtrees[j], m.subtrees[k]))
      && multiset(m.subtrees) == multiset(states[i].arrivals)
      && FirstLeast(m.subtrees, oid) == FirstLeast(states[i].arrivals, oid)
      && (FirstLeast(m.subtrees, oid).None? <==> forall r :: r in states[i].arrivals ==> !Covers(r, oid))
      && (FirstLeast(m.subtrees, oid).Some? ==>
            && FirstLeast(m.subtrees, oid).value.sessionId in m.sessions
            && exists k: nat :: OwnsAt(states[i].arrivals, oid, k) && FirstLeast(m.subtrees, oid).value == states[i].arrivals[k])
  {
    RunsKeepInvariant(states, events, i);
    RegOrderIsPreorder();
    SortPermutes(states[i].arrivals, RegOrder());
    SortSorts(states[i].arrivals, RegOrder());
    SortedInOrder(states[i].master.subtrees);
    OwnerIgnoresSorting(states[i].arrivals, oid);
    var k := OwnerIsLeast(states[i].arrivals, oid);
  }

  lemma {:induction false} FailedIff(states: seq<Net>, events: seq<Event>, i: nat)
    requires IsRun(states, events) && i < |states|
    ensures states[i].failed == {} <==> forall j :: 0 <= j < i ==> !WriteFails(events[j])
  {
    if i > 0 {
      FailedIff(states, events, i - 1);
      assert states[i] == Step(states[i - 1], events[i - 1]);
      assert states[i - 1].failed <= states[i].failed;
      if WriteFails(events[i - 1]) {
        var e := events[i - 1];
        assert (if e.Opened? then states[i - 1].master.next else e.sid) in states[i].failed;
      }
    }
  }

  /** The table holds exactly the sessions with a running connection if and only
      if no response failed to be written: a write error leaves the loop without
      reclaiming. */
  lemma TableIsExactIff(states: seq<Net>, events: seq<Event>, i: nat)
    requires IsRun(states, events) && i < |states| && states[i].opens <= 0x1_0000_0000
    ensures states[i].master.sessions.Keys == states[i].live <==> forall j :: 0 <= j < i ==> !WriteFails(events[j])
  {
    RunsKeepInvariant(states, events, i);
    FailedIff(states, events, i);
  }
}
