/** The client's walk loops: repeated GETNEXT, and repeated GETBULK as its fast
    form (crates/netsnmp-apps/src/client.rs). */
module Walks {
  import opened Oids
  import opened Values
  import opened StableSort
  import opened Cells
  import opened Handlers
  import opened Routing

  /** An agent seen by one walk: what it answers to the k-th request, which may
      depend on k in any way; None when the request fails (the `?` exits). */
  type Server = (nat, Oid) -> Option<seq<VarBind>>

  datatype Walked = Walked(bindings: seq<VarBind>, ok: bool)

  /** The walk takes this binding: not an exception, inside the subtree, and
      past the current position. */
  predicate Advances(root: Oid, current: Oid, vb: VarBind) {
    !IsException(vb.value) && IsPrefix(root, vb.oid) && !AtMost(vb.oid, current)
  }

  /** GETNEXT walk from `current`, for at most `left` more round trips, after
      which the connection is lost. */
  ghost function WalkFrom(server: Server, root: Oid, current: Oid, k: nat, left: nat): Walked
    decreases left
  {
    if left == 0 then Walked([], false)
    else
      match server(k, current)
      case None => Walked([], false)
      case Some(vars) =>
        if vars == [] || !Advances(root, current, vars[0]) then Walked([], true)
        else
          var rest := WalkFrom(server, root, vars[0].oid, k + 1, left - 1);
          Walked([vars[0]] + rest.bindings, rest.ok)
  }

  /** What one GETBULK reply contributes: the bindings taken, the position
      reached, and whether the walk ended inside the reply. */
  datatype Taken = Taken(bindings: seq<VarBind>, current: Oid, finished: bool)

  ghost function Take(root: Oid, current: Oid, vars: seq<VarBind>): Taken
    decreases |vars|
  {
    if vars == [] then Taken([], current, false)
    else if !Advances(root, current, vars[0]) then Taken([], current, true)
    else
      var rest := Take(root, vars[0].oid, vars[1..]);
      rest.(bindings := [vars[0]] + rest.bindings)
  }

  ghost function BulkWalkFrom(server: Server, root: Oid, current: Oid, k: nat, left: nat): Walked
    decreases left
  {
    if left == 0 then Walked([], false)
    else
      match server(k, current)
      case None => Walked([], false)
      case Some(vars) =>
        var taken := Take(root, current, vars);
        if taken.finished || taken.bindings == [] then Walked(taken.bindings, true)
        else
          var rest := BulkWalkFrom(server, root, taken.current, k + 1, left - 1);
          Walked(taken.bindings + rest.bindings, rest.ok)
  }

  /** The GETNEXT loop. */
  method WalkEach(server: Server, root: Oid, budget: nat) returns (out: seq<VarBind>, ok: bool)
    ensures Walked(out, ok) == WalkFrom(server, root, root, 0, budget)
  {
    var current, k := root, 0;
    out := [];
    while k < budget
      invariant 0 <= k <= budget
      invariant var rest := WalkFrom(server, root, current, k, budget - k);
        Walked(out + rest.bindings, rest.ok) == WalkFrom(server, root, root, 0, budget)
      decreases budget - k
    {
      var vars := server(k, current);
      if vars.None? {
        return out, false;
      }
      if vars.value == [] || !Advances(root, current, vars.value[0]) {
        return out, true;
      }
      var vb := vars.value[0];
      ghost var rest := WalkFrom(server, root, vb.oid, k + 1, budget - k - 1);
      assert out + ([vb] + rest.bindings) == out + [vb] + rest.bindings;
      current, out, k := vb.oid, out + [vb], k + 1;
    }
    return out, false;
  }

  /** The inner loop over one GETBULK reply. */
  method TakeReply(root: Oid, start: Oid, vars: seq<VarBind>)
    returns (out: seq<VarBind>, current: Oid, finished: bool)
    ensures Taken(out, current, finished) == Take(root, start, vars)
  {
    ghost var whole := Take(root, start, vars);
    current, out, finished := start, [], false;
    var i := 0;
    assert vars[0..] == vars && [] + whole.bindings == whole.bindings;
    while i < |vars|
      invariant 0 <= i <= |vars| && !finished
      invariant Prefixed(out, Take(root, current, vars[i..])) == whole
    {
      TakeStep(root, current, vars, i, out);
      if !Advances(root, current, vars[i]) {
        return out, current, true;
      }
      current, out, i := vars[i].oid, out + [vars[i]], i + 1;
    }
    assert vars[i..] == [] && out + [] == out;
  }

  /** What is taken, with bindings taken before. */
  function Prefixed(out: seq<VarBind>, t: Taken): Taken {
    t.(bindings := out + t.bindings)
  }

  lemma TakeStep(root: Oid, current: Oid, vars: seq<VarBind>, i: nat, out: seq<VarBind>)
    requires i < |vars|
    ensures Prefixed(out, Take(root, current, vars[i..]))
         == if !Advances(root, current, vars[i]) then Taken(out, current, true)
            else Prefixed(out + [vars[i]], Take(root, vars[i].oid, vars[i + 1..]))
  {
    assert vars[i..][1..] == vars[i + 1..];
    if Advances(root, current, vars[i]) {
      var rest := Take(root, vars[i].oid, vars[i + 1..]);
      assert out + ([vars[i]] + rest.bindings) == out + [vars[i]] + rest.bindings;
    } else {
      assert out + [] == out;
    }
  }

  /** The GETBULK loop; it falls back to GETNEXT where GETBULK is unsupported. */
  method BulkWalkEach(server: Server, nextServer: Server, supportsBulk: bool, root: Oid, budget: nat)
    returns (out: seq<VarBind>, ok: bool)
    ensures Walked(out, ok) == if supportsBulk then BulkWalkFrom(server, root, root, 0, budget)
                               else WalkFrom(nextServer, root, root, 0, budget)
  {
    if !supportsBulk {
      out, ok := WalkEach(nextServer, root, budget);
      return;
    }
    var current, k := root, 0;
    out := [];
    while k < budget
      invariant 0 <= k <= budget
      invariant var rest := BulkWalkFrom(server, root, current, k, budget - k);
        Walked(out + rest.bindings, rest.ok) == BulkWalkFrom(server, root, root, 0, budget)
      decreases budget - k
    {
      var vars := server(k, current);
      if vars.None? {
        return out, false;
      }
      var got, position, finished := TakeReply(root, current, vars.value);
      if finished || got == [] {
        return out + got, true;
      }
      ghost var rest := BulkWalkFrom(server, root, position, k + 1, budget - k - 1);
      assert out + (got + rest.bindings) == out + got + rest.bindings;
      current, out, k := position, out + got, k + 1;
    }
    return out, false;
  }

  // ----- What the loops do with any agent -----

  /** The binding a walk at `current` goes on with: below the root, above the
      position, no exception. */
  predicate GoesOn(root: Oid, current: Oid, vb: VarBind) {
    && |root| <= |vb.oid| && vb.oid[..|root|] == root && Less(current, vb.oid)
    && vb.value != NoSuchObject && vb.value != NoSuchInstance && vb.value != EndOfMibView
  }

  lemma AdvancesIff(root: Oid, current: Oid, vb: VarBind)
    ensures Advances(root, current, vb) <==> GoesOn(root, current, vb)
  {
    LessTotal(current, vb.oid);
    if Less(current, vb.oid) {
      LessAsymmetric(current, vb.oid);
      LessIrreflexive(current);
    }
  }

  /** Where a list of bindings leads to. */
  function LastOid(current: Oid, s: seq<VarBind>): Oid {
    if s == [] then current else s[|s| - 1].oid
  }

  /** Every binding goes on from the one before. */
  ghost predicate Chain(root: Oid, current: Oid, s: seq<VarBind>) {
    forall i :: 0 <= i < |s| ==> GoesOn(root, LastOid(current, s[..i]), s[i])
  }

  lemma ChainCons(root: Oid, current: Oid, vb: VarBind, s: seq<VarBind>)
    requires GoesOn(root, current, vb) && Chain(root, vb.oid, s)
    ensures Chain(root, current, [vb] + s) && LastOid(current, [vb] + s) == LastOid(vb.oid, s)
  {
    var t := [vb] + s;
    forall i | 0 <= i < |t| ensures GoesOn(root, LastOid(current, t[..i]), t[i]) {
      if i > 0 {
        assert t[..i] == [vb] + s[..i - 1];
        assert t[i] == s[i - 1];
      } else {
        assert t[..0] == [];
      }
    }
  }

  /** The first binding of an answer. */
  function FirstAnswer(server: Server, k: nat, oid: Oid): Option<VarBind> {
    match server(k, oid) case None => None case Some(vars) => if vars == [] then None else Some(vars[0])
  }

  lemma WalkAnswers(server: Server, current: Oid, vb: VarBind, s: seq<VarBind>, k: nat)
    requires FirstAnswer(server, k, current) == Some(vb)
    requires forall i :: 0 <= i < |s| ==> FirstAnswer(server, k + 1 + i, LastOid(vb.oid, s[..i])) == Some(s[i])
    ensures var t := [vb] + s; forall i :: 0 <= i < |t| ==> FirstAnswer(server, k + i, LastOid(current, t[..i])) == Some(t[i])
  {
    var t := [vb] + s;
    forall i | 0 <= i < |t| ensures FirstAnswer(server, k + i, LastOid(current, t[..i])) == Some(t[i]) {
      if i > 0 {
        assert t[..i] == [vb] + s[..i - 1];
        assert FirstAnswer(server, k + 1 + (i - 1), LastOid(vb.oid, s[..i - 1])) == Some(s[i - 1]);
      } else {
        assert t[..0] == [];
      }
    }
  }

  /** A GETNEXT walk to its end: request number i was answered by binding i, which
      goes on from the one before. The walk is complete when the next answer is
      empty or does not go on, and failed when there is none. */
  ghost predicate WalkIs(server: Server, root: Oid, current: Oid, k: nat, left: nat, w: Walked) {
    var n := |w.bindings|;
    && n <= left && Chain(root, current, w.bindings)
    && (forall i :: 0 <= i < n ==> FirstAnswer(server, k + i, LastOid(current, w.bindings[..i])) == Some(w.bindings[i]))
    && if n == left then !w.ok
       else
         var answer := server(k + n, LastOid(current, w.bindings));
         if answer.None? then !w.ok
         else w.ok && (answer.value == [] || !GoesOn(root, LastOid(current, w.bindings), answer.value[0]))
  }

  lemma WalkIsCons(server: Server, root: Oid, current: Oid, k: nat, left: nat, vb: VarBind, rest: Walked)
    requires left > 0 && FirstAnswer(server, k, current) == Some(vb) && GoesOn(root, current, vb)
    requires WalkIs(server, root, vb.oid, k + 1, left - 1, rest)
    ensures WalkIs(server, root, current, k, left, Walked([vb] + rest.bindings, rest.ok))
  {
    ChainCons(root, current, vb, rest.bindings);
    WalkAnswers(server, current, vb, rest.bindings, k);
  }

  lemma WalkIsEmpty(server: Server, root: Oid, current: Oid, k: nat, left: nat, ok: bool)
    requires if left == 0 || server(k, current).None? then !ok
             else ok && (server(k, current).value == [] || !GoesOn(root, current, server(k, current).value[0]))
    ensures WalkIs(server, root, current, k, left, Walked([], ok))
  {
  }

  lemma {:induction false} WalkSpec(server: Server, root: Oid, current: Oid, k: nat, left: nat)
    ensures WalkIs(server, root, current, k, left, WalkFrom(server, root, current, k, left))
    decreases left
  {
    if left == 0 || server(k, current).None? {
      WalkIsEmpty(server, root, current, k, left, false);
    } else {
      var vars := server(k, current).value;
      if vars != [] {
        AdvancesIff(root, current, vars[0]);
      }
      if vars == [] || !GoesOn(root, current, vars[0]) {
        WalkIsEmpty(server, root, current, k, left, true);
      } else {
        WalkSpec(server, root, vars[0].oid, k + 1, left - 1);
        WalkIsCons(server, root, current, k, left, vars[0], WalkFrom(server, root, vars[0].oid, k + 1, left - 1));
      }
    }
  }

  /** The bindings taken are the longest front of the reply that goes on. */
  ghost predicate TakeIs(root: Oid, current: Oid, vars: seq<VarBind>, t: Taken) {
    var n := |t.bindings|;
    && n <= |vars| && t.bindings == vars[..n] && Chain(root, current, t.bindings) && t.current == LastOid(current, t.bindings)
    && (t.finished <==> n < |vars|) && (n < |vars| ==> !GoesOn(root, t.current, vars[n]))
  }

  lemma TakeIsCons(root: Oid, current: Oid, vb: VarBind, vars: seq<VarBind>, t: Taken)
    requires GoesOn(root, current, vb) && TakeIs(root, vb.oid, vars, t)
    ensures TakeIs(root, current, [vb] + vars, t.(bindings := [vb] + t.bindings))
  {
    ChainCons(root, current, vb, t.bindings);
    assert ([vb] + vars)[..1 + |t.bindings|] == [vb] + vars[..|t.bindings|];
  }

  lemma {:induction false} TakeSpec(root: Oid, current: Oid, vars: seq<VarBind>)
    ensures TakeIs(root, current, vars, Take(root, current, vars))
    decreases |vars|
  {
    if vars != [] {
      AdvancesIff(root, current, vars[0]);
      if GoesOn(root, current, vars[0]) {
        TakeSpec(root, vars[0].oid, vars[1..]);
        TakeIsCons(root, current, vars[0], vars[1..], Take(root, vars[0].oid, vars[1..]));
        assert vars == [vars[0]] + vars[1..];
      }
    }
  }

  /** What a GETBULK walk did: one list of bindings a round trip. Each round trip
      asks from where the last one led and takes its reply whole; the last one
      takes only the front that goes on, or nothing. */
  ghost predicate BulkWalkIs(server: Server, root: Oid, current: Oid, k: nat, left: nat, rounds: seq<seq<VarBind>>, w: Walked)
    decreases left
  {
    if left == 0 || server(k, current).None? then rounds == [] && w == Walked([], false)
    else
      var vars := server(k, current).value;
      && rounds != [] && |rounds[0]| <= |vars| && rounds[0] == vars[..|rounds[0]|] && Chain(root, current, rounds[0])
      && (|rounds[0]| < |vars| ==> !GoesOn(root, LastOid(current, rounds[0]), vars[|rounds[0]|]))
      && if |rounds[0]| < |vars| || vars == [] then |rounds| == 1 && w == Walked(rounds[0], true)
         else |w.bindings| >= |vars| && w.bindings[..|vars|] == vars
              && BulkWalkIs(server, root, LastOid(current, vars), k + 1, left - 1, rounds[1..], Walked(w.bindings[|vars|..], w.ok))
  }

  lemma BulkWalkIsLast(server: Server, root: Oid, current: Oid, k: nat, left: nat, vars: seq<VarBind>, t: Taken)
    requires left > 0 && server(k, current) == Some(vars) && TakeIs(root, current, vars, t) && (t.finished || t.bindings == [])
    ensures BulkWalkIs(server, root, current, k, left, [t.bindings], Walked(t.bindings, true))
  {
  }

  lemma BulkWalkIsCons(server: Server, root: Oid, current: Oid, k: nat, left: nat, vars: seq<VarBind>, t: Taken, more: seq<seq<VarBind>>, rest: Walked)
    requires left > 0 && server(k, current) == Some(vars) && TakeIs(root, current, vars, t) && !t.finished && t.bindings != []
    requires BulkWalkIs(server, root, t.current, k + 1, left - 1, more, rest)
    ensures BulkWalkIs(server, root, current, k, left, [t.bindings] + more, Walked(t.bindings + rest.bindings, rest.ok))
  {
    assert t.bindings == vars && ([vars] + more)[1..] == more;
    assert (vars + rest.bindings)[|vars|..] == rest.bindings;
  }

  /** A GETBULK walk to its end. */
  lemma {:induction false} BulkWalkSpec(server: Server, root: Oid, current: Oid, k: nat, left: nat) returns (rounds: seq<seq<VarBind>>)
    ensures BulkWalkIs(server, root, current, k, left, rounds, BulkWalkFrom(server, root, current, k, left))
    decreases left
  {
    rounds := [];
    if left > 0 && server(k, current).Some? {
      var vars := server(k, current).value;
      var t := Take(root, current, vars);
      TakeSpec(root, current, vars);
      if t.finished || t.bindings == [] {
        rounds := [t.bindings];
        BulkWalkIsLast(server, root, current, k, left, vars, t);
      } else {
        var more := BulkWalkSpec(server, root, t.current, k + 1, left - 1);
        rounds := [t.bindings] + more;
        BulkWalkIsCons(server, root, current, k, left, vars, t, more, BulkWalkFrom(server, root, t.current, k + 1, left - 1));
      }
    }
  }

  // ----- Safety against any agent -----

  /** Strictly increasing OIDs, all strictly under the root and above `from`,
      none an exception. */
  ghost predicate Climbs(root: Oid, from: Oid, s: seq<VarBind>) {
    && Ordered(s) && Ordinary(s)
    && forall i :: 0 <= i < |s| ==> Less(from, s[i].oid) && IsPrefix(root, s[i].oid) && s[i].oid != root
  }

  lemma ClimbsCons(root: Oid, from: Oid, vb: VarBind, s: seq<VarBind>)
    requires AtMost(root, from) && Advances(root, from, vb) && Climbs(root, vb.oid, s)
    ensures Less(from, vb.oid) && Climbs(root, from, [vb] + s)
  {
    LessTotal(from, vb.oid);
    AtMostTransitive(root, from, vb.oid);
    LessIrreflexive(root);
    var t := [vb] + s;
    forall i | 0 <= i < |t| ensures Less(from, t[i].oid) && IsPrefix(root, t[i].oid) && t[i].oid != root {
      if i > 0 {
        assert t[i] == s[i - 1];
        LessTransitive(from, vb.oid, t[i].oid);
        AtMostTransitive(root, from, t[i].oid);
      }
    }
    forall i, j | 0 <= i < j < |t| ensures Less(t[i].oid, t[j].oid) {
      assert t[j] == s[j - 1];
      if i > 0 {
        assert t[i] == s[i - 1] && Less(s[i - 1].oid, s[j - 1].oid);
      }
    }
  }

  lemma ClimbsAppend(root: Oid, from: Oid, s: seq<VarBind>, mid: Oid, t: seq<VarBind>)
    requires Climbs(root, from, s) && Climbs(root, mid, t) && AtMost(from, mid)
    requires forall i :: 0 <= i < |s| ==> AtMost(s[i].oid, mid)
    ensures Climbs(root, from, s + t)
  {
    var u := s + t;
    forall i | |s| <= i < |u| ensures Less(from, u[i].oid) {
      AtMostTransitive(from, mid, t[i - |s|].oid);
    }
    forall i, j | 0 <= i < j < |u| ensures Less(u[i].oid, u[j].oid) {
      if j < |s| {
        assert Less(s[i].oid, s[j].oid);
      } else if i >= |s| {
        assert Less(t[i - |s|].oid, t[j - |s|].oid);
      } else {
        AtMostTransitive(s[i].oid, mid, t[j - |s|].oid);
      }
    }
  }

  /** Whatever the agent answers, a GETNEXT walk emits strictly increasing OIDs
      strictly inside the subtree. */
  lemma {:induction false} WalkClimbs(server: Server, root: Oid, current: Oid, k: nat, left: nat)
    requires AtMost(root, current)
    ensures Climbs(root, current, WalkFrom(server, root, current, k, left).bindings)
    decreases left
  {
    if left > 0 && server(k, current).Some? {
      var vars := server(k, current).value;
      if vars != [] && Advances(root, current, vars[0]) {
        LessTotal(current, vars[0].oid);
        AtMostTransitive(root, current, vars[0].oid);
        WalkClimbs(server, root, vars[0].oid, k + 1, left - 1);
        ClimbsCons(root, current, vars[0], WalkFrom(server, root, vars[0].oid, k + 1, left - 1).bindings);
      }
    }
  }

  lemma {:induction false} TakeClimbs(root: Oid, current: Oid, vars: seq<VarBind>)
    requires AtMost(root, current)
    ensures var t := Take(root, current, vars);
      && Climbs(root, current, t.bindings) && AtMost(current, t.current)
      && forall i :: 0 <= i < |t.bindings| ==> AtMost(t.bindings[i].oid, t.current)
    decreases |vars|
  {
    if vars != [] && Advances(root, current, vars[0]) {
      var rest := Take(root, vars[0].oid, vars[1..]);
      LessTotal(current, vars[0].oid);
      AtMostTransitive(root, current, vars[0].oid);
      TakeClimbs(root, vars[0].oid, vars[1..]);
      ClimbsCons(root, current, vars[0], rest.bindings);
      AtMostTransitive(current, vars[0].oid, rest.current);
    }
  }

  /** The same for a GETBULK walk. */
  lemma {:induction false} BulkWalkClimbs(server: Server, root: Oid, current: Oid, k: nat, left: nat)
    requires AtMost(root, current)
    ensures Climbs(root, current, BulkWalkFrom(server, root, current, k, left).bindings)
    decreases left
  {
    if left > 0 && server(k, current).Some? {
      var t := Take(root, current, server(k, current).value);
      TakeClimbs(root, current, server(k, current).value);
      if !t.finished && t.bindings != [] {
        AtMostTransitive(root, current, t.current);
        BulkWalkClimbs(server, root, t.current, k + 1, left - 1);
        ClimbsAppend(root, current, t.bindings, t.current,
                     BulkWalkFrom(server, root, t.current, k + 1, left - 1).bindings);
      }
    }
  }

  // ----- Walks of an ordered MIB -----

  /** An agent serving GETNEXT from these cells. */
  function NextServer(next: Oid -> VarBind): Server {
    (k: nat, oid: Oid) => Some([next(oid)])
  }

  /** An agent serving single-column GETBULK from these cells. */
  function BulkServer(next: Oid -> VarBind, reps: nat): Server {
    (k: nat, oid: Oid) => Some(BulkReply(next, [oid], 0, reps))
  }

  /** The client asks for at least one repetition. */
  function AtLeastOne(reps: nat): (r: nat)
    ensures r >= 1 && r >= reps && (r == 1 || r == reps)
  {
    if reps == 0 then 1 else reps
  }

  /** Every cell strictly under the root, in order. */
  function Subtree(s: seq<VarBind>, root: Oid): seq<VarBind> {
    Filter(s, (c: VarBind) => IsPrefix(root, c.oid) && c.oid != root)
  }

  /** The run of cells inside the subtree that starts at index f. */
  ghost function RunFrom(s: seq<VarBind>, root: Oid, f: nat): seq<VarBind>
    requires f <= |s|
    decreases |s| - f
  {
    if f < |s| && IsPrefix(root, s[f].oid) then [s[f]] + RunFrom(s, root, f + 1) else []
  }

  /** Past the current position inside the subtree, the successor advances the
      walk exactly when it is still inside. */
  lemma AdvanceIff(s: seq<VarBind>, root: Oid, current: Oid)
    requires Ordinary(s)
    ensures var f := FirstAbove(s, current);
      Advances(root, current, NextBind(s, current)) <==> f < |s| && IsPrefix(root, s[f].oid)
  {
    var f := FirstAbove(s, current);
    if f < |s| {
      LessAsymmetric(current, s[f].oid);
    }
  }

  lemma {:induction false} WalkIsRun(s: seq<VarBind>, root: Oid, current: Oid, k: nat, left: nat)
    requires Ordered(s) && Ordinary(s)
    requires left > |s| - FirstAbove(s, current)
    ensures WalkFrom(NextServer(Plain(s)), root, current, k, left)
         == Walked(RunFrom(s, root, FirstAbove(s, current)), true)
    decreases left
  {
    var f := FirstAbove(s, current);
    assert NextServer(Plain(s))(k, current) == Some([NextBind(s, current)]);
    AdvanceIff(s, root, current);
    if f < |s| && IsPrefix(root, s[f].oid) {
      FirstAboveOfCell(s, f);
      WalkIsRun(s, root, s[f].oid, k + 1, left - 1);
    }
  }

  /** The single-column GETBULK reply, one binding at a time. */
  lemma BulkColumn(s: seq<VarBind>, current: Oid, reps: nat)
    requires reps > 0
    ensures var vb := NextBind(s, current);
      BulkRows(Plain(s), [current], reps)
        == if vb.value == EndOfMibView then [vb] else [vb] + BulkRows(Plain(s), [vb.oid], reps - 1)
  {
    var row := Row(Plain(s), [current]);
    assert row == [NextBind(s, current)];
    assert OidsOf(row) == [NextBind(s, current).oid];
    assert AllEnded(row) <==> row[0].value == EndOfMibView;
  }

  /** The bindings of that reply. */
  function Column(s: seq<VarBind>, current: Oid, reps: nat): seq<VarBind>
    decreases reps
  {
    if reps == 0 then []
    else
      var vb := NextBind(s, current);
      [vb] + if vb.value == EndOfMibView then [] else Column(s, vb.oid, reps - 1)
  }

  lemma {:induction false} ColumnIsReply(s: seq<VarBind>, current: Oid, reps: nat)
    ensures BulkRows(Plain(s), [current], reps) == Column(s, current, reps)
    decreases reps
  {
    if reps > 0 {
      var vb := NextBind(s, current);
      BulkColumn(s, current, reps);
      ColumnIsReply(s, vb.oid, reps - 1);
      SameColumn(vb, BulkRows(Plain(s), [current], reps), Column(s, current, reps),
                 BulkRows(Plain(s), [vb.oid], reps - 1), Column(s, vb.oid, reps - 1));
    }
  }

  lemma SameColumn(vb: VarBind, a: seq<VarBind>, b: seq<VarBind>, x: seq<VarBind>, y: seq<VarBind>)
    requires a == (if vb.value == EndOfMibView then [vb] else [vb] + x)
    requires b == [vb] + (if vb.value == EndOfMibView then [] else y)
    requires x == y
    ensures a == b
  {
  }

  /** How the walk reads the next binding of a GETBULK reply. */
  lemma TakeColumn(s: seq<VarBind>, root: Oid, current: Oid, reps: nat)
    requires Ordinary(s) && reps > 0
    ensures var f := FirstAbove(s, current);
      Take(root, current, Column(s, current, reps))
        == if f < |s| && IsPrefix(root, s[f].oid)
           then var rest := Take(root, s[f].oid, Column(s, s[f].oid, reps - 1));
                rest.(bindings := [s[f]] + rest.bindings)
           else Taken([], current, true)
  {
    var f := FirstAbove(s, current);
    var vars := Column(s, current, reps);
    AdvanceIff(s, root, current);
    assert vars[0] == NextBind(s, current);
    if f < |s| && IsPrefix(root, s[f].oid) {
      assert vars[1..] == Column(s, s[f].oid, reps - 1);
    }
  }

  /** One GETBULK reply takes a prefix of the remaining run: all of it when the
      walk finishes there, else `reps` cells. */
  ghost predicate TakesRun(s: seq<VarBind>, root: Oid, current: Oid, reps: nat, t: Taken) {
    var run := RunFrom(s, root, FirstAbove(s, current));
    if t.finished then t.bindings == run
    else && run == t.bindings + RunFrom(s, root, FirstAbove(s, t.current))
         && FirstAbove(s, t.current) == FirstAbove(s, current) + reps && |t.bindings| == reps
  }

  lemma {:induction false} TakesRunCons(s: seq<VarBind>, root: Oid, current: Oid, reps: nat, t: Taken, whole: Taken)
    requires var f := FirstAbove(s, current);
      && Ordered(s) && f < |s| && IsPrefix(root, s[f].oid) && TakesRun(s, root, s[f].oid, reps, t)
      && whole == t.(bindings := [s[f]] + t.bindings)
    ensures TakesRun(s, root, current, reps + 1, whole)
  {
    var f := FirstAbove(s, current);
    FirstAboveOfCell(s, f);
    if !t.finished {
      var rest := RunFrom(s, root, FirstAbove(s, t.current));
      assert [s[f]] + (t.bindings + rest) == [s[f]] + t.bindings + rest;
    }
  }

  lemma {:induction false} TakeIsRun(s: seq<VarBind>, root: Oid, current: Oid, reps: nat)
    requires Ordered(s) && Ordinary(s)
    ensures TakesRun(s, root, current, reps, Take(root, current, Column(s, current, reps)))
    decreases reps
  {
    var f := FirstAbove(s, current);
    if reps == 0 {
      TakesNothing(s, root, current);
    } else if f < |s| && IsPrefix(root, s[f].oid) {
      TakeIsRun(s, root, s[f].oid, reps - 1);
      TakeIsRunStep(s, root, current, reps);
    } else {
      TakeColumn(s, root, current, reps);
      RunIsOver(s, root, current, reps);
    }
  }

  lemma TakeIsRunStep(s: seq<VarBind>, root: Oid, current: Oid, reps: nat)
    requires Ordered(s) && Ordinary(s) && reps > 0
    requires var f := FirstAbove(s, current);
      f < |s| && IsPrefix(root, s[f].oid) && TakesRun(s, root, s[f].oid, reps - 1, Take(root, s[f].oid, Column(s, s[f].oid, reps - 1)))
    ensures TakesRun(s, root, current, reps, Take(root, current, Column(s, current, reps)))
  {
    var f := FirstAbove(s, current);
    TakeColumn(s, root, current, reps);
    TakesRunCons(s, root, current, reps - 1, Take(root, s[f].oid, Column(s, s[f].oid, reps - 1)), Take(root, current, Column(s, current, reps)));
  }

  lemma TakesNothing(s: seq<VarBind>, root: Oid, current: Oid)
    ensures TakesRun(s, root, current, 0, Taken([], current, false))
  {
    var run := RunFrom(s, root, FirstAbove(s, current));
    assert [] + run == run;
  }

  lemma RunIsOver(s: seq<VarBind>, root: Oid, current: Oid, reps: nat)
    requires var f := FirstAbove(s, current); f == |s| || !IsPrefix(root, s[f].oid)
    ensures TakesRun(s, root, current, reps, Taken([], current, true))
  {
  }

  lemma SingleColumnReply(next: Oid -> VarBind, current: Oid, reps: nat)
    ensures BulkReply(next, [current], 0, reps) == BulkRows(next, [current], reps)
  {
    assert [current][..0] == [] && [current][0..] == [current];
    assert Row(next, []) == [];
  }

  lemma BulkWalkIsRun(s: seq<VarBind>, root: Oid, current: Oid, reps: nat, k: nat, left: nat)
    requires Ordered(s) && Ordinary(s) && reps > 0
    requires left > |s| - FirstAbove(s, current)
    ensures BulkWalkFrom(BulkServer(Plain(s), reps), root, current, k, left)
         == Walked(RunFrom(s, root, FirstAbove(s, current)), true)
  {
    forall k: nat, oid
      ensures BulkServer(Plain(s), reps)(k, oid) == Some(Column(s, oid, reps))
    {
      ServerGivesColumn(s, oid, reps, k);
    }
    ColumnWalkIsRun(BulkServer(Plain(s), reps), s, root, current, reps, k, left);
  }

  ghost predicate ServesColumns(server: Server, s: seq<VarBind>, reps: nat) {
    forall k: nat, oid :: server(k, oid) == Some(Column(s, oid, reps))
  }

  lemma {:induction false} ColumnWalkIsRun(server: Server, s: seq<VarBind>, root: Oid, current: Oid, reps: nat, k: nat, left: nat)
    requires Ordered(s) && Ordinary(s) && reps > 0 && ServesColumns(server, s, reps)
    requires left > |s| - FirstAbove(s, current)
    ensures RunsFrom(server, s, root, current, k, left)
    decreases left
  {
    var t := ColumnRound(server, s, root, current, reps, k, left);
    if !t.finished {
      ColumnWalkIsRun(server, s, root, t.current, reps, k + 1, left - 1);
    }
  }

  /** The walk from here is the run from here. */
  ghost predicate RunsFrom(server: Server, s: seq<VarBind>, root: Oid, current: Oid, k: nat, left: nat) {
    BulkWalkFrom(server, root, current, k, left) == Walked(RunFrom(s, root, FirstAbove(s, current)), true)
  }

  lemma Joined(walk: Walked, t: Taken, rest: Walked, run: seq<VarBind>, later: seq<VarBind>)
    requires walk == Walked(t.bindings + rest.bindings, rest.ok) && rest == Walked(later, true) && run == t.bindings + later
    ensures walk == Walked(run, true)
  {
  }

  /** One round trip takes bindings from the run, and the rest of the walk is left
      to take the rest of the run. */
  lemma ColumnRound(server: Server, s: seq<VarBind>, root: Oid, current: Oid, reps: nat, k: nat, left: nat) returns (t: Taken)
    requires Ordered(s) && Ordinary(s) && reps > 0 && ServesColumns(server, s, reps)
    requires left > |s| - FirstAbove(s, current)
    ensures t.finished ==> RunsFrom(server, s, root, current, k, left)
    ensures !t.finished ==> left - 1 > |s| - FirstAbove(s, t.current)
    ensures !t.finished && RunsFrom(server, s, root, t.current, k + 1, left - 1) ==> RunsFrom(server, s, root, current, k, left)
  {
    t := Take(root, current, Column(s, current, reps));
    TakeIsRun(s, root, current, reps);
    var rest := BulkWalkFrom(server, root, t.current, k + 1, left - 1);
    BulkRound(server, root, current, k, left, Column(s, current, reps), t, rest);
    if !t.finished && RunsFrom(server, s, root, t.current, k + 1, left - 1) {
      Joined(BulkWalkFrom(server, root, current, k, left), t, rest,
             RunFrom(s, root, FirstAbove(s, current)), RunFrom(s, root, FirstAbove(s, t.current)));
    }
  }

  lemma ServerGivesColumn(s: seq<VarBind>, current: Oid, reps: nat, k: nat)
    ensures BulkServer(Plain(s), reps)(k, current) == Some(Column(s, current, reps))
  {
    SingleColumnReply(Plain(s), current, reps);
    ColumnIsReply(s, current, reps);
  }

  /** One round trip of a GETBULK walk. */
  lemma BulkRound(server: Server, root: Oid, current: Oid, k: nat, left: nat, vars: seq<VarBind>, t: Taken, rest: Walked)
    requires left > 0 && server(k, current) == Some(vars) && Take(root, current, vars) == t
    requires !t.finished && t.bindings != [] ==> BulkWalkFrom(server, root, t.current, k + 1, left - 1) == rest
    ensures BulkWalkFrom(server, root, current, k, left)
         == if t.finished || t.bindings == [] then Walked(t.bindings, true)
            else Walked(t.bindings + rest.bindings, rest.ok)
  {
  }

  /** Inside an ordered MIB the subtree of a root is one run of cells. */
  lemma {:induction false} RunIsSubtree(s: seq<VarBind>, root: Oid, from: Oid, f: nat)
    requires Ordered(s) && f <= |s| && IsPrefix(root, from)
    requires forall i :: f <= i < |s| ==> Less(from, s[i].oid)
    ensures RunFrom(s, root, f) == Subtree(s[f..], root)
    decreases |s| - f
  {
    if f < |s| {
      assert s[f..][1..] == s[f + 1..];
      PrefixAtMost(root, from);
      AtMostTransitive(root, from, s[f].oid);
      LessIrreflexive(root);
      forall i | f + 1 <= i < |s| ensures Less(s[f].oid, s[i].oid) {
      }
      if IsPrefix(root, s[f].oid) {
        RunIsSubtree(s, root, s[f].oid, f + 1);
      } else {
        forall i | f <= i < |s| ensures !IsPrefix(root, s[i].oid) {
          if i > f && IsPrefix(root, s[i].oid) {
            assert Less(s[f].oid, s[i].oid);
            SubtreeIsInterval(root, from, s[f].oid, s[i].oid);
          }
        }
        FilterNone(s[f..], (c: VarBind) => IsPrefix(root, c.oid) && c.oid != root);
      }
    }
  }

  lemma {:induction false} FilterNone(s: seq<VarBind>, keep: VarBind -> bool)
    requires forall i :: 0 <= i < |s| ==> !keep(s[i])
    ensures Filter(s, keep) == []
  {
    if s != [] {
      FilterNone(s[1..], keep);
    }
  }

  lemma {:induction false} SubtreeStartsAbove(s: seq<VarBind>, root: Oid)
    requires Ordered(s)
    ensures RunFrom(s, root, FirstAbove(s, root)) == Subtree(s, root)
  {
    var f := FirstAbove(s, root);
    NoneAboveBefore(s, root);
    forall i | f <= i < |s| ensures Less(root, s[i].oid) {
      if i > f {
        assert Less(s[f].oid, s[i].oid);
        LessTransitive(root, s[f].oid, s[i].oid);
      }
    }
    RunIsSubtree(s, root, root, f);
    forall i | 0 <= i < f ensures !(IsPrefix(root, s[i].oid) && s[i].oid != root) {
      if IsPrefix(root, s[i].oid) {
        PrefixAtMost(root, s[i].oid);
      }
    }
    FilterNone(s[..f], (c: VarBind) => IsPrefix(root, c.oid) && c.oid != root);
    assert s == s[..f] + s[f..];
    FilterConcat(s[..f], s[f..], (c: VarBind) => IsPrefix(root, c.oid) && c.oid != root);
  }

  lemma {:induction false} WalkExtensional(f: Server, g: Server, root: Oid, current: Oid, k: nat, left: nat)
    requires forall i: nat, oid :: f(i, oid) == g(i, oid)
    ensures WalkFrom(f, root, current, k, left) == WalkFrom(g, root, current, k, left)
    ensures BulkWalkFrom(f, root, current, k, left) == BulkWalkFrom(g, root, current, k, left)
    decreases left
  {
    if left > 0 && f(k, current).Some? {
      var vars := f(k, current).value;
      if vars != [] {
        WalkExtensional(f, g, root, vars[0].oid, k + 1, left - 1);
      }
      WalkExtensional(f, g, root, Take(root, current, vars).current, k + 1, left - 1);
    }
  }
}
