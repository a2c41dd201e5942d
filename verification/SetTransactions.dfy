/** SET as a transaction over all handlers: reserve twice, commit, undo
    (crates/netsnmp-agent/src/registry.rs). */
module SetTransactions {
  import opened Oids
  import opened Values
  import opened StableSort
  import opened Cells
  import opened Handlers
  import opened Routing

  /** The reserve status of one binding; no owner means not writable. */
  function ReserveStatus(hs: seq<Handler>, vb: VarBind): ErrorStatus {
    match OwnerOf(hs, vb.oid)
    case None => NotWritable
    case Some(i) => Prepare(hs[i], vb.oid, vb.value)
  }

  /** The first number from i up to n that has the property. */
  function FirstFrom(has: nat -> bool, i: nat, n: nat): (r: Option<nat>)
    requires i <= n
    ensures r.Some? ==> i <= r.value < n && has(r.value)
    decreases n - i
  {
    if i == n then None else if has(i) then Some(i) else FirstFrom(has, i + 1, n)
  }

  lemma {:induction false} NoneBefore(has: nat -> bool, i: nat, n: nat)
    requires i <= n
    ensures var r := FirstFrom(has, i, n); forall k :: i <= k < (if r.Some? then r.value else n) ==> !has(k)
    decreases n - i
  {
    if i < n && !has(i) {
      NoneBefore(has, i + 1, n);
    }
  }

  function Refuses(hs: seq<Handler>, vbs: seq<VarBind>): nat -> bool {
    (k: nat) => k < |vbs| && ReserveStatus(hs, vbs[k]) != NoError
  }

  /** The first binding from index i on that a reserve pass refuses. */
  function FirstRefusal(hs: seq<Handler>, vbs: seq<VarBind>, i: nat): (r: Option<nat>)
    requires i <= |vbs|
    ensures r.Some? ==> i <= r.value < |vbs| && ReserveStatus(hs, vbs[r.value]) != NoError
  {
    FirstFrom(Refuses(hs, vbs), i, |vbs|)
  }

  lemma FirstRefusalIsFirst(hs: seq<Handler>, vbs: seq<VarBind>, i: nat)
    requires i <= |vbs|
    ensures var r := FirstRefusal(hs, vbs, i);
      forall k :: i <= k < (if r.Some? then r.value else |vbs|) ==> ReserveStatus(hs, vbs[k]) == NoError
  {
    var r := FirstRefusal(hs, vbs, i);
    NoneBefore(Refuses(hs, vbs), i, |vbs|);
    forall k | i <= k < (if r.Some? then r.value else |vbs|) ensures ReserveStatus(hs, vbs[k]) == NoError {
      assert !Refuses(hs, vbs)(k);
    }
  }

  function CommitOne(hs: seq<Handler>, vb: VarBind): (seq<Handler>, ErrorStatus) {
    match OwnerOf(hs, vb.oid)
    case None => (hs, NotWritable)
    case Some(i) =>
      var (h, st) := Commit(hs[i], vb.oid, vb.value);
      (hs[i := h], st)
  }

  /** The handlers after the first n commits; a failed commit does not stop the
      ones behind it. */
  function CommitTo(hs: seq<Handler>, vbs: seq<VarBind>, n: nat): seq<Handler>
    requires n <= |vbs|
  {
    if n == 0 then hs else CommitOne(CommitTo(hs, vbs, n - 1), vbs[n - 1]).0
  }

  function CommitStatus(hs: seq<Handler>, vbs: seq<VarBind>, k: nat): ErrorStatus
    requires k < |vbs|
  {
    CommitOne(CommitTo(hs, vbs, k), vbs[k]).1
  }

  function CommitFails(hs: seq<Handler>, vbs: seq<VarBind>): nat -> bool {
    (k: nat) => k < |vbs| && CommitStatus(hs, vbs, k) != NoError
  }

  function FirstCommitFailure(hs: seq<Handler>, vbs: seq<VarBind>, i: nat): (r: Option<nat>)
    requires i <= |vbs|
    ensures r.Some? ==> i <= r.value < |vbs| && CommitStatus(hs, vbs, r.value) != NoError
  {
    FirstFrom(CommitFails(hs, vbs), i, |vbs|)
  }

  lemma FirstCommitFailureIsFirst(hs: seq<Handler>, vbs: seq<VarBind>, i: nat)
    requires i <= |vbs|
    ensures var r := FirstCommitFailure(hs, vbs, i);
      forall k :: i <= k < (if r.Some? then r.value else |vbs|) ==> CommitStatus(hs, vbs, k) == NoError
  {
    var r := FirstCommitFailure(hs, vbs, i);
    NoneBefore(CommitFails(hs, vbs), i, |vbs|);
    forall k | i <= k < (if r.Some? then r.value else |vbs|) ensures CommitStatus(hs, vbs, k) == NoError {
      assert !CommitFails(hs, vbs)(k);
    }
  }

  /** The new handlers, and the error-status and 1-based error-index of the
      reply. */
  datatype SetOutcome = SetOutcome(handlers: seq<Handler>, status: ErrorStatus, index: nat)

  function SetEffect(hs: seq<Handler>, vbs: seq<VarBind>): SetOutcome {
    match FirstRefusal(hs, vbs, 0)
    case Some(k) => SetOutcome(hs, ReserveStatus(hs, vbs[k]), k + 1)
    case None =>
      var after := CommitTo(hs, vbs, |vbs|);
      match FirstCommitFailure(hs, vbs, 0)
      case Some(k) => SetOutcome(after, CommitStatus(hs, vbs, k), k + 1)
      case None => SetOutcome(after, NoError, 0)
  }

  // ----- Commits change values only -----

  ghost predicate SameShapes(hs: seq<Handler>, ks: seq<Handler>) {
    |hs| == |ks| && forall i :: 0 <= i < |hs| ==> SameShape(hs[i], ks[i])
  }

  lemma {:induction false} CommitToKeepsShapes(hs: seq<Handler>, vbs: seq<VarBind>, n: nat)
    requires n <= |vbs|
    ensures SameShapes(hs, CommitTo(hs, vbs, n))
  {
    if n > 0 {
      CommitToKeepsShapes(hs, vbs, n - 1);
      CommitOneKeepsShapes(hs, CommitTo(hs, vbs, n - 1), vbs[n - 1]);
    }
  }

  lemma CommitOneKeepsShapes(hs: seq<Handler>, mid: seq<Handler>, vb: VarBind)
    requires SameShapes(hs, mid)
    ensures SameShapes(hs, CommitOne(mid, vb).0)
  {
    if OwnerOf(mid, vb.oid).Some? {
      CommitKeepsShape(mid[OwnerOf(mid, vb.oid).value], vb.oid, vb.value);
    }
  }

  lemma CommitStatusIsFixed(hs: seq<Handler>, vbs: seq<VarBind>, k: nat)
    requires k < |vbs|
    ensures CommitStatus(hs, vbs, k) == CommitOne(hs, vbs[k]).1
  {
    CommitToKeepsShapes(hs, vbs, k);
    var mid := CommitTo(hs, vbs, k);
    OwnerByRoots(hs, mid, vbs[k].oid);
    match OwnerOf(hs, vbs[k].oid)
    case None =>
    case Some(i) => CommitStatusByShape(hs[i], mid[i], vbs[k].oid, vbs[k].value);
  }

  // ----- Commits as writes to the cells -----

  /** Writes applied in order; the last one to an OID wins. */
  function ApplyWrites(s: seq<VarBind>, ws: seq<VarBind>): seq<VarBind> {
    if ws == [] then s
    else
      var w := ws[|ws| - 1];
      Update(ApplyWrites(s, ws[..|ws| - 1]), w.oid, w.value)
  }

  function LastWrite(ws: seq<VarBind>, oid: Oid): Option<Value> {
    if ws == [] then None
    else if ws[|ws| - 1].oid == oid then Some(ws[|ws| - 1].value)
    else LastWrite(ws[..|ws| - 1], oid)
  }

  lemma {:induction false} ApplyWritesAt(s: seq<VarBind>, ws: seq<VarBind>, i: nat)
    requires i < |s|
    ensures |ApplyWrites(s, ws)| == |s|
    ensures ApplyWrites(s, ws)[i]
         == VarBind(s[i].oid, if LastWrite(ws, s[i].oid).Some? then LastWrite(ws, s[i].oid).value else s[i].value)
  {
    if ws != [] {
      ApplyWritesAt(s, ws[..|ws| - 1], i);
    }
  }

  predicate IsLastWrite(ws: seq<VarBind>, oid: Oid, k: nat) {
    k < |ws| && ws[k].oid == oid && forall j :: k < j < |ws| ==> ws[j].oid != oid
  }

  lemma {:induction false} LastWriteSpec(ws: seq<VarBind>, oid: Oid) returns (k: nat)
    ensures LastWrite(ws, oid).None? <==> forall j :: 0 <= j < |ws| ==> ws[j].oid != oid
    ensures LastWrite(ws, oid).Some? ==> IsLastWrite(ws, oid, k) && LastWrite(ws, oid) == Some(ws[k].value)
  {
    k := 0;
    if ws != [] {
      var n := |ws| - 1;
      k := LastWriteSpec(ws[..n], oid);
      if ws[n].oid == oid {
        k := n;
      } else {
        assert forall j :: 0 <= j < n ==> ws[j] == ws[..n][j];
      }
    }
  }

  lemma UpdateConcat(a: seq<VarBind>, b: seq<VarBind>, oid: Oid, v: Value)
    ensures Update(a + b, oid, v) == Update(a, oid, v) + Update(b, oid, v)
  {
  }

  lemma UpdateAbsent(s: seq<VarBind>, oid: Oid, v: Value)
    requires Lookup(s, oid).None?
    ensures Update(s, oid, v) == s
  {
    LookupSpec(s, oid);
  }

  lemma {:induction false} UpdateAcross(hs: seq<Handler>, i: nat, h: Handler, oid: Oid, v: Value)
    requires i < |hs| && CellsOf(h) == Update(CellsOf(hs[i]), oid, v)
    requires forall k :: 0 <= k < |hs| && k != i ==> Lookup(CellsOf(hs[k]), oid).None?
    ensures AllCells(hs[i := h]) == Update(AllCells(hs), oid, v)
  {
    UpdateConcat(CellsOf(hs[0]), AllCells(hs[1..]), oid, v);
    if i == 0 {
      assert hs[0 := h][1..] == hs[1..];
      UpdateMisses(hs[1..], oid, v);
    } else {
      UpdateAbsent(CellsOf(hs[0]), oid, v);
      assert hs[i := h][1..] == hs[1..][i - 1 := h];
      UpdateAcross(hs[1..], i - 1, h, oid, v);
    }
  }

  lemma UpdateMisses(hs: seq<Handler>, oid: Oid, v: Value)
    requires forall k :: 0 <= k < |hs| ==> Lookup(CellsOf(hs[k]), oid).None?
    ensures Update(AllCells(hs), oid, v) == AllCells(hs)
  {
    NowhereFound(hs, oid);
    UpdateAbsent(AllCells(hs), oid, v);
  }

  lemma SeparatedByShape(hs: seq<Handler>, ks: seq<Handler>)
    requires SameShapes(hs, ks) && Separated(hs)
    ensures Separated(ks)
  {
    forall i | 0 <= i < |ks| ensures UnderRoot(ks[i]) {
      assert UnderRoot(hs[i]);
    }
  }

  lemma CommitIsWrite(hs: seq<Handler>, vb: VarBind)
    requires Separated(hs)
    ensures CommitOne(hs, vb).1 == NoError ==> AllCells(CommitOne(hs, vb).0) == Update(AllCells(hs), vb.oid, vb.value)
    ensures CommitOne(hs, vb).1 != NoError ==> CommitOne(hs, vb).0 == hs
  {
    match OwnerOf(hs, vb.oid)
    case None =>
    case Some(i) =>
      CommitUpdates(hs[i], vb.oid, vb.value);
      if CommitOne(hs, vb).1 == NoError {
        forall k | 0 <= k < |hs| && k != i ensures Lookup(CellsOf(hs[k]), vb.oid).None? {
          NotOwnersMiss(hs, vb.oid, k);
        }
        UpdateAcross(hs, i, Commit(hs[i], vb.oid, vb.value).0, vb.oid, vb.value);
      } else {
        assert hs[i := hs[i]] == hs;
      }
  }

  /** The bindings whose commit goes through. */
  function Committed(hs: seq<Handler>, vbs: seq<VarBind>): seq<VarBind> {
    Filter(vbs, (vb: VarBind) => CommitOne(hs, vb).1 == NoError)
  }

  lemma CommittedStep(hs: seq<Handler>, vbs: seq<VarBind>, vb: VarBind)
    ensures Committed(hs, vbs + [vb])
         == if CommitOne(hs, vb).1 == NoError then Committed(hs, vbs) + [vb] else Committed(hs, vbs)
  {
    FilterConcat(vbs, [vb], (b: VarBind) => CommitOne(hs, b).1 == NoError);
  }

  lemma ApplyOneMore(s: seq<VarBind>, ws: seq<VarBind>, w: VarBind)
    ensures ApplyWrites(s, ws + [w]) == Update(ApplyWrites(s, ws), w.oid, w.value)
  {
    assert (ws + [w])[..|ws|] == ws;
  }

  lemma CommitStepIsWrite(hs: seq<Handler>, vbs: seq<VarBind>, n: nat)
    requires Separated(hs) && n < |vbs|
    ensures var before := AllCells(CommitTo(hs, vbs, n));
      AllCells(CommitTo(hs, vbs, n + 1))
        == if CommitOne(hs, vbs[n]).1 == NoError then Update(before, vbs[n].oid, vbs[n].value) else before
  {
    CommitToKeepsShapes(hs, vbs, n);
    SeparatedByShape(hs, CommitTo(hs, vbs, n));
    CommitIsWrite(CommitTo(hs, vbs, n), vbs[n]);
    CommitStatusIsFixed(hs, vbs, n);
  }

  lemma CommittedPrefix(hs: seq<Handler>, vbs: seq<VarBind>, n: nat)
    requires n < |vbs|
    ensures Committed(hs, vbs[..n + 1])
         == if CommitOne(hs, vbs[n]).1 == NoError then Committed(hs, vbs[..n]) + [vbs[n]] else Committed(hs, vbs[..n])
  {
    assert vbs[..n + 1] == vbs[..n] + [vbs[n]];
    CommittedStep(hs, vbs[..n], vbs[n]);
  }

  lemma WritesStep(hs: seq<Handler>, vbs: seq<VarBind>, n: nat)
    requires n < |vbs|
    ensures var before := ApplyWrites(AllCells(hs), Committed(hs, vbs[..n]));
      ApplyWrites(AllCells(hs), Committed(hs, vbs[..n + 1]))
        == if CommitOne(hs, vbs[n]).1 == NoError then Update(before, vbs[n].oid, vbs[n].value) else before
  {
    CommittedPrefix(hs, vbs, n);
    ApplyOneMore(AllCells(hs), Committed(hs, vbs[..n]), vbs[n]);
  }

  lemma SameUpdate(a: seq<VarBind>, a': seq<VarBind>, b: seq<VarBind>, b': seq<VarBind>, w: bool, vb: VarBind)
    requires a == b && a' == (if w then Update(a, vb.oid, vb.value) else a) && b' == (if w then Update(b, vb.oid, vb.value) else b)
    ensures a' == b'
  {
  }

  /** The whole commit phase is one sequence of writes, in request order. */
  lemma {:induction false} CommitsAreWrites(hs: seq<Handler>, vbs: seq<VarBind>, n: nat)
    requires Separated(hs) && n <= |vbs|
    ensures AllCells(CommitTo(hs, vbs, n)) == ApplyWrites(AllCells(hs), Committed(hs, vbs[..n]))
  {
    if n == 0 {
      assert vbs[..0] == [];
    } else {
      var m := n - 1;
      CommitsAreWrites(hs, vbs, m);
      CommitStepIsWrite(hs, vbs, m);
      WritesStep(hs, vbs, m);
      var w := CommitOne(hs, vbs[m]).1 == NoError;
      SameUpdate(AllCells(CommitTo(hs, vbs, m)), AllCells(CommitTo(hs, vbs, n)),
                 ApplyWrites(AllCells(hs), Committed(hs, vbs[..m])), ApplyWrites(AllCells(hs), Committed(hs, vbs[..n])), w, vbs[m]);
    }
  }

  // ----- The transaction -----

  ghost predicate AllReserved(hs: seq<Handler>, vbs: seq<VarBind>) {
    forall k :: 0 <= k < |vbs| ==> ReserveStatus(hs, vbs[k]) == NoError
  }

  /** The binding goes to a provider-backed, read-only handler. */
  predicate ToProvider(hs: seq<Handler>, vb: VarBind) {
    var o := OwnerOf(hs, vb.oid);
    o.Some? && hs[o.value].Provided?
  }

  lemma ReservedCommitStatus(hs: seq<Handler>, vbs: seq<VarBind>, k: nat)
    requires AllReserved(hs, vbs) && k < |vbs|
    ensures CommitStatus(hs, vbs, k) == CommitOne(hs, vbs[k]).1
    ensures CommitOne(hs, vbs[k]).1 == if ToProvider(hs, vbs[k]) then NotWritable else NoError
  {
    CommitStatusIsFixed(hs, vbs, k);
    assert ReserveStatus(hs, vbs[k]) == NoError;
    PreparedCommits(hs[OwnerOf(hs, vbs[k].oid).value], vbs[k].oid, vbs[k].value);
  }

  /** A refused reservation changes nothing, and the reply carries the first
      refused binding's status and index. */
  lemma RefusedSet(hs: seq<Handler>, vbs: seq<VarBind>)
    requires !AllReserved(hs, vbs)
    ensures var out := SetEffect(hs, vbs);
      && out.handlers == hs && 1 <= out.index <= |vbs|
      && out.status == ReserveStatus(hs, vbs[out.index - 1]) && out.status != NoError
      && forall k :: 0 <= k < out.index - 1 ==> ReserveStatus(hs, vbs[k]) == NoError
  {
    FirstRefusalIsFirst(hs, vbs, 0);
  }

  /** Once everything is reserved, every binding not addressed to a provider is
      written, in request order. The reply is noError exactly when no binding
      went to a provider, and else notWritable at the first that did. */
  lemma ReservedSet(hs: seq<Handler>, vbs: seq<VarBind>)
    requires Separated(hs) && AllReserved(hs, vbs)
    ensures var out := SetEffect(hs, vbs);
      && out.handlers == CommitTo(hs, vbs, |vbs|)
      && AllCells(out.handlers) == ApplyWrites(AllCells(hs), Committed(hs, vbs))
      && if forall k :: 0 <= k < |vbs| ==> !ToProvider(hs, vbs[k])
         then out.status == NoError && out.index == 0
         else && out.status == NotWritable && 1 <= out.index <= |vbs| && ToProvider(hs, vbs[out.index - 1])
              && forall k :: 0 <= k < out.index - 1 ==> !ToProvider(hs, vbs[k])
  {
    FirstRefusalIsFirst(hs, vbs, 0);
    CommitsAreWrites(hs, vbs, |vbs|);
    assert vbs[..|vbs|] == vbs;
    ReservedStatus(hs, vbs);
  }

  lemma ReservedStatus(hs: seq<Handler>, vbs: seq<VarBind>)
    requires AllReserved(hs, vbs)
    ensures match FirstCommitFailure(hs, vbs, 0)
            case None => forall k :: 0 <= k < |vbs| ==> !ToProvider(hs, vbs[k])
            case Some(i) =>
              && ToProvider(hs, vbs[i]) && CommitStatus(hs, vbs, i) == NotWritable
              && forall k :: 0 <= k < i ==> !ToProvider(hs, vbs[k])
  {
    FirstCommitFailureIsFirst(hs, vbs, 0);
    forall k | 0 <= k < |vbs|
      ensures CommitStatus(hs, vbs, k) == if ToProvider(hs, vbs[k]) then NotWritable else NoError
    {
      ReservedCommitStatus(hs, vbs, k);
    }
  }

  /** All or nothing: with disjoint subtrees and no binding addressed to a
      provider, either all writes are applied in request order, or nothing
      changes and the reply names the first refused binding. */
  lemma SetIsAllOrNothing(hs: seq<Handler>, vbs: seq<VarBind>)
    requires Separated(hs) && forall k :: 0 <= k < |vbs| ==> !ToProvider(hs, vbs[k])
    ensures var out := SetEffect(hs, vbs);
      if AllReserved(hs, vbs)
      then out.status == NoError && out.index == 0 && AllCells(out.handlers) == ApplyWrites(AllCells(hs), vbs)
      else && out.handlers == hs && 1 <= out.index <= |vbs|
           && out.status == ReserveStatus(hs, vbs[out.index - 1]) && out.status != NoError
           && forall k :: 0 <= k < out.index - 1 ==> ReserveStatus(hs, vbs[k]) == NoError
  {
    if AllReserved(hs, vbs) {
      ReservedSet(hs, vbs);
      forall k | 0 <= k < |vbs| ensures CommitOne(hs, vbs[k]).1 == NoError {
        ReservedCommitStatus(hs, vbs, k);
      }
      KeepAll(vbs, (vb: VarBind) => CommitOne(hs, vb).1 == NoError);
    } else {
      RefusedSet(hs, vbs);
    }
  }

  lemma {:induction false} KeepAll(vbs: seq<VarBind>, keep: VarBind -> bool)
    requires forall k :: 0 <= k < |vbs| ==> keep(vbs[k])
    ensures Filter(vbs, keep) == vbs
  {
    if vbs != [] {
      KeepAll(vbs[1..], keep);
    }
  }

  /** The failure: a writable scalar is changed although the reply reports an
      error, because the provider-backed handler accepts the reservation. */
  lemma SetCanBeTorn() returns (hs: seq<Handler>, vbs: seq<VarBind>)
    ensures Separated(hs) && AllReserved(hs, vbs)
    ensures hs == [Scalar([1, 1], Integer(1), true), Provided([1, 2], [])]
    ensures SetEffect(hs, vbs).status == NotWritable && SetEffect(hs, vbs).index == 2
    ensures SetEffect(hs, vbs).handlers[..] == [Scalar([1, 1], Integer(2), true), Provided([1, 2], [])]
  {
    hs := [Scalar([1, 1], Integer(1), true), Provided([1, 2], [])];
    var mid := [Scalar([1, 1], Integer(2), true), Provided([1, 2], [])];
    vbs := [VarBind([1, 1, 0], Integer(2)), VarBind([1, 2, 0], Integer(5))];
    TornOwners(hs, vbs);
    TornOwners(mid, vbs);
    TornCommits(hs, mid, vbs);
    assert IsPrefix([1, 1], [1, 1, 0]) by { assert [1, 1, 0][..2] == [1, 1]; }
  }

  lemma {:induction false} TornCommits(hs: seq<Handler>, mid: seq<Handler>, vbs: seq<VarBind>)
    requires |hs| == |mid| == |vbs| == 2
    requires hs[0] == Scalar([1, 1], Integer(1), true) && mid[0] == Scalar([1, 1], Integer(2), true)
    requires hs[1] == mid[1] == Provided([1, 2], [])
    requires vbs[0] == VarBind([1, 1, 0], Integer(2)) && vbs[1] == VarBind([1, 2, 0], Integer(5))
    requires OwnerOf(hs, vbs[0].oid) == Some(0) && OwnerOf(hs, vbs[1].oid) == Some(1)
    requires OwnerOf(mid, vbs[1].oid) == Some(1)
    ensures AllReserved(hs, vbs) && SetEffect(hs, vbs) == SetOutcome(mid, NotWritable, 2)
  {
    assert Child([1, 1], 0) == [1, 1, 0];
    assert hs[0 := mid[0]] == mid;
    assert mid[1 := mid[1]] == mid;
    assert CommitOne(hs, vbs[0]) == (mid, NoError);
    assert CommitOne(mid, vbs[1]) == (mid, NotWritable);
    assert CommitTo(hs, vbs, 0) == hs && CommitTo(hs, vbs, 1) == mid && CommitTo(hs, vbs, 2) == mid;
    assert ReserveStatus(hs, vbs[0]) == NoError && ReserveStatus(hs, vbs[1]) == NoError;
    assert CommitStatus(hs, vbs, 0) == NoError && CommitStatus(hs, vbs, 1) == NotWritable;
    FirstRefusalIsFirst(hs, vbs, 0);
    FirstCommitFailureIsFirst(hs, vbs, 0);
  }

  lemma {:induction false} TornOwners(hs: seq<Handler>, vbs: seq<VarBind>)
    requires |hs| == |vbs| == 2 && hs[0].root == [1, 1] && hs[1].root == [1, 2]
    requires vbs[0].oid == [1, 1, 0] && vbs[1].oid == [1, 2, 0]
    ensures OwnerOf(hs, vbs[0].oid) == Some(0) && OwnerOf(hs, vbs[1].oid) == Some(1)
    ensures DisjointRoots(hs)
  {
    assert [1, 1, 0][..2] == [1, 1] && [1, 2, 0][..2] == [1, 2];
    assert [1, 1][..2] == [1, 1] && [1, 2][..2] == [1, 2];
    assert [1, 1][1] != [1, 2][1];
  }

  /** A binding that really changes something: it is stored, it is the last one
      for its OID, and it differs from what GET returns. */
  ghost predicate Changes(hs: seq<Handler>, vbs: seq<VarBind>, k: nat) {
    && k < |vbs| && !ToProvider(hs, vbs[k])
    && (forall j :: k < j < |vbs| ==> vbs[j].oid != vbs[k].oid)
    && DoGet(hs, vbs[k].oid) != vbs[k].value
  }

  lemma {:induction false} LastWriteOfLast(ws: seq<VarBind>, k: nat)
    requires k < |ws| && forall j :: k < j < |ws| ==> ws[j].oid != ws[k].oid
    ensures LastWrite(ws, ws[k].oid) == Some(ws[k].value)
  {
    if k < |ws| - 1 {
      LastWriteOfLast(ws[..|ws| - 1], k);
    }
  }

  /** Among committed bindings the last write to an OID is the last one of the
      request, unless the OID belongs to a provider. */
  lemma {:induction false} CommittedLastWrite(hs: seq<Handler>, vbs: seq<VarBind>, oid: Oid)
    requires AllReserved(hs, vbs)
    ensures LastWrite(Committed(hs, vbs), oid)
         == if ToProvider(hs, VarBind(oid, Null)) then None else LastWrite(vbs, oid)
  {
    if vbs != [] {
      var n := |vbs| - 1;
      assert vbs == vbs[..n] + [vbs[n]];
      assert AllReserved(hs, vbs[..n]);
      CommittedLastWrite(hs, vbs[..n], oid);
      CommittedStep(hs, vbs[..n], vbs[n]);
      ReservedCommitStatus(hs, vbs, n);
      var ws := Committed(hs, vbs[..n]);
      assert (ws + [vbs[n]])[..|ws|] == ws;
    }
  }

  lemma {:induction false} SameCellsSameHandlers(hs: seq<Handler>, ks: seq<Handler>)
    requires SameShapes(hs, ks) && AllCells(hs) == AllCells(ks)
    ensures hs == ks
  {
    if hs != [] {
      var n := |CellsOf(hs[0])|;
      assert SameShape(hs[0], ks[0]);
      assert CellsOf(hs[0]) == AllCells(hs)[..n] == CellsOf(ks[0]);
      assert AllCells(hs[1..]) == AllCells(hs)[n..] == AllCells(ks[1..]);
      assert hs[0] == ks[0] by {
        if hs[0].Scalar? {
          assert CellsOf(hs[0])[0] == CellsOf(ks[0])[0];
        }
      }
      SameCellsSameHandlers(hs[1..], ks[1..]);
      assert hs == [hs[0]] + hs[1..] && ks == [ks[0]] + ks[1..];
    }
  }

  /** The value a reserved binding replaces: it exists, GET shows it, and it has
      the binding's type. */
  lemma ReservedTarget(hs: seq<Handler>, vb: VarBind)
    requires ProperMib(hs) && ReserveStatus(hs, vb) == NoError && !ToProvider(hs, vb)
    ensures Lookup(AllCells(hs), vb.oid) == Some(DoGet(hs, vb.oid))
    ensures TypesCompatible(DoGet(hs, vb.oid), vb.value)
  {
    var i := OwnerOf(hs, vb.oid).value;
    PreparedCommits(hs[i], vb.oid, vb.value);
    forall k | 0 <= k < |hs| && k != i ensures Lookup(CellsOf(hs[k]), vb.oid).None? {
      NotOwnersMiss(hs, vb.oid, k);
    }
    LookupAcross(hs, vb.oid, i);
  }

  /** What cell i holds after a fully reserved SET. */
  lemma CellAfterSet(hs: seq<Handler>, vbs: seq<VarBind>, i: nat)
    requires ProperMib(hs) && AllReserved(hs, vbs) && i < |AllCells(hs)|
    ensures var s, t := AllCells(hs), AllCells(CommitTo(hs, vbs, |vbs|));
      && |t| == |s|
      && t[i] == (if !ToProvider(hs, VarBind(s[i].oid, Null)) && LastWrite(vbs, s[i].oid).Some?
                  then VarBind(s[i].oid, LastWrite(vbs, s[i].oid).value) else s[i])
  {
    CommitsAreWrites(hs, vbs, |vbs|);
    assert vbs[..|vbs|] == vbs;
    ApplyWritesAt(AllCells(hs), Committed(hs, vbs), i);
    CommittedLastWrite(hs, vbs, AllCells(hs)[i].oid);
  }

  lemma UnchangedCell(hs: seq<Handler>, vbs: seq<VarBind>, i: nat)
    requires ProperMib(hs) && AllReserved(hs, vbs) && i < |AllCells(hs)|
    requires forall k: nat :: !Changes(hs, vbs, k)
    ensures |AllCells(CommitTo(hs, vbs, |vbs|))| == |AllCells(hs)|
    ensures AllCells(CommitTo(hs, vbs, |vbs|))[i] == AllCells(hs)[i]
  {
    var c := AllCells(hs)[i];
    CellAfterSet(hs, vbs, i);
    if !ToProvider(hs, VarBind(c.oid, Null)) && LastWrite(vbs, c.oid).Some? {
      var k := LastWriteSpec(vbs, c.oid);
      assert !Changes(hs, vbs, k);
      MibIsOrdered(hs);
      LookupOfCell(AllCells(hs), i);
      ReservedTarget(hs, vbs[k]);
    }
  }

  /** A reserved SET leaves all handlers as they are exactly when no binding
      really changes something. */
  lemma CommitsChangeIff(hs: seq<Handler>, vbs: seq<VarBind>)
    requires ProperMib(hs) && AllReserved(hs, vbs)
    ensures CommitTo(hs, vbs, |vbs|) == hs <==> forall k: nat :: !Changes(hs, vbs, k)
  {
    if k: nat :| Changes(hs, vbs, k) {
      ChangeShows(hs, vbs, k);
    } else {
      var t := AllCells(CommitTo(hs, vbs, |vbs|));
      ReservedSet(hs, vbs);
      ApplyKeepsLength(AllCells(hs), Committed(hs, vbs));
      forall i | 0 <= i < |t| ensures t[i] == AllCells(hs)[i] {
        UnchangedCell(hs, vbs, i);
      }
      CommitToKeepsShapes(hs, vbs, |vbs|);
      SameCellsSameHandlers(hs, CommitTo(hs, vbs, |vbs|));
    }
  }

  lemma {:induction false} ApplyKeepsLength(s: seq<VarBind>, ws: seq<VarBind>)
    ensures |ApplyWrites(s, ws)| == |s|
  {
    if ws != [] {
      ApplyKeepsLength(s, ws[..|ws| - 1]);
    }
  }

  lemma ChangeShows(hs: seq<Handler>, vbs: seq<VarBind>, k: nat)
    requires ProperMib(hs) && AllReserved(hs, vbs) && Changes(hs, vbs, k)
    ensures CommitTo(hs, vbs, |vbs|) != hs
  {
    var s := AllCells(hs);
    ReservedTarget(hs, vbs[k]);
    LookupSpec(s, vbs[k].oid);
    var i :| 0 <= i < |s| && s[i] == VarBind(vbs[k].oid, DoGet(hs, vbs[k].oid));
    CellAfterSet(hs, vbs, i);
    LastWriteOfLast(vbs, k);
  }

  /** Exactly when a SET is atomic: an error reply leaves every handler as it
      was, unless the whole request was reserved, one binding went to a provider
      and another one really changes something. */
  lemma SetIsAtomicIff(hs: seq<Handler>, vbs: seq<VarBind>)
    requires ProperMib(hs)
    ensures (SetEffect(hs, vbs).status != NoError ==> SetEffect(hs, vbs).handlers == hs)
       <==> !(&& AllReserved(hs, vbs)
              && (exists k :: 0 <= k < |vbs| && ToProvider(hs, vbs[k]))
              && (exists k: nat :: Changes(hs, vbs, k)))
  {
    if AllReserved(hs, vbs) {
      ReservedSet(hs, vbs);
      CommitsChangeIff(hs, vbs);
    } else {
      RefusedSet(hs, vbs);
    }
  }

  // ----- Runs of SETs -----

  ghost predicate SameTypes(s: seq<VarBind>, t: seq<VarBind>) {
    |s| == |t| && forall i :: 0 <= i < |s| ==> s[i].oid == t[i].oid && TypeOf(s[i].value) == TypeOf(t[i].value)
  }

  lemma CellKeepsType(hs: seq<Handler>, vbs: seq<VarBind>, i: nat)
    requires ProperMib(hs) && AllReserved(hs, vbs) && i < |AllCells(hs)|
    ensures var s, t := AllCells(hs), AllCells(CommitTo(hs, vbs, |vbs|));
      && |t| == |s| && t[i].oid == s[i].oid && TypeOf(t[i].value) == TypeOf(s[i].value)
      && !IsException(t[i].value)
  {
    var s := AllCells(hs);
    MibIsOrdered(hs);
    CellAfterSet(hs, vbs, i);
    LookupOfCell(s, i);
    var k := LastWriteSpec(vbs, s[i].oid);
    if !ToProvider(hs, VarBind(s[i].oid, Null)) && LastWrite(vbs, s[i].oid).Some? {
      ReservedTarget(hs, vbs[k]);
      CompatibleIsSameType(s[i].value, vbs[k].value);
    }
  }

  lemma ProperByShape(hs: seq<Handler>, ks: seq<Handler>)
    requires ProperMib(hs) && SameShapes(hs, ks) && Ordinary(AllCells(ks))
    ensures ProperMib(ks)
  {
    forall i | 0 <= i < |ks| ensures WellFormed(ks[i]) {
      assert WellFormed(hs[i]) && SameShape(hs[i], ks[i]);
      forall c | c in CellsOf(ks[i]) ensures !IsException(c.value) {
        CellHasHandler(ks, c);
        assert c in AllCells(ks);
      }
    }
  }

  lemma SetKeepsTypes(hs: seq<Handler>, vbs: seq<VarBind>)
    requires ProperMib(hs)
    ensures ProperMib(SetEffect(hs, vbs).handlers)
    ensures SameTypes(AllCells(hs), AllCells(SetEffect(hs, vbs).handlers))
  {
    if AllReserved(hs, vbs) {
      var ks := CommitTo(hs, vbs, |vbs|);
      ReservedSet(hs, vbs);
      ApplyKeepsLength(AllCells(hs), Committed(hs, vbs));
      forall i | 0 <= i < |AllCells(hs)|
        ensures AllCells(ks)[i].oid == AllCells(hs)[i].oid
        ensures TypeOf(AllCells(ks)[i].value) == TypeOf(AllCells(hs)[i].value)
        ensures !IsException(AllCells(ks)[i].value)
      {
        CellKeepsType(hs, vbs, i);
      }
      CommitToKeepsShapes(hs, vbs, |vbs|);
      ProperByShape(hs, ks);
    } else {
      RefusedSet(hs, vbs);
    }
  }

  function RunSets(hs: seq<Handler>, requests: seq<seq<VarBind>>): seq<Handler>
    decreases |requests|
  {
    if requests == [] then hs else RunSets(SetEffect(hs, requests[0]).handlers, requests[1..])
  }

  /** Over every run of SETs, successful or not, the MIB stays proper, the same
      instances exist in the same order and each keeps its SMI type. */
  lemma {:induction false} RunsKeepTypes(hs: seq<Handler>, requests: seq<seq<VarBind>>)
    requires ProperMib(hs)
    ensures ProperMib(RunSets(hs, requests))
    ensures SameTypes(AllCells(hs), AllCells(RunSets(hs, requests)))
    decreases |requests|
  {
    if requests != [] {
      SetKeepsTypes(hs, requests[0]);
      RunsKeepTypes(SetEffect(hs, requests[0]).handlers, requests[1..]);
    }
  }
}
