/** The registry: a list of handler objects kept sorted by root, and the
    processing of GET, GETNEXT, GETBULK and SET requests over it
    (crates/netsnmp-agent/src/registry.rs). */
module Registries {
  import opened Oids
  import opened Values
  import opened StableSort
  import opened Cells
  import opened Handlers
  import opened Routing
  import opened SetTransactions

  datatype PduKind = GetRequest | GetNextRequest | GetBulkRequest | SetRequest | Response | OtherPdu

  /** For GETBULK the error fields carry non-repeaters and max-repetitions. */
  datatype Pdu = Pdu(kind: PduKind, requestId: i32, errorStatus: i64, errorIndex: i64, variables: seq<VarBind>)

  /** The caller's access rights. Without VACM everything is allowed; otherwise
      the decision for an OID is whatever the view tables say. */
  datatype Security = Permissive | Views(read: Oid -> bool, write: Oid -> bool)

  predicate MayRead(sec: Security, oid: Oid) {
    sec.Permissive? || sec.read(oid)
  }

  predicate MayWrite(sec: Security, oid: Oid) {
    sec.Permissive? || sec.write(oid)
  }

  function ReadView(sec: Security): Oid -> bool {
    (oid: Oid) => MayRead(sec, oid)
  }

  function NonNegative(x: int): nat {
    if x < 0 then 0 else x
  }

  function Denies(vbs: seq<VarBind>, may: Oid -> bool): nat -> bool {
    (k: nat) => k < |vbs| && !may(vbs[k].oid)
  }

  /** The first binding the caller may not touch. */
  function FirstDenied(vbs: seq<VarBind>, may: Oid -> bool, i: nat): (r: Option<nat>)
    requires i <= |vbs|
    ensures r.Some? ==> i <= r.value < |vbs| && !may(vbs[r.value].oid)
  {
    FirstFrom(Denies(vbs, may), i, |vbs|)
  }

  ghost function GetAll(hs: seq<Handler>, vbs: seq<VarBind>): seq<VarBind> {
    seq(|vbs|, i requires 0 <= i < |vbs| => VarBind(vbs[i].oid, DoGet(hs, vbs[i].oid)))
  }

  function ByRoot(): (Handler, Handler) -> bool {
    (a: Handler, b: Handler) => AtMost(a.root, b.root)
  }

  lemma ByRootIsPreorder()
    ensures Preorder(ByRoot())
  {
    forall x: Handler, y: Handler ensures ByRoot()(x, y) || ByRoot()(y, x) {
      LessTotal(x.root, y.root);
    }
    forall x: Handler, y: Handler, z: Handler | ByRoot()(x, y) && ByRoot()(y, z) ensures ByRoot()(x, z) {
      AtMostTransitive(x.root, y.root, z.root);
    }
  }

  /** Where a push and a stable sort put a new handler. */
  lemma {:induction false} InsertLastAt(x: Handler, s: seq<Handler>, k: nat)
    requires k <= |s|
    requires forall i :: 0 <= i < k ==> AtMost(s[i].root, x.root)
    requires k < |s| ==> !AtMost(s[k].root, x.root)
    ensures InsertLast(x, s, ByRoot()) == s[..k] + [x] + s[k..]
  {
    if k > 0 {
      InsertLastAt(x, s[1..], k - 1);
      assert s[..k] == [s[0]] + s[1..][..k - 1];
      assert s[1..][k - 1..] == s[k..];
    } else {
      assert s[..0] == [] && s[0..] == s;
    }
  }

  /** A push and a stable sort on a sorted list insert at one place. */
  lemma SortInserts(hs: seq<Handler>, h: Handler, k: nat)
    requires RootsSorted(hs) && k <= |hs|
    requires forall i :: 0 <= i < k ==> AtMost(hs[i].root, h.root)
    requires k < |hs| ==> !AtMost(hs[k].root, h.root)
    ensures Sort(hs + [h], ByRoot()) == hs[..k] + [h] + hs[k..]
  {
    ByRootIsPreorder();
    SortAppend(hs, h, ByRoot());
    assert Sorted(hs, ByRoot());
    SortOfSorted(hs, ByRoot());
    InsertLastAt(h, hs, k);
  }

  lemma SortedByRoot(hs: seq<Handler>)
    ensures RootsSorted(Sort(hs, ByRoot()))
  {
    ByRootIsPreorder();
    SortSorts(hs, ByRoot());
    var r := Sort(hs, ByRoot());
    forall i, j | 0 <= i < j < |r| ensures AtMost(r[i].root, r[j].root) {
      assert ByRoot()(r[i], r[j]);
    }
  }

  lemma InsertKeepsDisjoint(hs: seq<Handler>, h: Handler, k: nat)
    requires DisjointRoots(hs) && k <= |hs|
    requires forall i :: 0 <= i < |hs| ==> !IsPrefix(hs[i].root, h.root) && !IsPrefix(h.root, hs[i].root)
    ensures DisjointRoots(hs[..k] + [h] + hs[k..])
  {
    var r := hs[..k] + [h] + hs[k..];
    assert forall i :: 0 <= i < k ==> r[i] == hs[i];
    assert forall i :: k < i < |r| ==> r[i] == hs[i - 1];
  }

  /** A new subtree that passes the overlap test keeps the MIB proper. */
  lemma RegisterKeepsProper(hs: seq<Handler>, h: Handler)
    requires ProperMib(hs) && WellFormed(h)
    requires forall i :: 0 <= i < |hs| ==> !IsPrefix(hs[i].root, h.root) && !IsPrefix(h.root, hs[i].root)
    ensures ProperMib(Sort(hs + [h], ByRoot()))
  {
    SortedByRoot(hs + [h]);
    SortPermutes(hs + [h], ByRoot());
    var r := Sort(hs + [h], ByRoot());
    forall i | 0 <= i < |r| ensures WellFormed(r[i]) {
      assert r[i] in r;
    }
    var k := RootPosition(hs, h.root);
    SortInserts(hs, h, k);
    InsertKeepsDisjoint(hs, h, k);
  }

  lemma RootPosition(hs: seq<Handler>, root: Oid) returns (k: nat)
    ensures k <= |hs|
    ensures forall i :: 0 <= i < k ==> AtMost(hs[i].root, root)
    ensures k < |hs| ==> !AtMost(hs[k].root, root)
  {
    k := 0;
    while k < |hs| && AtMost(hs[k].root, root)
      invariant 0 <= k <= |hs|
      invariant forall i :: 0 <= i < k ==> AtMost(hs[i].root, root)
    {
      k := k + 1;
    }
  }

  /** The full reply to a request, and the handlers it leaves behind. */
  ghost function Answer(hs: seq<Handler>, request: Pdu, sec: Security): (Pdu, seq<Handler>) {
    var vbs := request.variables;
    var reply := (vs: seq<VarBind>) => Pdu(Response, request.requestId, 0, 0, vs);
    match request.kind
    case GetRequest =>
      (match FirstDenied(vbs, ReadView(sec), 0)
       case Some(k) => (Refusal(request, NoAccess, k + 1), hs)
       case None => (reply(GetAll(hs, vbs)), hs))
    case GetNextRequest =>
      (reply(Row(Filtered(AllCells(hs), ReadView(sec)), OidsOf(vbs))), hs)
    case GetBulkRequest =>
      var next := if sec.Permissive? then Plain(AllCells(hs)) else Filtered(AllCells(hs), ReadView(sec));
      (reply(BulkReply(next, OidsOf(vbs), NonNegative(request.errorStatus), NonNegative(request.errorIndex))), hs)
    case SetRequest =>
      (match FirstDenied(vbs, WriteView(sec), 0)
       case Some(k) => (Refusal(request, NoAccess, k + 1), hs)
       case None =>
         var out := SetEffect(hs, vbs);
         (Refusal(request, out.status, out.index), out.handlers))
    case _ => (Pdu(Response, request.requestId, Code(GenErr), 0, []), hs)
  }

  function WriteView(sec: Security): Oid -> bool {
    (oid: Oid) => MayWrite(sec, oid)
  }

  /** A reply that echoes the request bindings under a status and an index. */
  function Refusal(request: Pdu, status: ErrorStatus, index: nat): Pdu {
    Pdu(Response, request.requestId, Code(status), IndexCode(index), request.variables)
  }

  /** A 1-based error index on the wire (`as i64`). */
  function IndexCode(index: nat): i64 {
    if index < 0x8000_0000_0000_0000 then index
    else (index + 0x8000_0000_0000_0000) % 0x1_0000_0000_0000_0000 - 0x8000_0000_0000_0000
  }

  /** `failed` and `status` describe the first failure among the first i
      commits. */
  ghost predicate FailedSoFar(hs: seq<Handler>, vbs: seq<VarBind>, i: nat, failed: Option<nat>, status: ErrorStatus)
    requires i <= |vbs|
  {
    match failed
    case None => status == NoError && FirstCommitFailure(hs, vbs, 0) == FirstCommitFailure(hs, vbs, i)
    case Some(k) => k < |vbs| && status == CommitStatus(hs, vbs, k) && FirstCommitFailure(hs, vbs, 0) == failed
  }

  /** One round of the commit loop. */
  lemma FailureStep(hs: seq<Handler>, vbs: seq<VarBind>, i: nat, failed: Option<nat>, status: ErrorStatus)
    requires i < |vbs| && FailedSoFar(hs, vbs, i, failed, status)
    ensures var outcome := CommitStatus(hs, vbs, i);
      if failed.None? && outcome != NoError then FailedSoFar(hs, vbs, i + 1, Some(i), outcome)
      else FailedSoFar(hs, vbs, i + 1, failed, status)
  {
  }

  /** After the last commit. */
  lemma FailureAtEnd(hs: seq<Handler>, vbs: seq<VarBind>, failed: Option<nat>, status: ErrorStatus)
    requires FailedSoFar(hs, vbs, |vbs|, failed, status)
    ensures failed == FirstCommitFailure(hs, vbs, 0)
    ensures status == if failed.Some? then CommitStatus(hs, vbs, failed.value) else NoError
  {
  }

  lemma RowPush(next: Oid -> VarBind, cursors: seq<Oid>, j: nat)
    requires j < |cursors|
    ensures Row(next, cursors[..j + 1]) == Row(next, cursors[..j]) + [next(cursors[j])]
  {
  }

  lemma AllEndedPush(row: seq<VarBind>, vb: VarBind)
    ensures AllEnded(row + [vb]) <==> AllEnded(row) && vb.value == EndOfMibView
  {
    var r := row + [vb];
    assert r[|row|] == vb;
    assert forall j :: 0 <= j < |row| ==> r[j] == row[j];
  }

  /** Going on from these cursors for `left` rounds, with `out` already out, ends
      with the whole reply. */
  ghost predicate AddsUp(next: Oid -> VarBind, out: seq<VarBind>, cursors: seq<Oid>, left: nat, whole: seq<VarBind>)
    decreases left
  {
    if left == 0 then out == whole
    else
      var row := Row(next, cursors);
      if AllEnded(row) then out + row == whole else AddsUp(next, out + row, OidsOf(row), left - 1, whole)
  }

  lemma {:induction false} AddsUpToReply(next: Oid -> VarBind, out: seq<VarBind>, cursors: seq<Oid>, left: nat)
    ensures AddsUp(next, out, cursors, left, out + BulkRows(next, cursors, left))
    decreases left
  {
    if left == 0 {
      assert out + [] == out;
    } else {
      var row := Row(next, cursors);
      var later := BulkRows(next, OidsOf(row), left - 1);
      AddsUpToReply(next, out + row, OidsOf(row), left - 1);
      assert out + row + later == out + (row + later);
    }
  }

  lemma SpliceDistinct(hs: seq<MibHandler>, h: MibHandler, k: nat)
    requires k <= |hs| && h !in hs && forall i, j :: 0 <= i < j < |hs| ==> hs[i] != hs[j]
    ensures var r := hs[..k] + [h] + hs[k..];
      && (forall i, j :: 0 <= i < j < |r| ==> r[i] != r[j])
      && multiset(r) == multiset(hs) + multiset{h}
  {
    assert hs == hs[..k] + hs[k..];
  }

  class Registry {
    var handlers: seq<MibHandler>

    /** The states of the handlers, in list order. */
    ghost var view: seq<Handler>

    /** Distinct handler objects, sorted by root. */
    ghost predicate Valid()
      reads this, handlers
    {
      && |view| == |handlers|
      && (forall i, j :: 0 <= i < j < |handlers| ==> handlers[i] != handlers[j])
      && (forall i :: 0 <= i < |handlers| ==> handlers[i].Valid() && handlers[i].state == view[i])
      && RootsSorted(view)
    }

    constructor ()
      ensures Valid() && view == []
    {
      handlers, view := [], [];
    }

    /** Push and sort by root. */
    method Register(h: MibHandler)
      requires Valid() && h.Valid() && h !in handlers
      modifies this
      ensures Valid() && multiset(handlers) == multiset(old(handlers)) + multiset{h}
      ensures view == Sort(old(view) + [h.state], ByRoot())
    {
      var k := PositionFor(h.root);
      SortInserts(view, h.state, k);
      SortedByRoot(view + [h.state]);
      SpliceDistinct(handlers, h, k);
      ghost var hs, states := handlers, view;
      handlers := handlers[..k] + [h] + handlers[k..];
      view := view[..k] + [h.state] + view[k..];
      forall i | 0 <= i < |handlers| ensures handlers[i].Valid() && handlers[i].state == view[i] {
        if i < k {
          assert handlers[i] == hs[i] && view[i] == states[i];
        } else if i > k {
          assert handlers[i] == hs[i - 1] && view[i] == states[i - 1];
        }
      }
    }

    method PositionFor(root: Oid) returns (k: nat)
      requires Valid()
      ensures k <= |handlers|
      ensures forall i :: 0 <= i < k ==> AtMost(view[i].root, root)
      ensures k < |handlers| ==> !AtMost(view[k].root, root)
    {
      k := 0;
      while k < |handlers| && AtMost(handlers[k].root, root)
        invariant 0 <= k <= |handlers|
        invariant forall i :: 0 <= i < k ==> AtMost(handlers[i].root, root)
      {
        k := k + 1;
      }
    }

    method HandlerFor(oid: Oid) returns (r: Option<nat>)
      requires Valid()
      ensures r == OwnerOf(view, oid)
    {
      r := None;
      for i := 0 to |handlers|
        invariant r == OwnerOf(view[..i], oid)
      {
        assert view[..i + 1][..i] == view[..i];
        if IsPrefix(handlers[i].root, oid)
           && (r.None? || |handlers[r.value].root| <= |handlers[i].root|) {
          r := Some(i);
        }
      }
      assert view[..|handlers|] == view;
    }

    method GetOne(oid: Oid) returns (v: Value)
      requires Valid()
      ensures v == DoGet(view, oid)
    {
      var owner := HandlerFor(oid);
      match owner
      case None => v := NoSuchObject;
      case Some(i) =>
        var got := handlers[i].Get(oid);
        v := if got.Some? then got.value else NoSuchInstance;
    }

    /** Try the handlers in order; the first with a successor answers. */
    method GetNextOne(oid: Oid) returns (vb: VarBind)
      requires Valid()
      ensures vb == NextBind(AllCells(view), oid)
    {
      for i := 0 to |handlers|
        invariant forall k :: 0 <= k < i ==> Successor(CellsOf(view[k]), oid).None?
      {
        var got := handlers[i].GetNext(oid);
        if got.Some? {
          FirstAnsweringHandler(view, oid, i);
          return got.value;
        }
      }
      FirstAnsweringHandler(view, oid, |handlers|);
      vb := VarBind(oid, EndOfMibView);
    }

    /** Walk past denied successors. */
    method GetNextAccessible(oid: Oid, allowed: Oid -> bool) returns (vb: VarBind)
      requires Valid()
      ensures vb == Filtered(AllCells(view), allowed)(oid)
    {
      ghost var cells := AllCells(view);
      var cursor := oid;
      while true
        invariant AllowedFrom(cells, allowed, cursor, oid) == AllowedFrom(cells, allowed, oid, oid)
        decreases CountAbove(cells, cursor)
      {
        var next := GetNextOne(cursor);
        if next.value == EndOfMibView {
          return VarBind(oid, EndOfMibView);
        }
        if allowed(next.oid) {
          return next;
        }
        if AtMost(next.oid, cursor) {
          return VarBind(oid, EndOfMibView);
        }
        CountAboveDrops(cells, cursor, FirstAbove(cells, cursor));
        cursor := next.oid;
      }
    }

    /** One pass over the cursors, one GETNEXT each. */
    method BulkRow(cursors: seq<Oid>) returns (row: seq<VarBind>, allEnd: bool)
      requires Valid()
      ensures row == Row(Plain(AllCells(view)), cursors) && allEnd == AllEnded(row)
    {
      row, allEnd := [], true;
      for j := 0 to |cursors|
        invariant row == Row(Plain(AllCells(view)), cursors[..j])
        invariant allEnd == AllEnded(row)
      {
        var vb := GetNextOne(cursors[j]);
        if vb.value != EndOfMibView {
          allEnd := false;
        }
        AllEndedPush(row, vb);
        RowPush(Plain(AllCells(view)), cursors, j);
        row := row + [vb];
      }
      assert cursors[..|cursors|] == cursors;
    }

    /** One round: the row, and the cursors of the next one. */
    method BulkRound(cursors: seq<Oid>, out: seq<VarBind>, ghost next: Oid -> VarBind, ghost left: nat, ghost whole: seq<VarBind>)
      returns (out': seq<VarBind>, cursors': seq<Oid>, allEnd: bool)
      requires Valid() && left > 0 && next == Plain(AllCells(view)) && AddsUp(next, out, cursors, left, whole)
      ensures if allEnd then out' == whole else AddsUp(next, out', cursors', left - 1, whole)
    {
      var row: seq<VarBind>;
      row, allEnd := BulkRow(cursors);
      out', cursors' := out + row, OidsOf(row);
    }

    /** Rows until max-repetitions or a row of endOfMibView. */
    method BulkLoop(start: seq<Oid>, reps: nat, ghost next: Oid -> VarBind, ghost whole: seq<VarBind>) returns (out: seq<VarBind>)
      requires Valid() && next == Plain(AllCells(view)) && AddsUp(next, [], start, reps, whole)
      ensures out == whole
    {
      var cursors, left := start, reps;
      out := [];
      while left > 0
        invariant AddsUp(next, out, cursors, left, whole)
      {
        var allEnd: bool;
        out, cursors, allEnd := BulkRound(cursors, out, next, left, whole);
        if allEnd {
          return;
        }
        left := left - 1;
      }
    }

    method BulkRounds(start: seq<Oid>, reps: nat) returns (out: seq<VarBind>)
      requires Valid()
      ensures out == BulkRows(Plain(AllCells(view)), start, reps)
    {
      ghost var whole := BulkRows(Plain(AllCells(view)), start, reps);
      AddsUpToReply(Plain(AllCells(view)), [], start, reps);
      assert [] + whole == whole;
      out := BulkLoop(start, reps, Plain(AllCells(view)), whole);
    }

    /** GETBULK without access control. */
    method ProcessBulk(request: Pdu) returns (out: seq<VarBind>)
      requires Valid()
      ensures out == BulkReply(Plain(AllCells(view)), OidsOf(request.variables),
                               NonNegative(request.errorStatus), NonNegative(request.errorIndex))
    {
      var oids := OidsOf(request.variables);
      var n := if NonNegative(request.errorStatus) <= |oids| then NonNegative(request.errorStatus) else |oids|;
      var once, _ := BulkRow(oids[..n]);
      var repeated := BulkRounds(oids[n..], NonNegative(request.errorIndex));
      out := once + repeated;
    }

    /** One pass over the cursors, skipping what the caller may not read. */
    method AccessibleRow(cursors: seq<Oid>, allowed: Oid -> bool) returns (row: seq<VarBind>, allEnd: bool)
      requires Valid()
      ensures row == Row(Filtered(AllCells(view), allowed), cursors) && allEnd == AllEnded(row)
    {
      row, allEnd := [], true;
      for j := 0 to |cursors|
        invariant row == Row(Filtered(AllCells(view), allowed), cursors[..j])
        invariant allEnd == AllEnded(row)
      {
        var vb := GetNextAccessible(cursors[j], allowed);
        if vb.value != EndOfMibView {
          allEnd := false;
        }
        AllEndedPush(row, vb);
        RowPush(Filtered(AllCells(view), allowed), cursors, j);
        row := row + [vb];
      }
      assert cursors[..|cursors|] == cursors;
    }

    /** One round: the row, and the cursors of the next one. */
    method AccessibleRound(cursors: seq<Oid>, allowed: Oid -> bool, out: seq<VarBind>, ghost next: Oid -> VarBind, ghost left: nat, ghost whole: seq<VarBind>)
      returns (out': seq<VarBind>, cursors': seq<Oid>, allEnd: bool)
      requires Valid() && left > 0 && next == Filtered(AllCells(view), allowed) && AddsUp(next, out, cursors, left, whole)
      ensures if allEnd then out' == whole else AddsUp(next, out', cursors', left - 1, whole)
    {
      var row: seq<VarBind>;
      row, allEnd := AccessibleRow(cursors, allowed);
      out', cursors' := out + row, OidsOf(row);
    }

    /** Rows until max-repetitions or a row of endOfMibView. */
    method AccessibleLoop(start: seq<Oid>, reps: nat, allowed: Oid -> bool, ghost next: Oid -> VarBind, ghost whole: seq<VarBind>) returns (out: seq<VarBind>)
      requires Valid() && next == Filtered(AllCells(view), allowed) && AddsUp(next, [], start, reps, whole)
      ensures out == whole
    {
      var cursors, left := start, reps;
      out := [];
      while left > 0
        invariant AddsUp(next, out, cursors, left, whole)
      {
        var allEnd: bool;
        out, cursors, allEnd := AccessibleRound(cursors, allowed, out, next, left, whole);
        if allEnd {
          return;
        }
        left := left - 1;
      }
    }

    method AccessibleRounds(start: seq<Oid>, reps: nat, allowed: Oid -> bool) returns (out: seq<VarBind>)
      requires Valid()
      ensures out == BulkRows(Filtered(AllCells(view), allowed), start, reps)
    {
      ghost var whole := BulkRows(Filtered(AllCells(view), allowed), start, reps);
      AddsUpToReply(Filtered(AllCells(view), allowed), [], start, reps);
      assert [] + whole == whole;
      out := AccessibleLoop(start, reps, allowed, Filtered(AllCells(view), allowed), whole);
    }

    /** GETBULK with access control: the same loop over filtered successors. */
    method ProcessBulkAccessible(request: Pdu, allowed: Oid -> bool) returns (out: seq<VarBind>)
      requires Valid()
      ensures out == BulkReply(Filtered(AllCells(view), allowed), OidsOf(request.variables),
                               NonNegative(request.errorStatus), NonNegative(request.errorIndex))
    {
      var oids := OidsOf(request.variables);
      var n := if NonNegative(request.errorStatus) <= |oids| then NonNegative(request.errorStatus) else |oids|;
      var once, _ := AccessibleRow(oids[..n], allowed);
      var repeated := AccessibleRounds(oids[n..], NonNegative(request.errorIndex), allowed);
      out := once + repeated;
    }

    /** One reserve pass: the first refusal, or none. */
    method Reserve(vbs: seq<VarBind>) returns (refused: Option<nat>, status: ErrorStatus)
      requires Valid()
      ensures refused == FirstRefusal(view, vbs, 0)
      ensures status == if refused.Some? then ReserveStatus(view, vbs[refused.value]) else NoError
    {
      for i := 0 to |vbs|
        invariant FirstRefusal(view, vbs, 0) == FirstRefusal(view, vbs, i)
      {
        var owner := HandlerFor(vbs[i].oid);
        var st := NotWritable;
        if owner.Some? {
          st := handlers[owner.value].PrepareSet(vbs[i].oid, vbs[i].value);
        }
        if st != NoError {
          return Some(i), st;
        }
      }
      return None, NoError;
    }

    /** Commit binding i on its owner; no other handler is touched. */
    method CommitNext(vbs: seq<VarBind>, i: nat, ghost hs: seq<Handler>) returns (st: ErrorStatus)
      requires Valid() && i < |vbs| && view == CommitTo(hs, vbs, i)
      modifies this`view, handlers
      ensures Valid() && handlers == old(handlers)
      ensures view == CommitTo(hs, vbs, i + 1) && st == CommitStatus(hs, vbs, i)
    {
      var owner := HandlerFor(vbs[i].oid);
      st := NotWritable;
      if owner.Some? {
        st := CommitAt(owner.value, vbs[i]);
      }
    }

    /** The first i commits are done; `failed` and `status` describe the first
        failure, `committed` are the ones that went through. */
    ghost predicate CommittedSoFar(hs: seq<Handler>, vbs: seq<VarBind>, i: nat, failed: Option<nat>, status: ErrorStatus, committed: seq<nat>)
      reads this, handlers
    {
      && Valid() && i <= |vbs| && view == CommitTo(hs, vbs, i) && FailedSoFar(hs, vbs, i, failed, status)
      && forall c :: 0 <= c < |committed| ==> committed[c] < i
    }

    /** One round of the commit loop: commit binding i and keep the first
        failure. */
    method CommitRound(vbs: seq<VarBind>, i: nat, ghost hs: seq<Handler>, failed: Option<nat>, status: ErrorStatus, committed: seq<nat>)
      returns (failed': Option<nat>, status': ErrorStatus, committed': seq<nat>)
      requires i < |vbs| && CommittedSoFar(hs, vbs, i, failed, status, committed)
      modifies this`view, handlers
      ensures handlers == old(handlers) && CommittedSoFar(hs, vbs, i + 1, failed', status', committed')
    {
      FailureStep(hs, vbs, i, failed, status);
      var outcome := CommitNext(vbs, i, hs);
      failed', status', committed' := failed, status, committed;
      if outcome == NoError {
        committed' := committed + [i];
      } else if failed.None? {
        failed', status' := Some(i), outcome;
      }
    }

    /** Attempt every commit, keeping the first failure. */
    method CommitAll(vbs: seq<VarBind>) returns (failed: Option<nat>, status: ErrorStatus, committed: seq<nat>)
      requires Valid()
      modifies this`view, handlers
      ensures Valid() && handlers == old(handlers)
      ensures view == CommitTo(old(view), vbs, |vbs|)
      ensures failed == FirstCommitFailure(old(view), vbs, 0)
      ensures status == if failed.Some? then CommitStatus(old(view), vbs, failed.value) else NoError
      ensures forall c :: 0 <= c < |committed| ==> committed[c] < |vbs|
    {
      ghost var hs := view;
      failed, status, committed := CommitLoop(vbs, hs);
      FailureAtEnd(hs, vbs, failed, status);
    }

    method CommitLoop(vbs: seq<VarBind>, ghost hs: seq<Handler>) returns (failed: Option<nat>, status: ErrorStatus, committed: seq<nat>)
      requires CommittedSoFar(hs, vbs, 0, None, NoError, [])
      modifies this`view, handlers
      ensures handlers == old(handlers) && CommittedSoFar(hs, vbs, |vbs|, failed, status, committed)
    {
      failed, status, committed := None, NoError, [];
      for i := 0 to |vbs|
        invariant handlers == old(handlers) && CommittedSoFar(hs, vbs, i, failed, status, committed)
      {
        failed, status, committed := CommitRound(vbs, i, hs, failed, status, committed);
      }
    }

    /** Undo the committed bindings; reports whether some undo failed. */
    method UndoAll(vbs: seq<VarBind>, committed: seq<nat>) returns (undoFailed: bool)
      requires Valid() && forall c :: 0 <= c < |committed| ==> committed[c] < |vbs|
      ensures !undoFailed
    {
      undoFailed := false;
      for c := 0 to |committed|
        invariant !undoFailed
      {
        var owner := HandlerFor(vbs[committed[c]].oid);
        if owner.Some? {
          var undone := Undo(handlers[owner.value].state, vbs[committed[c]].oid, vbs[committed[c]].value).1;
          if undone != NoError {
            undoFailed := true;
          }
        }
      }
    }

    /** The SET transaction: two reserve passes, then every commit is attempted;
        after a failure the committed bindings are undone, which for these
        handlers does nothing. */
    method ProcessSet(vbs: seq<VarBind>) returns (status: ErrorStatus, index: nat)
      requires Valid()
      modifies this`view, handlers
      ensures Valid() && handlers == old(handlers)
      ensures SetOutcome(view, status, index) == SetEffect(old(view), vbs)
    {
      var refused, st := Reserve(vbs);
      if refused.Some? {
        return st, refused.value + 1;
      }
      // The second pass sees the same handlers, so it refuses nothing.
      refused, st := Reserve(vbs);
      assert refused.None? && st == NoError;
      var failed, commitStatus, committed := CommitAll(vbs);
      if failed.Some? {
        var undoFailed := UndoAll(vbs, committed);
        return if undoFailed then UndoFailed else commitStatus, failed.value + 1;
      }
      return NoError, 0;
    }

    /** Commit one binding on handler object i; no other handler is touched. */
    method CommitAt(i: nat, vb: VarBind) returns (st: ErrorStatus)
      requires Valid() && i < |handlers|
      modifies this`view, handlers
      ensures Valid() && handlers == old(handlers)
      ensures st == Commit(old(view)[i], vb.oid, vb.value).1
      ensures view == old(view)[i := Commit(old(view)[i], vb.oid, vb.value).0]
    {
      CommitKeepsShape(view[i], vb.oid, vb.value);
      st := handlers[i].CommitSet(vb.oid, vb.value);
      view := view[i := handlers[i].state];
    }

    method ProcessGet(request: Pdu, sec: Security) returns (response: Pdu)
      requires Valid() && request.kind.GetRequest?
      ensures response == Answer(view, request, sec).0
    {
      var vbs := request.variables;
      var out := [];
      for i := 0 to |vbs|
        invariant FirstDenied(vbs, ReadView(sec), 0) == FirstDenied(vbs, ReadView(sec), i)
        invariant out == GetAll(view, vbs)[..i]
      {
        if !MayRead(sec, vbs[i].oid) {
          return Refusal(request, NoAccess, i + 1);
        }
        var v := GetOne(vbs[i].oid);
        out := out + [VarBind(vbs[i].oid, v)];
      }
      response := Pdu(Response, request.requestId, 0, 0, out);
    }

    method ProcessGetNext(request: Pdu, sec: Security) returns (response: Pdu)
      requires Valid() && request.kind.GetNextRequest?
      ensures response == Answer(view, request, sec).0
    {
      var row, ended := AccessibleRow(OidsOf(request.variables), ReadView(sec));
      response := Pdu(Response, request.requestId, 0, 0, row);
    }

    /** The write view is checked for every binding before anything is
        reserved. */
    method CheckWritable(vbs: seq<VarBind>, sec: Security) returns (denied: Option<nat>)
      ensures denied == FirstDenied(vbs, WriteView(sec), 0)
    {
      for i := 0 to |vbs|
        invariant FirstDenied(vbs, WriteView(sec), 0) == FirstDenied(vbs, WriteView(sec), i)
      {
        if !MayWrite(sec, vbs[i].oid) {
          return Some(i);
        }
      }
      denied := None;
    }

    method ProcessWithAccess(request: Pdu, sec: Security) returns (response: Pdu)
      requires Valid()
      modifies this`view, handlers
      ensures Valid() && handlers == old(handlers)
      ensures (response, view) == Answer(old(view), request, sec)
    {
      match request.kind
      case GetRequest =>
        response := ProcessGet(request, sec);
      case GetNextRequest =>
        response := ProcessGetNext(request, sec);
      case GetBulkRequest =>
        var out: seq<VarBind>;
        if sec.Permissive? {
          out := ProcessBulk(request);
        } else {
          out := ProcessBulkAccessible(request, ReadView(sec));
        }
        response := Pdu(Response, request.requestId, 0, 0, out);
      case SetRequest =>
        var denied := CheckWritable(request.variables, sec);
        if denied.Some? {
          response := Refusal(request, NoAccess, denied.value + 1);
        } else {
          var status, index := ProcessSet(request.variables);
          response := Refusal(request, status, index);
        }
      case _ =>
        response := Pdu(Response, request.requestId, Code(GenErr), 0, []);
    }
  }
}
