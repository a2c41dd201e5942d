/** The agent's request processing as a whole
    (crates/netsnmp-agent/src/registry.rs), and the client's walks
    (crates/netsnmp-apps/src/client.rs) against it. */
module EndToEnd {
  import opened Oids
  import opened Values
  import opened StableSort
  import opened Cells
  import opened Handlers
  import opened Routing
  import opened SetTransactions
  import opened Registries
  import opened Walks

  /** The request PDU the client sends for one OID. */
  function Request(kind: PduKind, reps: u32, oid: Oid): Pdu {
    Pdu(kind, 1, 0, reps, [VarBind(oid, Null)])
  }

  /** An agent whose replies are the registry's answers for this caller. */
  ghost function Agent(hs: seq<Handler>, sec: Security, kind: PduKind, reps: u32): Server {
    (k: nat, oid: Oid) => Some(Answer(hs, Request(kind, reps, oid), sec).0.variables)
  }

  /** The cells this caller may read. */
  function Visible(hs: seq<Handler>, sec: Security): seq<VarBind> {
    Readable(AllCells(hs), ReadView(sec))
  }

  lemma AgentAnswersNext(hs: seq<Handler>, sec: Security, reps: u32, k: nat, oid: Oid)
    requires ProperMib(hs)
    ensures Agent(hs, sec, GetNextRequest, reps)(k, oid) == NextServer(Plain(Visible(hs, sec)))(k, oid)
  {
    MibIsOrdered(hs);
    FilteredIsPlain(AllCells(hs), ReadView(sec));
    var vbs := [VarBind(oid, Null)];
    assert OidsOf(vbs) == [oid];
    var next := Filtered(AllCells(hs), ReadView(sec));
    assert Row(next, [oid]) == [next(oid)];
    assert next(oid) == Plain(Visible(hs, sec))(oid);
  }

  lemma AgentAnswersBulk(hs: seq<Handler>, sec: Security, reps: u32, k: nat, oid: Oid)
    requires ProperMib(hs)
    ensures Agent(hs, sec, GetBulkRequest, reps)(k, oid) == BulkServer(Plain(Visible(hs, sec)), reps)(k, oid)
  {
    MibIsOrdered(hs);
    var s := AllCells(hs);
    assert OidsOf([VarBind(oid, Null)]) == [oid];
    FilteredBulk(s, ReadView(sec), [oid], 0, reps);
  }

  /** How far the repeaters of a GETBULK request go. */
  function Repeaters(request: Pdu): seq<Oid> {
    var oids := OidsOf(request.variables);
    oids[NonRepeaters(request)..]
  }

  function NonRepeaters(request: Pdu): (n: nat)
    ensures n <= |request.variables|
  {
    if NonNegative(request.errorStatus) <= |request.variables| then NonNegative(request.errorStatus) else |request.variables|
  }

  lemma AnswerBulk(hs: seq<Handler>, request: Pdu, sec: Security, next: Oid -> VarBind)
    requires request.kind.GetBulkRequest?
    requires next == if sec.Permissive? then Plain(AllCells(hs)) else Filtered(AllCells(hs), ReadView(sec))
    ensures Answer(hs, request, sec).0.variables
         == BulkReply(next, OidsOf(request.variables), NonNegative(request.errorStatus), NonNegative(request.errorIndex))
  {
  }

  lemma BulkParts(request: Pdu, next: Oid -> VarBind)
    ensures BulkReply(next, OidsOf(request.variables), NonNegative(request.errorStatus), NonNegative(request.errorIndex))
         == Row(next, OidsOf(request.variables)[..NonRepeaters(request)]) + BulkRows(next, Repeaters(request), NonNegative(request.errorIndex))
  {
  }

  lemma BulkAnswer(hs: seq<Handler>, request: Pdu, sec: Security)
    requires ProperMib(hs) && request.kind.GetBulkRequest?
    ensures var next := Plain(Visible(hs, sec));
      Answer(hs, request, sec).0.variables
        == Row(next, OidsOf(request.variables)[..NonRepeaters(request)]) + BulkRows(next, Repeaters(request), NonNegative(request.errorIndex))
  {
    MibIsOrdered(hs);
    BulkParts(request, Plain(Visible(hs, sec)));
    if sec.Permissive? {
      ReadableAll(AllCells(hs), ReadView(sec));
      AnswerBulk(hs, request, sec, Plain(AllCells(hs)));
    } else {
      FilteredBulk(AllCells(hs), ReadView(sec), OidsOf(request.variables), NonNegative(request.errorStatus), NonNegative(request.errorIndex));
      AnswerBulk(hs, request, sec, Filtered(AllCells(hs), ReadView(sec)));
    }
  }

  /** The registry's GETBULK reply, on either path: every non-repeater once, then
      the first k rows of the matrix whose row r is the r-fold GETNEXT among the
      readable cells; every entry of the rows left out repeats endOfMibView. */
  lemma BulkReplyIsMatrix(hs: seq<Handler>, request: Pdu, sec: Security) returns (k: nat)
    requires ProperMib(hs) && request.kind.GetBulkRequest?
    ensures var next, reps, cursors := Plain(Visible(hs, sec)), NonNegative(request.errorIndex), Repeaters(request);
      && k <= reps && (reps > 0 ==> k > 0)
      && Answer(hs, request, sec).0.variables
           == Row(next, OidsOf(request.variables)[..NonRepeaters(request)]) + Matrix(next, cursors, k)
      && EndsAfter(next, cursors, k, reps)
  {
    MibIsOrdered(hs);
    FilteredIsPlain(AllCells(hs), ReadView(sec));
    PlainIsSticky(Visible(hs, sec));
    BulkAnswer(hs, request, sec);
    k := BulkIsMatrixPrefix(Plain(Visible(hs, sec)), Repeaters(request), NonNegative(request.errorIndex));
  }

  /** The loops themselves have this form for any handlers, in order or not: the
      access-checked GETNEXT always repeats endOfMibView once it has given it. */
  lemma AccessibleRowsAreMatrix(hs: seq<Handler>, allowed: Oid -> bool, cursors: seq<Oid>, reps: nat) returns (k: nat)
    ensures k <= reps && (reps > 0 ==> k > 0)
    ensures BulkRows(Filtered(AllCells(hs), allowed), cursors, reps) == Matrix(Filtered(AllCells(hs), allowed), cursors, k)
    ensures EndsAfter(Filtered(AllCells(hs), allowed), cursors, k, reps)
  {
    FilteredIsSticky(AllCells(hs), allowed);
    k := BulkIsMatrixPrefix(Filtered(AllCells(hs), allowed), cursors, reps);
  }

  // ----- Write access -----

  /** Whoever asks for what, a cell that the caller may not write stays as it
      is. */
  lemma DeniedCellStays(hs: seq<Handler>, request: Pdu, sec: Security, i: nat)
    requires ProperMib(hs) && i < |AllCells(hs)| && !MayWrite(sec, AllCells(hs)[i].oid)
    ensures var after := AllCells(Answer(hs, request, sec).1);
      |after| == |AllCells(hs)| && after[i] == AllCells(hs)[i]
  {
    var vbs := request.variables;
    if request.kind.SetRequest? && FirstDenied(vbs, WriteView(sec), 0).None? {
      NothingWritten(vbs, sec, AllCells(hs)[i].oid);
      if AllReserved(hs, vbs) {
        ReservedSet(hs, vbs);
        CellAfterSet(hs, vbs, i);
      } else {
        RefusedSet(hs, vbs);
      }
    }
  }

  lemma NothingWritten(vbs: seq<VarBind>, sec: Security, oid: Oid)
    requires FirstDenied(vbs, WriteView(sec), 0).None? && !MayWrite(sec, oid)
    ensures LastWrite(vbs, oid).None?
  {
    var denies := Denies(vbs, WriteView(sec));
    NoneBefore(denies, 0, |vbs|);
    var k := LastWriteSpec(vbs, oid);
    forall j | 0 <= j < |vbs| ensures vbs[j].oid != oid {
      assert !denies(j);
    }
  }

  /** The handlers after some requests, each from its own caller. */
  ghost function Serve(hs: seq<Handler>, requests: seq<(Pdu, Security)>): seq<Handler>
    decreases |requests|
  {
    if requests == [] then hs else Serve(Answer(hs, requests[0].0, requests[0].1).1, requests[1..])
  }

  lemma AnswerLeaves(hs: seq<Handler>, request: Pdu, sec: Security)
    ensures Answer(hs, request, sec).1 in {hs, SetEffect(hs, request.variables).handlers}
  {
  }

  lemma AnswerKeepsTypes(hs: seq<Handler>, request: Pdu, sec: Security, after: seq<Handler>)
    requires ProperMib(hs) && after in {hs, SetEffect(hs, request.variables).handlers}
    ensures ProperMib(after) && SameTypes(AllCells(hs), AllCells(after))
  {
    SetKeepsTypes(hs, request.variables);
  }

  /** Over every run of requests of any kind the instances, their order and their
      types stay, and a cell that none of the callers may write keeps its value. */
  lemma {:induction false} DeniedCellsStay(hs: seq<Handler>, requests: seq<(Pdu, Security)>, i: nat)
    requires ProperMib(hs) && i < |AllCells(hs)|
    ensures var after := AllCells(Serve(hs, requests));
      && ProperMib(Serve(hs, requests)) && SameTypes(AllCells(hs), after)
      && ((forall k :: 0 <= k < |requests| ==> !MayWrite(requests[k].1, AllCells(hs)[i].oid)) ==> after[i] == AllCells(hs)[i])
    decreases |requests|
  {
    if requests != [] {
      var (request, sec) := requests[0];
      var next := Answer(hs, request, sec).1;
      AnswerLeaves(hs, request, sec);
      AnswerKeepsTypes(hs, request, sec, next);
      DeniedCellsStay(next, requests[1..], i);
      if forall k :: 0 <= k < |requests| ==> !MayWrite(requests[k].1, AllCells(hs)[i].oid) {
        DeniedCellStays(hs, request, sec, i);
        assert forall k :: 0 <= k < |requests[1..]| ==> requests[1..][k] == requests[k + 1];
      }
    }
  }

  // ----- Walks -----

  /** For every caller, every root and every max-repetitions, the GETBULK walk
      and the GETNEXT walk through `process_with_access` both finish and yield
      the same bindings: every readable cell strictly under the root, once each,
      in order. Without access control these are all the cells. */
  lemma WalksAgree(hs: seq<Handler>, sec: Security, root: Oid, reps: u32, budget: nat)
    requires ProperMib(hs) && budget > |Visible(hs, sec)|
    ensures var all := Walked(Subtree(Visible(hs, sec), root), true);
      && WalkFrom(Agent(hs, sec, GetNextRequest, reps), root, root, 0, budget) == all
      && BulkWalkFrom(Agent(hs, sec, GetBulkRequest, AtLeastOne(reps)), root, root, 0, budget) == all
    ensures sec.Permissive? ==> Visible(hs, sec) == AllCells(hs)
  {
    MibIsOrdered(hs);
    var r := Visible(hs, sec);
    FilteredIsPlain(AllCells(hs), ReadView(sec));
    if sec.Permissive? {
      ReadableAll(AllCells(hs), ReadView(sec));
    }
    forall k: nat, oid
      ensures Agent(hs, sec, GetNextRequest, reps)(k, oid) == NextServer(Plain(r))(k, oid)
    {
      AgentAnswersNext(hs, sec, reps, k, oid);
    }
    forall k: nat, oid
      ensures Agent(hs, sec, GetBulkRequest, AtLeastOne(reps))(k, oid) == BulkServer(Plain(r), AtLeastOne(reps))(k, oid)
    {
      AgentAnswersBulk(hs, sec, AtLeastOne(reps), k, oid);
    }
    WalkExtensional(Agent(hs, sec, GetNextRequest, reps), NextServer(Plain(r)), root, root, 0, budget);
    WalkExtensional(Agent(hs, sec, GetBulkRequest, AtLeastOne(reps)), BulkServer(Plain(r), AtLeastOne(reps)),
                    root, root, 0, budget);
    WalkIsRun(r, root, root, 0, budget);
    BulkWalkIsRun(r, root, root, AtLeastOne(reps), 0, budget);
    SubtreeStartsAbove(r, root);
  }
}
