/** What the registry tells the client (crates/netsnmp-agent/src/registry.rs):
    every reply PDU, said in terms of the handlers' own fields, the caller's views
    and the numbers on the wire. */
module Replies {
  import opened Oids
  import opened Values
  import opened Cells
  import opened Handlers
  import opened Routing
  import opened SetTransactions
  import opened Registries

  // ----- What is there -----

  predicate Under(root: Oid, oid: Oid) {
    |root| <= |oid| && oid[..|root|] == root
  }

  /** The handler stores v at the OID: a scalar at instance 0, the others where
      their lists say. */
  predicate Stores(h: Handler, oid: Oid, v: Value) {
    match h
    case Scalar(root, value, _) => oid == root + [0] && v == value
    case Table(_, entries, _) => VarBind(oid, v) in entries
    case Provided(_, snapshot) => VarBind(oid, v) in snapshot
  }

  ghost predicate Holds(hs: seq<Handler>, oid: Oid, v: Value) {
    exists i :: 0 <= i < |hs| && Stores(hs[i], oid, v)
  }

  lemma StoresIff(h: Handler, oid: Oid, v: Value)
    ensures Stores(h, oid, v) <==> VarBind(oid, v) in CellsOf(h)
  {
    assert Child(h.root, 0) == h.root + [0];
  }

  lemma HoldsIff(hs: seq<Handler>, oid: Oid, v: Value)
    ensures Holds(hs, oid, v) <==> VarBind(oid, v) in AllCells(hs)
  {
    CellHasHandler(hs, VarBind(oid, v));
    forall i | 0 <= i < |hs| ensures Stores(hs[i], oid, v) <==> VarBind(oid, v) in CellsOf(hs[i]) {
      StoresIff(hs[i], oid, v);
    }
  }

  // ----- GET -----

  /** The value GET shows for an OID: the stored one, noSuchInstance below a root,
      else noSuchObject. */
  ghost predicate Shows(hs: seq<Handler>, oid: Oid, v: Value) {
    if exists w :: Holds(hs, oid, w) then Holds(hs, oid, v)
    else if exists i :: 0 <= i < |hs| && Under(hs[i].root, oid) then v == NoSuchInstance
    else v == NoSuchObject
  }

  lemma GetShows(hs: seq<Handler>, oid: Oid)
    requires ProperMib(hs)
    ensures Shows(hs, oid, DoGet(hs, oid))
  {
    var s := AllCells(hs);
    GetAgreesWithCells(hs, oid);
    LookupSpec(s, oid);
    if Lookup(s, oid).Some? {
      HoldsIff(hs, oid, DoGet(hs, oid));
    } else {
      forall w ensures !Holds(hs, oid, w) {
        HoldsIff(hs, oid, w);
      }
    }
    assert forall i :: 0 <= i < |hs| ==> (Under(hs[i].root, oid) <==> IsPrefix(hs[i].root, oid));
  }

  /** Binding k is the first one the view denies. */
  predicate FirstDeniedAt(vbs: seq<VarBind>, view: Oid -> bool, k: nat) {
    k < |vbs| && !view(vbs[k].oid) && forall i :: 0 <= i < k ==> view(vbs[i].oid)
  }

  lemma DeniedAt(vbs: seq<VarBind>, may: Oid -> bool, view: Oid -> bool) returns (k: nat)
    requires forall oid :: may(oid) == view(oid)
    ensures match FirstDenied(vbs, may, 0)
      case Some(i) => k == i && FirstDeniedAt(vbs, view, k)
      case None => forall i :: 0 <= i < |vbs| ==> view(vbs[i].oid)
  {
    var denies := Denies(vbs, may);
    NoneBefore(denies, 0, |vbs|);
    var r := FirstDenied(vbs, may, 0);
    k := if r.Some? then r.value else 0;
    forall i | 0 <= i < (if r.Some? then r.value else |vbs|) ensures view(vbs[i].oid) {
      assert !denies(i);
    }
  }

  lemma NothingDenied(vbs: seq<VarBind>, may: Oid -> bool)
    requires forall oid :: may(oid)
    ensures FirstDenied(vbs, may, 0).None?
  {
  }

  /** An error index on the wire. */
  predicate IsIndex(index: i64, k: nat) {
    k < 0x7FFF_FFFF_FFFF_FFFF ==> index == k + 1
  }

  /** A reply to this request that leaves the handlers alone. */
  ghost predicate Answers(hs: seq<Handler>, request: Pdu, answer: (Pdu, seq<Handler>)) {
    answer.1 == hs && answer.0.kind == Response && answer.0.requestId == request.requestId
  }

  /** The reply to a GET: noAccess at the first binding outside the read view,
      with the request's bindings; else every binding with what it shows. */
  lemma GetReply(hs: seq<Handler>, request: Pdu, sec: Security) returns (k: nat)
    requires ProperMib(hs) && request.kind.GetRequest?
    ensures var r, vbs := Answer(hs, request, sec).0, request.variables;
      && Answers(hs, request, Answer(hs, request, sec))
      && if sec.Views? && exists i :: 0 <= i < |vbs| && !sec.read(vbs[i].oid)
         then FirstDeniedAt(vbs, sec.read, k) && r.errorStatus == 6 && IsIndex(r.errorIndex, k) && r.variables == vbs
         else && r.errorStatus == 0 && r.errorIndex == 0 && |r.variables| == |vbs|
              && forall i :: 0 <= i < |vbs| ==> r.variables[i].oid == vbs[i].oid && Shows(hs, vbs[i].oid, r.variables[i].value)
  {
    k := 0;
    if sec.Views? {
      k := DeniedAt(request.variables, ReadView(sec), sec.read);
    } else {
      NothingDenied(request.variables, ReadView(sec));
    }
    forall i | 0 <= i < |request.variables| ensures Shows(hs, request.variables[i].oid, DoGet(hs, request.variables[i].oid)) {
      GetShows(hs, request.variables[i].oid);
    }
  }

  // ----- GETNEXT and GETBULK -----

  predicate Reads(sec: Security, oid: Oid) {
    sec.Views? ==> sec.read(oid)
  }

  /** The least readable instance above the OID, or endOfMibView at the OID when
      there is none. */
  ghost predicate Follows(hs: seq<Handler>, sec: Security, oid: Oid, vb: VarBind) {
    if exists o, v :: Holds(hs, o, v) && Reads(sec, o) && Less(oid, o)
    then && Holds(hs, vb.oid, vb.value) && Reads(sec, vb.oid) && Less(oid, vb.oid)
         && forall o, v :: Holds(hs, o, v) && Reads(sec, o) && Less(oid, o) ==> vb.oid == o || Less(vb.oid, o)
    else vb == VarBind(oid, EndOfMibView)
  }

  lemma FilteredFollows(hs: seq<Handler>, sec: Security, oid: Oid)
    requires ProperMib(hs)
    ensures Follows(hs, sec, oid, Filtered(AllCells(hs), ReadView(sec))(oid))
  {
    var s, may := AllCells(hs), ReadView(sec);
    MibIsOrdered(hs);
    FilteredNextSafety(s, may, oid);
    forall o, v ensures Holds(hs, o, v) <==> VarBind(o, v) in s {
      HoldsIff(hs, o, v);
    }
    forall c | c in s ensures Holds(hs, c.oid, c.value) {
      HoldsIff(hs, c.oid, c.value);
    }
  }

  /** The reply to a GETNEXT: for every binding what follows it. */
  lemma GetNextReply(hs: seq<Handler>, request: Pdu, sec: Security)
    requires ProperMib(hs) && request.kind.GetNextRequest?
    ensures var r, vbs := Answer(hs, request, sec).0, request.variables;
      && Answers(hs, request, Answer(hs, request, sec))
      && r.errorStatus == 0 && r.errorIndex == 0 && |r.variables| == |vbs|
      && forall i :: 0 <= i < |vbs| ==> Follows(hs, sec, vbs[i].oid, r.variables[i])
  {
    forall i | 0 <= i < |request.variables|
      ensures Follows(hs, sec, request.variables[i].oid, Filtered(AllCells(hs), ReadView(sec))(request.variables[i].oid))
    {
      FilteredFollows(hs, sec, request.variables[i].oid);
    }
  }

  function Joined(rows: seq<seq<VarBind>>): seq<VarBind> {
    if rows == [] then [] else rows[0] + Joined(rows[1..])
  }

  predicate Ended(row: seq<VarBind>) {
    forall j :: 0 <= j < |row| ==> row[j].value == EndOfMibView
  }

  /** Rows that follow one another: the entries of the first one follow these
      OIDs, and so on. At most `reps` of them, fewer only behind a row that is all
      endOfMibView. */
  ghost predicate RowsFollow(follows: (Oid, VarBind) -> bool, oids: seq<Oid>, reps: nat, rows: seq<seq<VarBind>>)
    decreases reps
  {
    if reps == 0 then rows == []
    else
      && rows != [] && RowFollows(follows, oids, rows[0])
      && if Ended(rows[0]) then |rows| == 1 else RowsFollow(follows, OidsOf(rows[0]), reps - 1, rows[1..])
  }

  ghost predicate RowFollows(follows: (Oid, VarBind) -> bool, oids: seq<Oid>, row: seq<VarBind>) {
    |row| == |oids| && forall j :: 0 <= j < |oids| ==> follows(oids[j], row[j])
  }

  lemma RowsFollowCons(follows: (Oid, VarBind) -> bool, oids: seq<Oid>, reps: nat, row: seq<VarBind>, more: seq<seq<VarBind>>)
    requires reps > 0 && RowFollows(follows, oids, row)
    requires if Ended(row) then more == [] else RowsFollow(follows, OidsOf(row), reps - 1, more)
    ensures RowsFollow(follows, oids, reps, [row] + more) && Joined([row] + more) == row + Joined(more)
  {
    assert ([row] + more)[1..] == more;
  }

  lemma BulkRowsStep(next: Oid -> VarBind, oids: seq<Oid>, reps: nat, row: seq<VarBind>, later: seq<VarBind>)
    requires reps > 0 && row == Row(next, oids) && (!Ended(row) ==> later == BulkRows(next, OidsOf(row), reps - 1))
    ensures BulkRows(next, oids, reps) == if Ended(row) then row else row + later
  {
  }

  lemma {:induction false} BulkRowsFollow(follows: (Oid, VarBind) -> bool, next: Oid -> VarBind, oids: seq<Oid>, reps: nat)
    returns (rows: seq<seq<VarBind>>)
    requires forall oid :: follows(oid, next(oid))
    ensures RowsFollow(follows, oids, reps, rows) && Joined(rows) == BulkRows(next, oids, reps)
    decreases reps
  {
    rows := [];
    if reps > 0 {
      var row := Row(next, oids);
      if !Ended(row) {
        rows := BulkRowsFollow(follows, next, OidsOf(row), reps - 1);
      }
      BulkRowsStep(next, oids, reps, row, Joined(rows));
      RowsFollowCons(follows, oids, reps, row, rows);
      rows := [row] + rows;
    }
  }

  ghost function FollowsIn(hs: seq<Handler>, sec: Security): (Oid, VarBind) -> bool {
    (oid: Oid, vb: VarBind) => Follows(hs, sec, oid, vb)
  }

  /** What the registry takes for GETNEXT in a GETBULK. */
  ghost predicate IsNext(hs: seq<Handler>, sec: Security, next: Oid -> VarBind) {
    next == if sec.Permissive? then Plain(AllCells(hs)) else Filtered(AllCells(hs), ReadView(sec))
  }

  lemma NextFollows(hs: seq<Handler>, sec: Security, next: Oid -> VarBind)
    requires ProperMib(hs) && IsNext(hs, sec, next)
    ensures forall oid :: FollowsIn(hs, sec)(oid, next(oid))
  {
    forall oid ensures FollowsIn(hs, sec)(oid, next(oid)) {
      if sec.Permissive? {
        PlainFollows(hs, oid);
      } else {
        FilteredFollows(hs, sec, oid);
      }
    }
  }

  lemma PlainFollows(hs: seq<Handler>, oid: Oid)
    requires ProperMib(hs)
    ensures Follows(hs, Permissive, oid, Plain(AllCells(hs))(oid))
  {
    MibIsOrdered(hs);
    FilteredFollows(hs, Permissive, oid);
    FilteredIsPlain(AllCells(hs), ReadView(Permissive));
    ReadableAll(AllCells(hs), ReadView(Permissive));
  }

  /** How many bindings of a GETBULK request are answered once. */
  function Once(request: Pdu): (n: nat)
    ensures n <= |request.variables|
  {
    if request.errorStatus <= 0 then 0
    else if request.errorStatus <= |request.variables| then request.errorStatus
    else |request.variables|
  }

  lemma BulkAnswerIs(hs: seq<Handler>, request: Pdu, sec: Security, next: Oid -> VarBind)
    requires request.kind.GetBulkRequest? && IsNext(hs, sec, next)
    ensures var r, oids := Answer(hs, request, sec).0, OidsOf(request.variables);
      && Answers(hs, request, Answer(hs, request, sec)) && r.errorStatus == 0 && r.errorIndex == 0
      && r.variables == Row(next, oids[..Once(request)])
           + BulkRows(next, oids[Once(request)..], Repetitions(request))
  {
  }

  /** How many rows a GETBULK asks for. */
  function Repetitions(request: Pdu): nat {
    if request.errorIndex <= 0 then 0 else request.errorIndex
  }

  /** The reply to a GETBULK: the first error-status bindings once, the others in
      rows, at most error-index many. */
  lemma GetBulkReply(hs: seq<Handler>, request: Pdu, sec: Security) returns (first: seq<VarBind>, rows: seq<seq<VarBind>>)
    requires ProperMib(hs) && request.kind.GetBulkRequest?
    ensures var r, oids, n := Answer(hs, request, sec).0, OidsOf(request.variables), Once(request);
      && Answers(hs, request, Answer(hs, request, sec)) && r.errorStatus == 0 && r.errorIndex == 0
      && r.variables == first + Joined(rows)
      && RowFollows(FollowsIn(hs, sec), oids[..n], first)
      && RowsFollow(FollowsIn(hs, sec), oids[n..], Repetitions(request), rows)
  {
    var next := if sec.Permissive? then Plain(AllCells(hs)) else Filtered(AllCells(hs), ReadView(sec));
    var oids, n := OidsOf(request.variables), Once(request);
    NextFollows(hs, sec, next);
    BulkAnswerIs(hs, request, sec, next);
    first := Row(next, oids[..n]);
    rows := BulkRowsFollow(FollowsIn(hs, sec), next, oids[n..], Repetitions(request));
  }

  // ----- SET -----

  /** The two values have one SMI type. */
  predicate SameType(v: Value, w: Value) {
    || (v.Integer? && w.Integer?) || (v.OctetString? && w.OctetString?) || (v.ObjectId? && w.ObjectId?)
    || (v.IpAddress? && w.IpAddress?) || (v.Counter32? && w.Counter32?) || (v.Gauge32? && w.Gauge32?)
    || (v.TimeTicks? && w.TimeTicks?) || (v.Opaque? && w.Opaque?) || (v.Counter64? && w.Counter64?)
  }

  /** Some handler above the OID takes writes. */
  predicate Writable(hs: seq<Handler>, oid: Oid) {
    exists i :: 0 <= i < |hs| && Under(hs[i].root, oid) && !hs[i].Provided? && hs[i].writable
  }

  /** The handler above the OID only has a provider. */
  predicate AtProvider(hs: seq<Handler>, oid: Oid) {
    exists i :: 0 <= i < |hs| && Under(hs[i].root, oid) && hs[i].Provided?
  }

  /** Why the reservation of a binding is refused, as the number on the wire: 17
      notWritable, 11 noCreation, 7 wrongType, 0 not at all. */
  ghost function RefusalNumber(hs: seq<Handler>, vb: VarBind): nat {
    if AtProvider(hs, vb.oid) then 0
    else if !Writable(hs, vb.oid) then 17
    else if !exists v :: Holds(hs, vb.oid, v) then 11
    else if !exists v :: Holds(hs, vb.oid, v) && SameType(v, vb.value) then 7
    else 0
  }

  /** In a proper MIB one handler at most is above an OID. */
  lemma OwnerIsOnly(hs: seq<Handler>, oid: Oid)
    requires ProperMib(hs)
    ensures match OwnerOf(hs, oid)
      case None => forall i :: 0 <= i < |hs| ==> !Under(hs[i].root, oid)
      case Some(k) => forall i :: 0 <= i < |hs| ==> (Under(hs[i].root, oid) <==> i == k)
  {
    OwnerSpec(hs, oid);
    forall i | 0 <= i < |hs| && Under(hs[i].root, oid) ensures OwnerOf(hs, oid) == Some(i) {
      var k := OwnerOf(hs, oid).value;
      PrefixesNest(hs[i].root, hs[k].root, oid);
    }
  }

  /** What the owner stores at an OID is what is held there. */
  lemma OwnerHolds(hs: seq<Handler>, oid: Oid, k: nat, v: Value)
    requires ProperMib(hs) && OwnerOf(hs, oid) == Some(k)
    ensures Holds(hs, oid, v) <==> Lookup(CellsOf(hs[k]), oid) == Some(v)
  {
    var s := CellsOf(hs[k]);
    OwnerIsOnly(hs, oid);
    forall i | 0 <= i < |hs| && Stores(hs[i], oid, v) ensures i == k {
      StoresIff(hs[i], oid, v);
      assert WellFormed(hs[i]);
    }
    StoresIff(hs[k], oid, v);
    LookupSpec(s, oid);
    assert WellFormed(hs[k]);
    if VarBind(oid, v) in s {
      var i :| 0 <= i < |s| && s[i] == VarBind(oid, v);
      LookupOfCell(s, i);
    }
  }

  lemma CompatibleIff(v: Value, w: Value)
    ensures TypesCompatible(v, w) <==> SameType(v, w)
  {
  }

  lemma ReserveNumber(hs: seq<Handler>, vb: VarBind)
    requires ProperMib(hs)
    ensures Code(ReserveStatus(hs, vb)) == RefusalNumber(hs, vb)
    ensures ToProvider(hs, vb) <==> AtProvider(hs, vb.oid)
  {
    OwnerIsOnly(hs, vb.oid);
    match OwnerOf(hs, vb.oid)
    case None =>
    case Some(k) =>
      forall v ensures Holds(hs, vb.oid, v) <==> Lookup(CellsOf(hs[k]), vb.oid) == Some(v) {
        OwnerHolds(hs, vb.oid, k, v);
      }
      if Lookup(CellsOf(hs[k]), vb.oid).Some? {
        CompatibleIff(Lookup(CellsOf(hs[k]), vb.oid).value, vb.value);
      }
      assert Child(hs[k].root, 0) == hs[k].root + [0];
  }

  /** Number k is the first below n that has the property. */
  ghost predicate FirstWith(has: nat -> bool, n: nat, k: nat) {
    k < n && has(k) && forall i :: 0 <= i < k ==> !has(i)
  }

  ghost function Refused(hs: seq<Handler>, vbs: seq<VarBind>): nat -> bool {
    (i: nat) => i < |vbs| && RefusalNumber(hs, vbs[i]) != 0
  }

  ghost function Provided(hs: seq<Handler>, vbs: seq<VarBind>): nat -> bool {
    (i: nat) => i < |vbs| && AtProvider(hs, vbs[i].oid)
  }

  /** What the transaction reports about these bindings: the first refused
      reservation; else notWritable for the first binding that went to a provider;
      else nothing. */
  ghost predicate Verdict(hs: seq<Handler>, vbs: seq<VarBind>, k: nat, number: int) {
    || (FirstWith(Refused(hs, vbs), |vbs|, k) && number == RefusalNumber(hs, vbs[k]))
    || ((forall i :: 0 <= i < |vbs| ==> !Refused(hs, vbs)(i)) && FirstWith(Provided(hs, vbs), |vbs|, k) && number == 17)
    || ((forall i :: 0 <= i < |vbs| ==> !Refused(hs, vbs)(i) && !Provided(hs, vbs)(i)) && number == 0)
  }

  lemma ReserveNumbers(hs: seq<Handler>, vbs: seq<VarBind>, i: nat)
    requires ProperMib(hs) && i < |vbs|
    ensures Refused(hs, vbs)(i) <==> ReserveStatus(hs, vbs[i]) != NoError
    ensures Provided(hs, vbs)(i) <==> ToProvider(hs, vbs[i])
    ensures Code(ReserveStatus(hs, vbs[i])) == RefusalNumber(hs, vbs[i])
  {
    ReserveNumber(hs, vbs[i]);
  }

  lemma RefusedVerdict(hs: seq<Handler>, vbs: seq<VarBind>, k: nat)
    requires ProperMib(hs) && k < |vbs| && ReserveStatus(hs, vbs[k]) != NoError
    requires forall i :: 0 <= i < k ==> ReserveStatus(hs, vbs[i]) == NoError
    ensures Verdict(hs, vbs, k, Code(ReserveStatus(hs, vbs[k])))
  {
    forall i | 0 <= i <= k ensures Refused(hs, vbs)(i) <==> i == k {
      ReserveNumbers(hs, vbs, i);
    }
    ReserveNumbers(hs, vbs, k);
  }

  lemma ReservedVerdict(hs: seq<Handler>, vbs: seq<VarBind>, k: nat, accepted: bool)
    requires ProperMib(hs) && AllReserved(hs, vbs)
    requires if accepted then forall i :: 0 <= i < |vbs| ==> !ToProvider(hs, vbs[i])
             else k < |vbs| && ToProvider(hs, vbs[k]) && forall i :: 0 <= i < k ==> !ToProvider(hs, vbs[i])
    ensures Verdict(hs, vbs, k, if accepted then 0 else 17)
  {
    forall i | 0 <= i < |vbs| ensures !Refused(hs, vbs)(i) && (Provided(hs, vbs)(i) <==> ToProvider(hs, vbs[i])) {
      ReserveNumbers(hs, vbs, i);
    }
  }

  lemma ReservedSays(hs: seq<Handler>, vbs: seq<VarBind>) returns (k: nat, accepted: bool)
    requires ProperMib(hs) && AllReserved(hs, vbs)
    ensures var out := SetEffect(hs, vbs);
      if accepted then out.status == NoError && out.index == 0 && out.handlers == CommitTo(hs, vbs, |vbs|) && forall i :: 0 <= i < |vbs| ==> !ToProvider(hs, vbs[i])
      else && out.status == NotWritable && out.index == k + 1
           && k < |vbs| && ToProvider(hs, vbs[k]) && forall i :: 0 <= i < k ==> !ToProvider(hs, vbs[i])
  {
    ReservedSet(hs, vbs);
    var out := SetEffect(hs, vbs);
    accepted := out.index == 0;
    k := if accepted then 0 else out.index - 1;
  }

  lemma RefusedSays(hs: seq<Handler>, vbs: seq<VarBind>) returns (k: nat)
    requires !AllReserved(hs, vbs)
    ensures var out := SetEffect(hs, vbs);
      && k < |vbs| && out.index == k + 1 && out.status == ReserveStatus(hs, vbs[k]) && out.status != NoError
      && forall i :: 0 <= i < k ==> ReserveStatus(hs, vbs[i]) == NoError
  {
    RefusedSet(hs, vbs);
    k := SetEffect(hs, vbs).index - 1;
  }

  lemma SetReports(hs: seq<Handler>, vbs: seq<VarBind>) returns (k: nat, number: int)
    requires ProperMib(hs)
    ensures Verdict(hs, vbs, k, number)
    ensures var out := SetEffect(hs, vbs);
      number == Code(out.status) && out.index == if out.status == NoError then 0 else k + 1
  {
    if AllReserved(hs, vbs) {
      var accepted;
      k, accepted := ReservedSays(hs, vbs);
      number := if accepted then 0 else 17;
      ReservedVerdict(hs, vbs, k, accepted);
    } else {
      k := RefusedSays(hs, vbs);
      number := Code(ReserveStatus(hs, vbs[k]));
      RefusedVerdict(hs, vbs, k);
    }
  }

  lemma DeniedSet(hs: seq<Handler>, request: Pdu, sec: Security)
    requires request.kind.SetRequest? && FirstDenied(request.variables, WriteView(sec), 0).Some?
    ensures Answer(hs, request, sec) == (Refusal(request, NoAccess, FirstDenied(request.variables, WriteView(sec), 0).value + 1), hs)
  {
  }

  lemma ServedSet(hs: seq<Handler>, request: Pdu, sec: Security)
    requires request.kind.SetRequest? && FirstDenied(request.variables, WriteView(sec), 0).None?
    ensures var out := SetEffect(hs, request.variables);
      Answer(hs, request, sec) == (Refusal(request, out.status, out.index), out.handlers)
  {
  }

  lemma RefusalSays(request: Pdu, status: ErrorStatus, index: nat, k: nat)
    requires index == if status == NoError then 0 else k + 1
    ensures var r := Refusal(request, status, index);
      && r.kind == Response && r.requestId == request.requestId && r.variables == request.variables
      && r.errorStatus == Code(status) && (if status == NoError then r.errorIndex == 0 else IsIndex(r.errorIndex, k))
    ensures Code(status) == 0 <==> status == NoError
  {
  }

  /** Which bindings the view denies, from the first one on. */
  lemma WriteViewDenies(vbs: seq<VarBind>, sec: Security) returns (k: nat)
    ensures var r := FirstDenied(vbs, WriteView(sec), 0);
      if sec.Views? && exists i :: 0 <= i < |vbs| && !sec.write(vbs[i].oid)
      then r == Some(k) && FirstDeniedAt(vbs, sec.write, k) else r == None
  {
    k := 0;
    if sec.Views? {
      k := DeniedAt(vbs, WriteView(sec), sec.write);
    } else {
      NothingDenied(vbs, WriteView(sec));
    }
  }

  /** The reply to a SET echoes the bindings. It reports noAccess at the first
      binding outside the write view, else what the transaction reports. */
  lemma SetReply(hs: seq<Handler>, request: Pdu, sec: Security) returns (k: nat)
    requires ProperMib(hs) && request.kind.SetRequest?
    ensures var r, vbs := Answer(hs, request, sec).0, request.variables;
      && r.kind == Response && r.requestId == request.requestId && r.variables == vbs
      && (if r.errorStatus == 0 then r.errorIndex == 0 else IsIndex(r.errorIndex, k))
      && if sec.Views? && exists i :: 0 <= i < |vbs| && !sec.write(vbs[i].oid)
         then FirstDeniedAt(vbs, sec.write, k) && r.errorStatus == 6
         else Verdict(hs, vbs, k, r.errorStatus)
  {
    k := WriteViewDenies(request.variables, sec);
    if FirstDenied(request.variables, WriteView(sec), 0).Some? {
      DeniedSet(hs, request, sec);
      RefusalSays(request, NoAccess, k + 1, k);
    } else {
      var number;
      k, number := SetReports(hs, request.variables);
      var out := SetEffect(hs, request.variables);
      ServedSet(hs, request, sec);
      RefusalSays(request, out.status, out.index, k);
    }
  }

  /** Binding k is the last one for the OID. */
  predicate LastFor(vbs: seq<VarBind>, oid: Oid, k: nat) {
    k < |vbs| && vbs[k].oid == oid && forall j :: k < j < |vbs| ==> vbs[j].oid != oid
  }

  /** What a SET writes: after a reply without error every instance named in the
      request holds its last value there, and every other one what it held. */
  lemma SetWrites(hs: seq<Handler>, request: Pdu, sec: Security, i: nat) returns (k: nat)
    requires ProperMib(hs) && request.kind.SetRequest? && Answer(hs, request, sec).0.errorStatus == 0
    requires i < |AllCells(hs)|
    ensures var s, t, vbs := AllCells(hs), AllCells(Answer(hs, request, sec).1), request.variables;
      && |t| == |s| && t[i].oid == s[i].oid
      && if exists j :: 0 <= j < |vbs| && vbs[j].oid == s[i].oid
         then LastFor(vbs, s[i].oid, k) && t[i].value == vbs[k].value
         else t[i].value == s[i].value
  {
    var vbs, oid := request.variables, AllCells(hs)[i].oid;
    AcceptedSet(hs, request, sec);
    CellAfterSet(hs, vbs, i);
    k := LastWriteSpec(vbs, oid);
  }

  lemma AcceptedSet(hs: seq<Handler>, request: Pdu, sec: Security)
    requires ProperMib(hs) && request.kind.SetRequest? && Answer(hs, request, sec).0.errorStatus == 0
    ensures AllReserved(hs, request.variables) && Answer(hs, request, sec).1 == CommitTo(hs, request.variables, |request.variables|)
    ensures forall i :: 0 <= i < |request.variables| ==> !ToProvider(hs, request.variables[i])
  {
    var k := WriteViewDenies(request.variables, sec);
    if FirstDenied(request.variables, WriteView(sec), 0).Some? {
      DeniedSet(hs, request, sec);
      assert false;
    }
    ServedSet(hs, request, sec);
    AcceptedEffect(hs, request.variables);
  }

  lemma AcceptedEffect(hs: seq<Handler>, vbs: seq<VarBind>)
    requires ProperMib(hs) && Code(SetEffect(hs, vbs).status) == 0
    ensures AllReserved(hs, vbs) && SetEffect(hs, vbs).handlers == CommitTo(hs, vbs, |vbs|)
    ensures forall i :: 0 <= i < |vbs| ==> !ToProvider(hs, vbs[i])
  {
    if AllReserved(hs, vbs) {
      var k, accepted := ReservedSays(hs, vbs);
    } else {
      var k := RefusedSays(hs, vbs);
    }
  }

  // ----- Everything else -----

  /** Any other PDU is answered with genErr and no bindings. */
  lemma OtherReply(hs: seq<Handler>, request: Pdu, sec: Security)
    requires request.kind.Response? || request.kind.OtherPdu?
    ensures Answers(hs, request, Answer(hs, request, sec))
    ensures var r := Answer(hs, request, sec).0; r.errorStatus == 5 && r.errorIndex == 0 && r.variables == []
  {
  }
}
