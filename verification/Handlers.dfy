/** MIB handlers: the scalar, in-memory table and provider-backed handlers
    behind the `MibHandler` interface (crates/netsnmp-agent/src/handler.rs,
    crates/netsnmp-agent/src/scalar.rs). */
module Handlers {
  import opened Oids
  import opened Values
  import opened StableSort
  import opened Cells

  /** Compatible SMI base types for a SET: same variant, never NULL or an
      exception. */
  predicate TypesCompatible(current: Value, new_: Value) {
    match (current, new_)
    case (_, Null) => false
    case (_, NoSuchObject) => false
    case (_, NoSuchInstance) => false
    case (_, EndOfMibView) => false
    case (Integer(_), Integer(_)) => true
    case (Counter32(_), Counter32(_)) => true
    case (Gauge32(_), Gauge32(_)) => true
    case (TimeTicks(_), TimeTicks(_)) => true
    case (Counter64(_), Counter64(_)) => true
    case (OctetString(_), OctetString(_)) => true
    case (ObjectId(_), ObjectId(_)) => true
    case (IpAddress(_, _, _, _), IpAddress(_, _, _, _)) => true
    case (Opaque(_), Opaque(_)) => true
    case _ => false
  }

  /** The SMI type of a value, numbered. */
  function TypeOf(v: Value): nat {
    match v
    case Integer(_) => 0
    case OctetString(_) => 1
    case ObjectId(_) => 2
    case IpAddress(_, _, _, _) => 3
    case Counter32(_) => 4
    case Gauge32(_) => 5
    case TimeTicks(_) => 6
    case Opaque(_) => 7
    case Counter64(_) => 8
    case Null => 9
    case NoSuchObject => 10
    case NoSuchInstance => 11
    case EndOfMibView => 12
  }

  datatype Handler =
    | Scalar(root: Oid, value: Value, writable: bool)
    | Table(root: Oid, entries: seq<VarBind>, writable: bool)
    | Provided(root: Oid, snapshot: seq<VarBind>)

  /** Everything the handler serves, in the order it serves it. */
  function CellsOf(h: Handler): seq<VarBind> {
    match h
    case Scalar(root, value, _) => [VarBind(Child(root, 0), value)]
    case Table(_, entries, _) => entries
    case Provided(_, snapshot) => snapshot
  }

  function Lookup(s: seq<VarBind>, oid: Oid): Option<Value> {
    if s == [] then None
    else if s[0].oid == oid then Some(s[0].value)
    else Lookup(s[1..], oid)
  }

  /** Replace the value of an existing instance. */
  function Update(s: seq<VarBind>, oid: Oid, v: Value): seq<VarBind> {
    seq(|s|, i requires 0 <= i < |s| => if s[i].oid == oid then VarBind(oid, v) else s[i])
  }

  /** The reserve phase: validate without side effect. */
  function Prepare(h: Handler, oid: Oid, v: Value): ErrorStatus {
    match h
    case Scalar(root, value, writable) =>
      if !writable then NotWritable
      else if oid != Child(root, 0) then NoCreation
      else if !TypesCompatible(value, v) then WrongType
      else NoError
    case Table(_, entries, writable) =>
      if !writable then NotWritable
      else (
        match Lookup(entries, oid)
        case Some(current) => if TypesCompatible(current, v) then NoError else WrongType
        case None => NoCreation
      )
    case Provided(_, _) => NoError
  }

  /** The commit phase: apply the write. Only writability and existence are
      checked again; a provider-backed handler inherits the read-only `set`. */
  function Commit(h: Handler, oid: Oid, v: Value): (Handler, ErrorStatus) {
    match h
    case Scalar(root, value, writable) =>
      if !writable then (h, NotWritable)
      else if oid != Child(root, 0) then (h, NoCreation)
      else (h.(value := v), NoError)
    case Table(_, entries, writable) =>
      if !writable then (h, NotWritable)
      else if Lookup(entries, oid).None? then (h, NoCreation)
      else (h.(entries := Update(entries, oid, v)), NoError)
    case Provided(_, _) => (h, NotWritable)
  }

  /** The undo phase, which no handler overrides: nothing is rolled back and
      success is reported. */
  function Undo(h: Handler, oid: Oid, v: Value): (Handler, ErrorStatus) {
    (h, NoError)
  }

  ghost predicate UnderRoot(h: Handler) {
    forall i :: 0 <= i < |CellsOf(h)| ==> IsPrefix(h.root, CellsOf(h)[i].oid)
  }

  /** The `MibHandler` contract: distinct instances in order, all under the
      root, none holding an exception value. */
  ghost predicate WellFormed(h: Handler) {
    Ordered(CellsOf(h)) && Ordinary(CellsOf(h)) && UnderRoot(h)
  }

  lemma {:induction false} LookupSpec(s: seq<VarBind>, oid: Oid)
    ensures Lookup(s, oid).None? <==> forall i :: 0 <= i < |s| ==> s[i].oid != oid
    ensures Lookup(s, oid).Some? ==>
              exists i :: 0 <= i < |s| && s[i] == VarBind(oid, Lookup(s, oid).value)
  {
    if s != [] {
      LookupSpec(s[1..], oid);
      assert forall i :: 0 < i < |s| ==> s[i] == s[1..][i - 1];
      if s[0].oid != oid && Lookup(s[1..], oid).Some? {
        var i :| 0 <= i < |s[1..]| && s[1..][i] == VarBind(oid, Lookup(s, oid).value);
        assert s[i + 1] == s[1..][i];
      }
    }
  }

  lemma {:induction false} LookupOfCell(s: seq<VarBind>, i: nat)
    requires Ordered(s) && i < |s|
    ensures Lookup(s, s[i].oid) == Some(s[i].value)
  {
    if i > 0 {
      LessAsymmetric(s[0].oid, s[i].oid);
      LookupOfCell(s[1..], i - 1);
    }
  }

  lemma {:induction false} LookupConcat(a: seq<VarBind>, b: seq<VarBind>, oid: Oid)
    ensures Lookup(a + b, oid) == if Lookup(a, oid).Some? then Lookup(a, oid) else Lookup(b, oid)
  {
    if a == [] {
      assert a + b == b;
    } else {
      LookupConcat(a[1..], b, oid);
      assert (a + b)[1..] == a[1..] + b;
    }
  }

  /** The order of `sort_by` on a snapshot. */
  function ByOid(): (VarBind, VarBind) -> bool {
    (a: VarBind, b: VarBind) => AtMost(a.oid, b.oid)
  }

  lemma ByOidIsPreorder()
    ensures Preorder(ByOid())
  {
    forall x: VarBind, y: VarBind ensures ByOid()(x, y) || ByOid()(y, x) {
      LessTotal(x.oid, y.oid);
    }
    forall x: VarBind, y: VarBind, z: VarBind | ByOid()(x, y) && ByOid()(y, z) ensures ByOid()(x, z) {
      AtMostTransitive(x.oid, y.oid, z.oid);
    }
  }

  lemma {:induction false} InsertOrdered(x: VarBind, s: seq<VarBind>)
    requires Ordered(s) && forall i :: 0 <= i < |s| ==> s[i].oid != x.oid
    ensures Ordered(Insert(x, s, ByOid()))
  {
    if s != [] {
      LessTotal(x.oid, s[0].oid);
      if Less(x.oid, s[0].oid) {
        forall i | 0 < i < |s| ensures Less(x.oid, s[i].oid) {
          LessTransitive(x.oid, s[0].oid, s[i].oid);
        }
      } else {
        InsertOrdered(x, s[1..]);
        InsertPermutes(x, s[1..], ByOid());
        var r := Insert(x, s[1..], ByOid());
        forall j | 0 <= j < |r| ensures Less(s[0].oid, r[j].oid) {
          assert r[j] in r;
          assert r[j] == x || r[j] in s[1..];
        }
      }
    }
  }

  /** A provider's cells are sorted before use, whatever order it lists them in;
      the snapshot is strictly ordered exactly when no instance is listed
      twice. */
  lemma SnapshotIsOrdered(provided: seq<VarBind>)
    ensures var r := Sort(provided, ByOid());
      && Sorted(r, ByOid()) && multiset(r) == multiset(provided)
      && (Ordered(r) <==> forall i, j :: 0 <= i < j < |provided| ==> provided[i].oid != provided[j].oid)
  {
    ByOidIsPreorder();
    SortSorts(provided, ByOid());
    SortPermutes(provided, ByOid());
    if forall i, j :: 0 <= i < j < |provided| ==> provided[i].oid != provided[j].oid {
      DistinctSnapshot(provided);
    } else {
      var i, j :| 0 <= i < j < |provided| && provided[i].oid == provided[j].oid;
      TwiceInSnapshot(provided, i, j);
    }
  }

  lemma {:induction false} DistinctSnapshot(provided: seq<VarBind>)
    requires forall i, j :: 0 <= i < j < |provided| ==> provided[i].oid != provided[j].oid
    ensures Ordered(Sort(provided, ByOid()))
  {
    if provided != [] {
      var tail := Sort(provided[1..], ByOid());
      DistinctSnapshot(provided[1..]);
      SortPermutes(provided[1..], ByOid());
      forall i | 0 <= i < |tail| ensures tail[i].oid != provided[0].oid {
        assert tail[i] in tail;
        assert tail[i] in provided[1..];
      }
      InsertOrdered(provided[0], tail);
    }
  }

  /** A strictly ordered snapshot holds each instance once. */
  lemma OrderedOnce(r: seq<VarBind>, x: VarBind, y: VarBind)
    requires Ordered(r) && x in r && y in r && x.oid == y.oid
    ensures x == y && multiset(r)[x] == 1
  {
    LessIrreflexive(x.oid);
    var p :| 0 <= p < |r| && r[p] == x;
    assert r == r[..p] + [x] + r[p + 1..];
    assert x !in r[..p] && x !in r[p + 1..];
  }

  lemma TwiceCounted(s: seq<VarBind>, i: nat, j: nat)
    requires i < j < |s| && s[i] == s[j]
    ensures multiset(s)[s[i]] >= 2
  {
    assert s == s[..j] + [s[j]] + s[j + 1..];
    assert s[..j][i] == s[i] && s[i] in s[..j];
  }

  lemma TwiceInSnapshot(provided: seq<VarBind>, i: nat, j: nat)
    requires i < j < |provided| && provided[i].oid == provided[j].oid
    ensures !Ordered(Sort(provided, ByOid()))
  {
    SortPermutes(provided, ByOid());
    if provided[i] == provided[j] {
      TwiceCounted(provided, i, j);
    }
    if Ordered(Sort(provided, ByOid())) {
      OrderedOnce(Sort(provided, ByOid()), provided[i], provided[j]);
    }
  }

  /** `binary_search_by` over an ordered snapshot. */
  method BinarySearch(s: seq<VarBind>, oid: Oid) returns (found: Option<nat>)
    requires Ordered(s)
    ensures found.Some? ==> found.value < |s| && s[found.value].oid == oid
    ensures found.None? ==> forall i :: 0 <= i < |s| ==> s[i].oid != oid
  {
    var lo, hi := 0, |s|;
    while lo < hi
      invariant 0 <= lo <= hi <= |s|
      invariant forall i :: 0 <= i < lo ==> Less(s[i].oid, oid)
      invariant forall i :: hi <= i < |s| ==> Less(oid, s[i].oid)
    {
      var mid := (lo + hi) / 2;
      LessTotal(s[mid].oid, oid);
      if s[mid].oid == oid {
        return Some(mid);
      } else if Less(s[mid].oid, oid) {
        forall i | 0 <= i < mid ensures Less(s[i].oid, oid) {
          LessTransitive(s[i].oid, s[mid].oid, oid);
        }
        lo := mid + 1;
      } else {
        forall i | mid < i < |s| ensures Less(oid, s[i].oid) {
          LessTransitive(oid, s[mid].oid, s[i].oid);
        }
        hi := mid;
      }
    }
    forall i | 0 <= i < |s| ensures s[i].oid != oid {
      LessIrreflexive(oid);
    }
    found := None;
  }

  /** `partition_point(|(o, _)| o <= oid)` over an ordered snapshot. */
  method PartitionPoint(s: seq<VarBind>, oid: Oid) returns (k: nat)
    requires Ordered(s)
    ensures k == FirstAbove(s, oid)
  {
    var lo, hi := 0, |s|;
    while lo < hi
      invariant 0 <= lo <= hi <= |s|
      invariant forall i :: 0 <= i < lo ==> AtMost(s[i].oid, oid)
      invariant forall i :: hi <= i < |s| ==> Less(oid, s[i].oid)
    {
      var mid := (lo + hi) / 2;
      if AtMost(s[mid].oid, oid) {
        forall i | 0 <= i < mid ensures AtMost(s[i].oid, oid) {
          AtMostTransitive(s[i].oid, s[mid].oid, oid);
        }
        lo := mid + 1;
      } else {
        LessTotal(s[mid].oid, oid);
        forall i | mid < i < |s| ensures Less(oid, s[i].oid) {
          LessTransitive(oid, s[mid].oid, s[i].oid);
        }
        hi := mid;
      }
    }
    forall i | 0 <= i < lo ensures !Less(oid, s[i].oid) {
      if s[i].oid == oid { LessIrreflexive(oid); } else { LessAsymmetric(s[i].oid, oid); }
    }
    FirstAboveUnique(s, oid, lo);
    k := lo;
  }

  /** In ordered cells an update touches one index. */
  lemma UpdateAt(s: seq<VarBind>, i: nat, v: Value)
    requires Ordered(s) && i < |s|
    ensures Update(s, s[i].oid, v) == s[i := VarBind(s[i].oid, v)]
  {
    LessIrreflexive(s[i].oid);
  }

  /** A registered handler object: its state sits behind a lock and SET changes
      it in place. */
  class MibHandler {
    const root: Oid
    var state: Handler

    ghost predicate Valid()
      reads this
    {
      state.root == root && Ordered(CellsOf(state))
    }

    constructor (h: Handler)
      requires Ordered(CellsOf(h))
      ensures Valid() && state == h && root == h.root
    {
      root := h.root;
      state := h;
    }

    /** Reserve: refuse what is not writable, not there, or of another type. */
    method PrepareSet(oid: Oid, v: Value) returns (st: ErrorStatus)
      requires Valid()
      ensures st == Prepare(state, oid, v)
      ensures state.Provided? ==> st == NoError
      ensures !state.Provided? ==>
        && (st == NotWritable <==> !state.writable)
        && (st == NoCreation <==> state.writable && Lookup(CellsOf(state), oid).None?)
        && (st == NoError <==> state.writable && Lookup(CellsOf(state), oid).Some? && TypesCompatible(Lookup(CellsOf(state), oid).value, v))
        && st in {NotWritable, NoCreation, WrongType, NoError}
    {
      if state.Provided? {
        return NoError;
      }
      if !state.writable {
        return NotWritable;
      }
      var current := Get(oid);
      if current.None? {
        return NoCreation;
      }
      st := if TypesCompatible(current.value, v) then NoError else WrongType;
    }

    /** Rebuild the cached snapshot of a provider-backed handler. */
    method Refresh(provided: seq<VarBind>)
      requires Valid() && state.Provided?
      requires forall i, j :: 0 <= i < j < |provided| ==> provided[i].oid != provided[j].oid
      modifies this
      ensures Valid() && state == Provided(root, Sort(provided, ByOid()))
    {
      SnapshotIsOrdered(provided);
      state := Provided(root, Sort(provided, ByOid()));
    }

    method Get(oid: Oid) returns (r: Option<Value>)
      requires Valid()
      ensures r == Lookup(CellsOf(state), oid)
    {
      LookupSpec(CellsOf(state), oid);
      match state
      case Scalar(rt, value, _) =>
        r := if oid == Child(rt, 0) then Some(value) else None;
      case _ =>
        var found := BinarySearch(CellsOf(state), oid);
        match found
        case Some(i) =>
          LookupOfCell(CellsOf(state), i);
          r := Some(CellsOf(state)[i].value);
        case None =>
          r := None;
    }

    method GetNext(oid: Oid) returns (r: Option<VarBind>)
      requires Valid()
      ensures r == Successor(CellsOf(state), oid)
    {
      match state
      case Scalar(rt, value, _) =>
        r := if Less(oid, Child(rt, 0)) then Some(VarBind(Child(rt, 0), value)) else None;
      case _ =>
        var k := PartitionPoint(CellsOf(state), oid);
        r := if k < |CellsOf(state)| then Some(CellsOf(state)[k]) else None;
    }

    /** Commit: write in place; the type is not checked again. */
    method CommitSet(oid: Oid, v: Value) returns (st: ErrorStatus)
      requires Valid()
      modifies this
      ensures Valid()
      ensures (state, st) == Commit(old(state), oid, v)
    {
      CommitKeepsShape(state, oid, v);
      match state
      case Provided(_, _) =>
        st := NotWritable;
      case Scalar(rt, _, writable) =>
        if !writable {
          return NotWritable;
        }
        if oid != Child(rt, 0) {
          return NoCreation;
        }
        state := state.(value := v);
        st := NoError;
      case Table(_, entries, writable) =>
        if !writable {
          return NotWritable;
        }
        var found := BinarySearch(entries, oid);
        LookupSpec(entries, oid);
        if found.None? {
          return NoCreation;
        }
        UpdateAt(entries, found.value, v);
        state := state.(entries := entries[found.value := VarBind(oid, v)]);
        st := NoError;
    }
  }

  // ----- What a SET can change -----

  /** Same kind, root, writability and instances: only values may differ. */
  ghost predicate SameShape(h: Handler, k: Handler) {
    && h.root == k.root
    && (h.Scalar? <==> k.Scalar?) && (h.Table? <==> k.Table?)
    && (!h.Provided? && !k.Provided? ==> h.writable == k.writable)
    && |CellsOf(h)| == |CellsOf(k)|
    && forall i :: 0 <= i < |CellsOf(h)| ==> CellsOf(h)[i].oid == CellsOf(k)[i].oid
  }

  lemma CommitKeepsShape(h: Handler, oid: Oid, v: Value)
    ensures SameShape(h, Commit(h, oid, v).0)
    ensures Ordered(CellsOf(h)) ==> Ordered(CellsOf(Commit(h, oid, v).0))
  {
  }

  lemma CommitUpdates(h: Handler, oid: Oid, v: Value)
    ensures Commit(h, oid, v).1 == NoError ==>
              CellsOf(Commit(h, oid, v).0) == Update(CellsOf(h), oid, v) && Lookup(CellsOf(h), oid).Some?
    ensures Commit(h, oid, v).1 != NoError ==> Commit(h, oid, v).0 == h
  {
  }

  lemma LookupByShape(s: seq<VarBind>, t: seq<VarBind>, oid: Oid)
    requires |s| == |t| && forall i :: 0 <= i < |s| ==> s[i].oid == t[i].oid
    ensures Lookup(s, oid).Some? <==> Lookup(t, oid).Some?
  {
    LookupSpec(s, oid);
    LookupSpec(t, oid);
  }

  /** Whether a commit succeeds depends only on the shape. */
  lemma CommitStatusByShape(h: Handler, k: Handler, oid: Oid, v: Value)
    requires SameShape(h, k)
    ensures Commit(h, oid, v).1 == Commit(k, oid, v).1
  {
    LookupByShape(CellsOf(h), CellsOf(k), oid);
  }

  /** A reserved write always commits, except on a provider-backed handler,
      where it never does. */
  lemma PreparedCommits(h: Handler, oid: Oid, v: Value)
    requires Prepare(h, oid, v) == NoError
    ensures Commit(h, oid, v).1 == if h.Provided? then NotWritable else NoError
    ensures !h.Provided? ==> Lookup(CellsOf(h), oid).Some?
    ensures !h.Provided? ==> TypesCompatible(Lookup(CellsOf(h), oid).value, v)
  {
  }

  lemma CompatibleIsSameType(current: Value, v: Value)
    ensures TypesCompatible(current, v) <==>
              TypeOf(current) == TypeOf(v) && !IsException(v) && !v.Null?
  {
  }
}
