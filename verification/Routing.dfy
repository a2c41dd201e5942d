/** Which handler answers for an OID, and the MIB that all handlers form
    together (crates/netsnmp-agent/src/registry.rs). */
module Routing {
  import opened Oids
  import opened Values
  import opened StableSort
  import opened Cells
  import opened Handlers

  /** Every cell of every handler, handler by handler. */
  function AllCells(hs: seq<Handler>): seq<VarBind> {
    if hs == [] then [] else CellsOf(hs[0]) + AllCells(hs[1..])
  }

  ghost predicate RootsSorted(hs: seq<Handler>) {
    forall i, j {:trigger AtMost(hs[i].root, hs[j].root)} :: 0 <= i < j < |hs| ==> AtMost(hs[i].root, hs[j].root)
  }

  /** No root lies inside another handler's subtree. */
  ghost predicate DisjointRoots(hs: seq<Handler>) {
    forall i, j {:trigger IsPrefix(hs[i].root, hs[j].root)} ::
      0 <= i < |hs| && 0 <= j < |hs| && i != j ==> !IsPrefix(hs[i].root, hs[j].root)
  }

  ghost predicate ProperMib(hs: seq<Handler>) {
    RootsSorted(hs) && DisjointRoots(hs) && forall i :: 0 <= i < |hs| ==> WellFormed(hs[i])
  }

  lemma {:induction false} CellHasHandler(hs: seq<Handler>, c: VarBind)
    ensures c in AllCells(hs) <==> exists k :: 0 <= k < |hs| && c in CellsOf(hs[k])
  {
    if hs != [] {
      CellHasHandler(hs[1..], c);
      assert forall k :: 0 < k < |hs| ==> hs[k] == hs[1..][k - 1];
      if c in AllCells(hs[1..]) {
        var k :| 0 <= k < |hs[1..]| && c in CellsOf(hs[1..][k]);
        assert c in CellsOf(hs[k + 1]);
      }
    }
  }

  lemma HandlersInOrder(hs: seq<Handler>, i: nat, j: nat, a: VarBind, b: VarBind)
    requires ProperMib(hs) && i < j < |hs| && a in CellsOf(hs[i]) && b in CellsOf(hs[j])
    ensures Less(a.oid, b.oid)
  {
    assert AtMost(hs[i].root, hs[j].root) && !IsPrefix(hs[i].root, hs[j].root);
    assert WellFormed(hs[i]) && WellFormed(hs[j]);
    DisjointSubtreesInOrder(hs[i].root, hs[j].root, a.oid, b.oid);
  }

  lemma TailIsProper(hs: seq<Handler>)
    requires ProperMib(hs) && hs != []
    ensures ProperMib(hs[1..])
  {
    var t := hs[1..];
    forall i, j | 0 <= i < j < |t| ensures AtMost(t[i].root, t[j].root) {
      assert AtMost(hs[i + 1].root, hs[j + 1].root);
    }
    forall i, j | 0 <= i < |t| && 0 <= j < |t| && i != j ensures !IsPrefix(t[i].root, t[j].root) {
      assert !IsPrefix(hs[i + 1].root, hs[j + 1].root);
    }
  }

  lemma OrderedConcat(a: seq<VarBind>, b: seq<VarBind>)
    requires Ordered(a) && Ordered(b)
    requires forall x, y :: x in a && y in b ==> Less(x.oid, y.oid)
    ensures Ordered(a + b)
  {
    var s := a + b;
    forall i, j | 0 <= i < j < |s| ensures Less(s[i].oid, s[j].oid) {
      if j < |a| {
        assert Less(a[i].oid, a[j].oid);
      } else if i >= |a| {
        assert Less(b[i - |a|].oid, b[j - |a|].oid);
      } else {
        assert a[i] in a && b[j - |a|] in b;
      }
    }
  }

  /** Handlers with disjoint roots, kept sorted by root, form one ordered MIB. */
  lemma {:induction false} MibIsOrdered(hs: seq<Handler>)
    requires ProperMib(hs)
    ensures Ordered(AllCells(hs)) && Ordinary(AllCells(hs))
  {
    if hs != [] {
      var rest := AllCells(hs[1..]);
      TailIsProper(hs);
      MibIsOrdered(hs[1..]);
      assert WellFormed(hs[0]);
      forall a, b | a in CellsOf(hs[0]) && b in rest ensures Less(a.oid, b.oid) {
        FirstHandlerBelow(hs, a, b);
      }
      OrderedConcat(CellsOf(hs[0]), rest);
    }
  }

  lemma FirstHandlerBelow(hs: seq<Handler>, a: VarBind, b: VarBind)
    requires ProperMib(hs) && hs != [] && a in CellsOf(hs[0]) && b in AllCells(hs[1..])
    ensures Less(a.oid, b.oid)
  {
    var k := HandlerOf(hs[1..], b);
    assert hs[1..][k] == hs[k + 1];
    HandlersInOrder(hs, 0, k + 1, a, b);
  }

  lemma HandlerOf(hs: seq<Handler>, c: VarBind) returns (k: nat)
    requires c in AllCells(hs)
    ensures k < |hs| && c in CellsOf(hs[k])
  {
    CellHasHandler(hs, c);
    k :| k < |hs| && c in CellsOf(hs[k]);
  }

  /** Nested roots break the order: a cell of the inner subtree is skipped. */
  lemma NestedRootsSkipACell()
    ensures var outer := Table([1, 3], [VarBind([1, 3, 5], Null)], false);
      var inner := Table([1, 3, 4], [VarBind([1, 3, 4, 1], Null)], false);
      && RootsSorted([outer, inner]) && WellFormed(outer) && WellFormed(inner)
      && NextBind(AllCells([outer, inner]), [1, 3]) == VarBind([1, 3, 5], Null)
      && !LeastAbove(AllCells([outer, inner]), [1, 3], Successor(AllCells([outer, inner]), [1, 3]))
  {
    var outer := Table([1, 3], [VarBind([1, 3, 5], Null)], false);
    var inner := Table([1, 3, 4], [VarBind([1, 3, 4, 1], Null)], false);
    PrefixAtMost([1, 3], [1, 3, 4]);
    assert [1, 3, 5][..2] == [1, 3] && [1, 3, 4, 1][..3] == [1, 3, 4];
    OneCellTable([1, 3], [1, 3, 5]);
    OneCellTable([1, 3, 4], [1, 3, 4, 1]);
    CellsOfTwo(outer, inner);
    var cells := AllCells([outer, inner]);
    assert cells == [VarBind([1, 3, 5], Null), VarBind([1, 3, 4, 1], Null)];
    SkippedCell(cells);
  }

  lemma OneCellTable(root: Oid, oid: Oid)
    requires IsPrefix(root, oid)
    ensures WellFormed(Table(root, [VarBind(oid, Null)], false))
  {
    assert CellsOf(Table(root, [VarBind(oid, Null)], false)) == [VarBind(oid, Null)];
  }

  lemma CellsOfTwo(a: Handler, b: Handler)
    ensures AllCells([a, b]) == CellsOf(a) + CellsOf(b)
  {
    assert [a, b][1..] == [b] && [b][1..] == [];
    assert AllCells([b]) == CellsOf(b) + AllCells([]);
  }

  lemma SkippedCell(cells: seq<VarBind>)
    requires |cells| == 2 && cells[0].oid == [1, 3, 5] && cells[1].oid == [1, 3, 4, 1]
    ensures NextBind(cells, [1, 3]) == cells[0] && !LeastAbove(cells, [1, 3], Successor(cells, [1, 3]))
  {
    PrefixAtMost([1, 3], [1, 3, 4, 1]);
    PrefixAtMost([1, 3], [1, 3, 5]);
    assert DiffersAt([1, 3, 4, 1], [1, 3, 5], 2);
    DifferenceIsLess([1, 3, 4, 1], [1, 3, 5], 2);
    LessAsymmetric([1, 3, 4, 1], [1, 3, 5]);
    FirstAboveUnique(cells, [1, 3], 0);
    assert Less([1, 3], cells[1].oid) && !AtMost(cells[0].oid, cells[1].oid);
  }

  /** The overlap test of the proxy layer: every pair it accepts is disjoint. */
  method CheckConflicts(existing: seq<Oid>, newRoot: Oid) returns (ok: bool)
    ensures ok <==> forall i :: 0 <= i < |existing| ==>
                      !IsPrefix(existing[i], newRoot) && !IsPrefix(newRoot, existing[i])
  {
    for k := 0 to |existing|
      invariant forall i :: 0 <= i < k ==>
                  !IsPrefix(existing[i], newRoot) && !IsPrefix(newRoot, existing[i])
    {
      if IsPrefix(existing[k], newRoot) || IsPrefix(newRoot, existing[k]) {
        return false;
      }
    }
    ok := true;
  }

  // ----- GETNEXT across handlers -----

  /** The first handler with a successor decides. */
  lemma {:induction false} FirstAnsweringHandler(hs: seq<Handler>, oid: Oid, i: nat)
    requires i <= |hs|
    requires forall k :: 0 <= k < i ==> Successor(CellsOf(hs[k]), oid).None?
    requires i < |hs| ==> Successor(CellsOf(hs[i]), oid).Some?
    ensures Successor(AllCells(hs), oid) == if i < |hs| then Successor(CellsOf(hs[i]), oid) else None
  {
    if hs != [] {
      FirstAboveConcat(CellsOf(hs[0]), AllCells(hs[1..]), oid);
      if i > 0 {
        assert forall k :: 0 < k < |hs| ==> hs[k] == hs[1..][k - 1];
        FirstAnsweringHandler(hs[1..], oid, i - 1);
      }
    }
  }

  // ----- GET -----

  /** The handler whose root is the longest prefix of `oid`; the last one of
      equal length. */
  function OwnerOf(hs: seq<Handler>, oid: Oid): (r: Option<nat>)
    ensures r.Some? ==> r.value < |hs|
  {
    if hs == [] then None
    else
      var n := |hs| - 1;
      var best := OwnerOf(hs[..n], oid);
      if IsPrefix(hs[n].root, oid) && (best.None? || |hs[best.value].root| <= |hs[n].root|)
      then Some(n) else best
  }

  /** Handler i is the last of those with the longest root above `oid`. */
  ghost predicate LongestRoot(hs: seq<Handler>, oid: Oid, i: nat) {
    && i < |hs| && IsPrefix(hs[i].root, oid)
    && forall k :: 0 <= k < |hs| && IsPrefix(hs[k].root, oid) ==>
         |hs[k].root| < |hs[i].root| || (|hs[k].root| == |hs[i].root| && k <= i)
  }

  lemma {:induction false} OwnerSpec(hs: seq<Handler>, oid: Oid)
    ensures match OwnerOf(hs, oid)
            case None => forall k :: 0 <= k < |hs| ==> !IsPrefix(hs[k].root, oid)
            case Some(i) => LongestRoot(hs, oid, i)
  {
    if hs != [] {
      var n := |hs| - 1;
      OwnerSpec(hs[..n], oid);
      assert forall k :: 0 <= k < n ==> hs[..n][k] == hs[k];
    }
  }

  lemma {:induction false} OwnerByRoots(hs: seq<Handler>, ks: seq<Handler>, oid: Oid)
    requires |hs| == |ks| && forall i :: 0 <= i < |hs| ==> hs[i].root == ks[i].root
    ensures OwnerOf(hs, oid) == OwnerOf(ks, oid)
  {
    if hs != [] {
      OwnerByRoots(hs[..|hs| - 1], ks[..|hs| - 1], oid);
    }
  }

  function DoGet(hs: seq<Handler>, oid: Oid): Value {
    match OwnerOf(hs, oid)
    case None => NoSuchObject
    case Some(i) =>
      match Lookup(CellsOf(hs[i]), oid)
      case None => NoSuchInstance
      case Some(v) => v
  }

  lemma {:induction false} LookupAcross(hs: seq<Handler>, oid: Oid, i: nat)
    requires i < |hs| && forall k :: 0 <= k < |hs| && k != i ==> Lookup(CellsOf(hs[k]), oid).None?
    ensures Lookup(AllCells(hs), oid) == Lookup(CellsOf(hs[i]), oid)
  {
    LookupConcat(CellsOf(hs[0]), AllCells(hs[1..]), oid);
    assert forall k :: 0 < k < |hs| ==> hs[k] == hs[1..][k - 1];
    if i > 0 {
      LookupAcross(hs[1..], oid, i - 1);
    } else {
      NowhereFound(hs[1..], oid);
    }
  }

  lemma {:induction false} NowhereFound(hs: seq<Handler>, oid: Oid)
    requires forall k :: 0 <= k < |hs| ==> Lookup(CellsOf(hs[k]), oid).None?
    ensures Lookup(AllCells(hs), oid).None?
  {
    if hs != [] {
      LookupConcat(CellsOf(hs[0]), AllCells(hs[1..]), oid);
      assert forall k :: 0 < k < |hs| ==> hs[k] == hs[1..][k - 1];
      NowhereFound(hs[1..], oid);
    }
  }

  /** Of two prefixes of one OID the shorter is a prefix of the longer. */
  lemma PrefixesNest(p: Oid, q: Oid, oid: Oid)
    requires IsPrefix(p, oid) && IsPrefix(q, oid) && |p| <= |q|
    ensures IsPrefix(p, q)
  {
    assert q[..|p|] == oid[..|q|][..|p|] == oid[..|p|];
  }

  /** Disjoint roots, every cell under its handler's root: enough to tell whose
      an instance is. */
  ghost predicate Separated(hs: seq<Handler>) {
    DisjointRoots(hs) && forall i :: 0 <= i < |hs| ==> UnderRoot(hs[i])
  }

  lemma NotOwnersMiss(hs: seq<Handler>, oid: Oid, k: nat)
    requires Separated(hs) && k < |hs| && OwnerOf(hs, oid) != Some(k)
    ensures Lookup(CellsOf(hs[k]), oid).None?
  {
    LookupSpec(CellsOf(hs[k]), oid);
    OwnerSpec(hs, oid);
    if IsPrefix(hs[k].root, oid) {
      var i := OwnerOf(hs, oid).value;
      PrefixesNest(hs[k].root, hs[i].root, oid);
    }
  }

  /** GET agrees with the cells: a stored instance gives its value, a covered
      but missing one noSuchInstance, an uncovered one noSuchObject. */
  lemma GetAgreesWithCells(hs: seq<Handler>, oid: Oid)
    requires ProperMib(hs)
    ensures DoGet(hs, oid)
         == match Lookup(AllCells(hs), oid)
            case Some(v) => v
            case None => if exists k :: 0 <= k < |hs| && IsPrefix(hs[k].root, oid)
                         then NoSuchInstance else NoSuchObject
    ensures Lookup(AllCells(hs), oid).Some? <==> !IsException(DoGet(hs, oid))
  {
    MibIsOrdered(hs);
    OwnerSpec(hs, oid);
    forall k | 0 <= k < |hs| && OwnerOf(hs, oid) != Some(k) ensures Lookup(CellsOf(hs[k]), oid).None? {
      NotOwnersMiss(hs, oid, k);
    }
    match OwnerOf(hs, oid)
    case None => NowhereFound(hs, oid);
    case Some(i) => LookupAcross(hs, oid, i);
    LookupSpec(AllCells(hs), oid);
  }

  /** What GETNEXT returns can be read back with GET. */
  lemma GetAfterGetNext(hs: seq<Handler>, oid: Oid)
    requires ProperMib(hs) && Successor(AllCells(hs), oid).Some?
    ensures var vb := NextBind(AllCells(hs), oid);
      DoGet(hs, vb.oid) == vb.value
  {
    MibIsOrdered(hs);
    LookupOfCell(AllCells(hs), FirstAbove(AllCells(hs), oid));
    GetAgreesWithCells(hs, NextBind(AllCells(hs), oid).oid);
  }
}
