/** Sequences of instance cells and the GETNEXT, GETBULK and access-filtered
    lookups over them. A whole MIB is one such sequence: the cells of every
    handler, one handler after the other. */
module Cells {
  import opened Oids
  import opened Values
  import opened StableSort

  /** Strictly increasing OIDs. */
  ghost predicate Ordered(s: seq<VarBind>) {
    forall i, j {:trigger Less(s[i].oid, s[j].oid)} :: 0 <= i < j < |s| ==> Less(s[i].oid, s[j].oid)
  }

  /** No cell stores one of the exception values. */
  ghost predicate Ordinary(s: seq<VarBind>) {
    forall i :: 0 <= i < |s| ==> !IsException(s[i].value)
  }

  /** The index of the first cell strictly above `oid` (`partition_point` on a
      sorted slice); the length if there is none. */
  function FirstAbove(s: seq<VarBind>, oid: Oid): (k: nat)
    ensures k <= |s|
    ensures k < |s| ==> Less(oid, s[k].oid)
  {
    if s == [] || Less(oid, s[0].oid) then 0 else 1 + FirstAbove(s[1..], oid)
  }

  function Successor(s: seq<VarBind>, oid: Oid): Option<VarBind> {
    var k := FirstAbove(s, oid);
    if k < |s| then Some(s[k]) else None
  }

  /** The reply binding of one GETNEXT: the successor, or endOfMibView at the
      requested OID. */
  function NextBind(s: seq<VarBind>, oid: Oid): VarBind {
    var k := FirstAbove(s, oid);
    if k < |s| then s[k] else VarBind(oid, EndOfMibView)
  }

  // ----- GETNEXT -----

  lemma {:induction false} NoneAboveBefore(s: seq<VarBind>, oid: Oid)
    ensures forall j :: 0 <= j < FirstAbove(s, oid) ==> !Less(oid, s[j].oid)
  {
    if s != [] && !Less(oid, s[0].oid) {
      NoneAboveBefore(s[1..], oid);
    }
  }

  lemma FirstAboveUnique(s: seq<VarBind>, oid: Oid, k: nat)
    requires k <= |s|
    requires k < |s| ==> Less(oid, s[k].oid)
    requires forall j :: 0 <= j < k ==> !Less(oid, s[j].oid)
    ensures FirstAbove(s, oid) == k
  {
    NoneAboveBefore(s, oid);
  }

  lemma FirstAboveConcat(a: seq<VarBind>, b: seq<VarBind>, oid: Oid)
    ensures FirstAbove(a + b, oid)
         == if FirstAbove(a, oid) < |a| then FirstAbove(a, oid) else |a| + FirstAbove(b, oid)
  {
    var k := FirstAbove(a, oid);
    NoneAboveBefore(a, oid);
    NoneAboveBefore(b, oid);
    FirstAboveUnique(a + b, oid, if k < |a| then k else |a| + FirstAbove(b, oid));
  }

  lemma FirstAboveOfCell(s: seq<VarBind>, i: nat)
    requires Ordered(s) && i < |s|
    ensures FirstAbove(s, s[i].oid) == i + 1
  {
    forall j | 0 <= j < i + 1 ensures !Less(s[i].oid, s[j].oid) {
      if j < i {
        LessAsymmetric(s[j].oid, s[i].oid);
      } else {
        LessIrreflexive(s[i].oid);
      }
    }
    FirstAboveUnique(s, s[i].oid, i + 1);
  }

  /** `c` answers a GETNEXT of `oid` correctly: the least cell above it, or
      nothing when no cell is above it. */
  ghost predicate LeastAbove(s: seq<VarBind>, oid: Oid, c: Option<VarBind>) {
    match c
    case None => forall i :: 0 <= i < |s| ==> !Less(oid, s[i].oid)
    case Some(v) =>
      && v in s && Less(oid, v.oid)
      && forall i :: 0 <= i < |s| && Less(oid, s[i].oid) ==> AtMost(v.oid, s[i].oid)
  }

  lemma SuccessorIsLeast(s: seq<VarBind>, oid: Oid)
    requires Ordered(s)
    ensures LeastAbove(s, oid, Successor(s, oid))
  {
    NoneAboveBefore(s, oid);
  }

  /** An inverted pair of cells makes some GETNEXT skip the smaller one. */
  lemma InversionSkipsACell(s: seq<VarBind>, i: nat, j: nat) returns (oid: Oid)
    requires i < j < |s| && Less(s[j].oid, s[i].oid)
    requires s[j].oid != []
    requires forall k :: 0 <= k < i ==> Less(s[k].oid, s[j].oid)
    ensures !LeastAbove(s, oid, Successor(s, oid))
  {
    oid := [];
    var k := 0;
    while k < i
      invariant 0 <= k <= i
      invariant Less(oid, s[j].oid)
      invariant forall h :: 0 <= h < k ==> AtMost(s[h].oid, oid)
    {
      LessTotal(s[k].oid, oid);
      if Less(oid, s[k].oid) {
        forall h | 0 <= h < k ensures AtMost(s[h].oid, s[k].oid) {
          AtMostTransitive(s[h].oid, oid, s[k].oid);
        }
        oid := s[k].oid;
      }
      k := k + 1;
    }
    forall h | 0 <= h < i ensures !Less(oid, s[h].oid) {
      if Less(s[h].oid, oid) {
        LessAsymmetric(s[h].oid, oid);
      } else {
        LessIrreflexive(oid);
      }
    }
    LessTransitive(oid, s[j].oid, s[i].oid);
    FirstAboveUnique(s, oid, i);
    LessAsymmetric(s[j].oid, s[i].oid);
  }

  /** Inversions that GETNEXT cannot show: the later cell has the empty OID, which
      is above nothing, or one that an earlier cell already answers for. */
  ghost predicate InOrder(s: seq<VarBind>) {
    forall i, j {:trigger Less(s[j].oid, s[i].oid)} :: 0 <= i < j < |s| && Less(s[j].oid, s[i].oid) ==>
      s[j].oid == [] || Occurs(s[..i], s[j].oid)
  }

  ghost predicate Occurs(s: seq<VarBind>, oid: Oid) {
    exists k :: 0 <= k < |s| && s[k].oid == oid
  }

  lemma InOrderAnswersLeast(s: seq<VarBind>, oid: Oid)
    requires InOrder(s)
    ensures LeastAbove(s, oid, Successor(s, oid))
  {
    var k := FirstAbove(s, oid);
    NoneAboveBefore(s, oid);
    forall i | 0 <= i < |s| && Less(oid, s[i].oid)
      ensures k < |s| && AtMost(s[k].oid, s[i].oid)
    {
      forall h | 0 <= h < k ensures s[..k][h].oid != s[i].oid {
        assert !Less(oid, s[h].oid);
      }
      assert !Occurs(s[..k], s[i].oid);
      LessTotal(s[k].oid, s[i].oid);
    }
  }

  /** The first cell above s[j] hides it from some request. */
  lemma HiddenCell(s: seq<VarBind>, i: nat, j: nat) returns (oid: Oid)
    requires i < j < |s| && Less(s[j].oid, s[i].oid) && s[j].oid != [] && !Occurs(s[..i], s[j].oid)
    ensures !LeastAbove(s, oid, Successor(s, oid))
  {
    var first := FirstAbove(s, s[j].oid);
    NoneAboveBefore(s, s[j].oid);
    forall k | 0 <= k < first
      ensures Less(s[k].oid, s[j].oid)
    {
      assert s[..i][k].oid != s[j].oid;
      LessTotal(s[k].oid, s[j].oid);
    }
    oid := InversionSkipsACell(s, first, j);
  }

  /** GETNEXT answers every request with the least cell above it exactly when the
      cells are in order; for distinct cells below the root of the tree that is
      strictly increasing order. */
  lemma GetNextCorrectIffOrdered(s: seq<VarBind>)
    ensures InOrder(s) <==> forall oid :: LeastAbove(s, oid, Successor(s, oid))
    ensures (forall i, j :: 0 <= i < j < |s| ==> s[i].oid != s[j].oid) && (forall i :: 0 <= i < |s| ==> s[i].oid != []) ==>
              (InOrder(s) <==> Ordered(s))
  {
    if InOrder(s) {
      forall oid ensures LeastAbove(s, oid, Successor(s, oid)) {
        InOrderAnswersLeast(s, oid);
      }
    } else {
      var i, j :| 0 <= i < j < |s| && Less(s[j].oid, s[i].oid) && s[j].oid != [] && !Occurs(s[..i], s[j].oid);
      var oid := HiddenCell(s, i, j);
    }
    if forall i, j :: 0 <= i < j < |s| ==> s[i].oid != s[j].oid {
      DistinctInOrder(s);
    }
  }

  lemma DistinctInOrder(s: seq<VarBind>)
    requires forall i, j :: 0 <= i < j < |s| ==> s[i].oid != s[j].oid
    ensures Ordered(s) ==> InOrder(s)
    ensures InOrder(s) && (forall i :: 0 <= i < |s| ==> s[i].oid != []) ==> Ordered(s)
  {
    forall i, j | 0 <= i < j < |s|
      ensures Less(s[i].oid, s[j].oid) <==> !Less(s[j].oid, s[i].oid)
    {
      LessTotal(s[i].oid, s[j].oid);
      if Less(s[i].oid, s[j].oid) {
        LessAsymmetric(s[i].oid, s[j].oid);
      }
    }
    forall i, j | 0 <= i < j < |s|
      ensures !Occurs(s[..i], s[j].oid)
    {
    }
  }

  // ----- Repeated GETNEXT -----

  /** The n-fold GETNEXT of `oid`, for any single-step `next`. */
  function Nth(next: Oid -> VarBind, oid: Oid, n: nat): VarBind
    requires n > 0
  {
    if n == 1 then next(oid) else next(Nth(next, oid, n - 1).oid)
  }

  /** GETNEXT over these cells, as a function of the request. */
  function Plain(s: seq<VarBind>): Oid -> VarBind {
    (oid: Oid) => NextBind(s, oid)
  }

  /** Once endOfMibView is answered it is answered at the request's own OID. */
  ghost predicate Sticky(next: Oid -> VarBind) {
    forall oid :: next(oid).value == EndOfMibView ==> next(oid).oid == oid
  }

  lemma PlainIsSticky(s: seq<VarBind>)
    requires Ordinary(s)
    ensures Sticky(Plain(s))
  {
  }

  /** Iterating GETNEXT from anywhere lists every cell above, each once and in
      order, and from then on answers endOfMibView. */
  lemma {:induction false} NthEnumerates(s: seq<VarBind>, oid: Oid, n: nat)
    requires Ordered(s) && Ordinary(s) && n > 0
    ensures var f := FirstAbove(s, oid);
      Nth(Plain(s), oid, n)
        == if f + n - 1 < |s| then s[f + n - 1]
           else VarBind(if f < |s| then s[|s| - 1].oid else oid, EndOfMibView)
  {
    if n > 1 {
      var f := FirstAbove(s, oid);
      NthEnumerates(s, oid, n - 1);
      if f + n - 2 < |s| {
        NextOfCell(s, f + n - 2);
      } else if f < |s| {
        NextOfCell(s, |s| - 1);
      }
    }
  }

  lemma NextOfCell(s: seq<VarBind>, i: nat)
    requires Ordered(s) && i < |s|
    ensures Plain(s)(s[i].oid) == if i + 1 < |s| then s[i + 1] else VarBind(s[i].oid, EndOfMibView)
  {
    FirstAboveOfCell(s, i);
  }

  lemma {:induction false} NthShift(next: Oid -> VarBind, oid: Oid, n: nat)
    requires n > 0
    ensures Nth(next, oid, n + 1) == Nth(next, next(oid).oid, n)
  {
    if n > 1 {
      NthShift(next, oid, n - 1);
    }
  }

  // ----- GETBULK -----

  /** One pass over the cursors. */
  function Row(next: Oid -> VarBind, cursors: seq<Oid>): seq<VarBind> {
    seq(|cursors|, j requires 0 <= j < |cursors| => next(cursors[j]))
  }

  function OidsOf(row: seq<VarBind>): seq<Oid> {
    seq(|row|, j requires 0 <= j < |row| => row[j].oid)
  }

  predicate AllEnded(row: seq<VarBind>) {
    forall j :: 0 <= j < |row| ==> row[j].value == EndOfMibView
  }

  /** The repeater part of a GETBULK reply: rows until one is all endOfMibView
      or max-repetitions is reached. */
  function BulkRows(next: Oid -> VarBind, cursors: seq<Oid>, reps: nat): seq<VarBind>
    decreases reps
  {
    if reps == 0 then []
    else
      var row := Row(next, cursors);
      if AllEnded(row) then row else row + BulkRows(next, OidsOf(row), reps - 1)
  }

  /** The whole GETBULK reply: the first `nonRepeaters` requests once, the
      others repeated. */
  function BulkReply(next: Oid -> VarBind, oids: seq<Oid>, nonRepeaters: nat, reps: nat): seq<VarBind> {
    var n := if nonRepeaters <= |oids| then nonRepeaters else |oids|;
    Row(next, oids[..n]) + BulkRows(next, oids[n..], reps)
  }

  /** Row r of the full matrix of RFC 3416 section 4.2.3: the r-fold GETNEXT of
      every repeater. */
  ghost function NthRow(next: Oid -> VarBind, cursors: seq<Oid>, r: nat): seq<VarBind>
    requires r > 0
  {
    seq(|cursors|, j requires 0 <= j < |cursors| => Nth(next, cursors[j], r))
  }

  ghost function Matrix(next: Oid -> VarBind, cursors: seq<Oid>, rows: nat): seq<VarBind> {
    if rows == 0 then [] else Matrix(next, cursors, rows - 1) + NthRow(next, cursors, rows)
  }

  lemma NthRowShift(next: Oid -> VarBind, cursors: seq<Oid>, r: nat)
    requires r > 0
    ensures NthRow(next, cursors, r + 1) == NthRow(next, OidsOf(Row(next, cursors)), r)
    ensures NthRow(next, cursors, 1) == Row(next, cursors)
  {
    var tail := OidsOf(Row(next, cursors));
    forall j | 0 <= j < |cursors| ensures Nth(next, cursors[j], r + 1) == Nth(next, tail[j], r) {
      NthShift(next, cursors[j], r);
    }
  }

  lemma {:induction false} MatrixShift(next: Oid -> VarBind, cursors: seq<Oid>, rows: nat)
    ensures Matrix(next, cursors, rows + 1)
         == Row(next, cursors) + Matrix(next, OidsOf(Row(next, cursors)), rows)
    decreases rows
  {
    if rows == 0 {
      NthRowShift(next, cursors, 1);
      assert Matrix(next, cursors, 0) == [];
    } else {
      MatrixShift(next, cursors, rows - 1);
      NthRowShift(next, cursors, rows);
    }
  }

  /** From row k on up to row `reps` every entry repeats endOfMibView. */
  ghost predicate EndsAfter(next: Oid -> VarBind, cursors: seq<Oid>, k: nat, reps: nat)
    requires reps > 0 ==> k > 0
  {
    forall j, r: nat :: 0 <= j < |cursors| && k < r <= reps ==>
      Nth(next, cursors[j], r) == Nth(next, cursors[j], k) && Nth(next, cursors[j], r).value == EndOfMibView
  }

  /** The reply is the first k rows of the full matrix, and stopping early loses
      nothing: every omitted entry repeats endOfMibView at the same OID. */
  lemma {:induction false} BulkIsMatrixPrefix(next: Oid -> VarBind, cursors: seq<Oid>, reps: nat)
    returns (k: nat)
    requires Sticky(next)
    decreases reps
    ensures k <= reps && (reps > 0 ==> k > 0)
    ensures BulkRows(next, cursors, reps) == Matrix(next, cursors, k)
    ensures EndsAfter(next, cursors, k, reps)
  {
    if reps == 0 {
      k := 0;
    } else {
      var row := Row(next, cursors);
      if AllEnded(row) {
        k := 1;
        EndedMatrix(next, cursors, reps);
      } else {
        var tail := OidsOf(row);
        var k' := BulkIsMatrixPrefix(next, tail, reps - 1);
        k := k' + 1;
        MatrixRound(next, cursors, reps, k');
        EndsOneLater(next, cursors, k', reps - 1);
      }
    }
  }

  lemma MatrixRound(next: Oid -> VarBind, cursors: seq<Oid>, reps: nat, k: nat)
    requires reps > 0 && !AllEnded(Row(next, cursors))
    requires BulkRows(next, OidsOf(Row(next, cursors)), reps - 1) == Matrix(next, OidsOf(Row(next, cursors)), k)
    ensures BulkRows(next, cursors, reps) == Matrix(next, cursors, k + 1)
  {
    MatrixShift(next, cursors, k);
  }

  lemma EndsOneLater(next: Oid -> VarBind, cursors: seq<Oid>, k: nat, reps: nat)
    requires (reps > 0 ==> k > 0) && EndsAfter(next, OidsOf(Row(next, cursors)), k, reps)
    ensures EndsAfter(next, cursors, k + 1, reps + 1)
  {
    var tail := OidsOf(Row(next, cursors));
    forall j, r: nat | 0 <= j < |cursors| && k + 1 < r <= reps + 1
      ensures Nth(next, cursors[j], r) == Nth(next, cursors[j], k + 1)
      ensures Nth(next, cursors[j], r).value == EndOfMibView
    {
      assert tail[j] == next(cursors[j]).oid;
      OneRoundLater(next, cursors[j], tail[j], k, r - 1);
    }
  }

  lemma EndedMatrix(next: Oid -> VarBind, cursors: seq<Oid>, reps: nat)
    requires Sticky(next) && AllEnded(Row(next, cursors))
    ensures Row(next, cursors) == Matrix(next, cursors, 1) && EndsAfter(next, cursors, 1, reps)
  {
    var row := Row(next, cursors);
    NthRowShift(next, cursors, 1);
    assert Matrix(next, cursors, 0) == [];
    forall j, r: nat | 0 <= j < |cursors| && 1 < r <= reps
      ensures Nth(next, cursors[j], r) == next(cursors[j]) && next(cursors[j]).value == EndOfMibView
    {
      assert row[j] == next(cursors[j]);
      StaysEnded(next, cursors[j], r);
    }
  }

  lemma OneRoundLater(next: Oid -> VarBind, oid: Oid, later: Oid, k: nat, r: nat)
    requires later == next(oid).oid && 0 < k && 0 < r
    requires Nth(next, later, r) == Nth(next, later, k) && Nth(next, later, r).value == EndOfMibView
    ensures Nth(next, oid, r + 1) == Nth(next, oid, k + 1) && Nth(next, oid, r + 1).value == EndOfMibView
  {
    NthShift(next, oid, r);
    NthShift(next, oid, k);
  }

  lemma {:induction false} StaysEnded(next: Oid -> VarBind, oid: Oid, r: nat)
    requires Sticky(next) && r > 0 && next(oid).value == EndOfMibView
    ensures Nth(next, oid, r) == next(oid)
  {
    if r > 1 {
      StaysEnded(next, oid, r - 1);
    }
  }

  /** Only the answers matter, not how `next` computes them. */
  lemma {:induction false} BulkExtensional(f: Oid -> VarBind, g: Oid -> VarBind, cursors: seq<Oid>, reps: nat)
    requires forall oid :: f(oid) == g(oid)
    ensures BulkRows(f, cursors, reps) == BulkRows(g, cursors, reps)
    ensures Row(f, cursors) == Row(g, cursors)
    decreases reps
  {
    assert Row(f, cursors) == Row(g, cursors);
    if reps > 0 && !AllEnded(Row(f, cursors)) {
      BulkExtensional(f, g, OidsOf(Row(f, cursors)), reps - 1);
    }
  }

  // ----- Access-filtered GETNEXT -----

  function CountAbove(s: seq<VarBind>, oid: Oid): nat {
    if s == [] then 0 else (if Less(oid, s[0].oid) then 1 else 0) + CountAbove(s[1..], oid)
  }

  lemma {:induction false} CountAboveMonotone(s: seq<VarBind>, lo: Oid, hi: Oid)
    requires AtMost(lo, hi)
    ensures CountAbove(s, hi) <= CountAbove(s, lo)
  {
    if s != [] {
      CountAboveMonotone(s[1..], lo, hi);
      if Less(hi, s[0].oid) {
        AtMostTransitive(lo, hi, s[0].oid);
      }
    }
  }

  lemma {:induction false} CountAboveDrops(s: seq<VarBind>, lo: Oid, i: nat)
    requires i < |s| && Less(lo, s[i].oid)
    ensures CountAbove(s, s[i].oid) < CountAbove(s, lo)
  {
    if i == 0 {
      CountAboveMonotone(s[1..], lo, s[0].oid);
      LessIrreflexive(s[0].oid);
    } else {
      CountAboveDrops(s[1..], lo, i - 1);
      if Less(s[i].oid, s[0].oid) {
        LessTransitive(lo, s[i].oid, s[0].oid);
      }
    }
  }

  /** The walk of a GETNEXT past denied cells, from `cursor`, for a request of
      `origin`; each round leaves fewer cells above the cursor. */
  function AllowedFrom(s: seq<VarBind>, allowed: Oid -> bool, cursor: Oid, origin: Oid): VarBind
    decreases CountAbove(s, cursor)
  {
    var next := NextBind(s, cursor);
    if next.value == EndOfMibView then VarBind(origin, EndOfMibView)
    else if allowed(next.oid) then next
    else if AtMost(next.oid, cursor) then VarBind(origin, EndOfMibView)
    else
      CountAboveDrops(s, cursor, FirstAbove(s, cursor));
      AllowedFrom(s, allowed, next.oid, origin)
  }

  function Readable(s: seq<VarBind>, allowed: Oid -> bool): seq<VarBind> {
    Filter(s, (c: VarBind) => allowed(c.oid))
  }

  lemma ReadableMembers(s: seq<VarBind>, allowed: Oid -> bool)
    ensures forall c :: c in Readable(s, allowed) <==> c in s && allowed(c.oid)
  {
    FilterMembers(s, (c: VarBind) => allowed(c.oid));
  }

  lemma {:induction false} FilterOrdered(s: seq<VarBind>, keep: VarBind -> bool)
    requires Ordered(s)
    ensures Ordered(Filter(s, keep))
  {
    if s != [] {
      FilterOrdered(s[1..], keep);
      FilterMembers(s[1..], keep);
      var f := Filter(s[1..], keep);
      forall j | 0 <= j < |f| ensures Less(s[0].oid, f[j].oid) {
        assert f[j] in f;
        var k :| 0 <= k < |s[1..]| && s[1..][k] == f[j];
        assert s[k + 1] == f[j];
      }
    }
  }

  lemma FilterOrdinary(s: seq<VarBind>, keep: VarBind -> bool)
    requires Ordinary(s)
    ensures Ordinary(Filter(s, keep))
  {
    FilterMembers(s, keep);
    var f := Filter(s, keep);
    forall j | 0 <= j < |f| ensures !IsException(f[j].value) {
      assert f[j] in f;
    }
  }

  /** Where the next kept cell is, seen from the unfiltered list. */
  lemma {:induction false} FilterSuccessor(s: seq<VarBind>, keep: VarBind -> bool, oid: Oid)
    requires Ordered(s)
    ensures var k := FirstAbove(s, oid);
      Successor(Filter(s, keep), oid)
        == if k == |s| then None
           else if keep(s[k]) then Some(s[k])
           else Successor(Filter(s, keep), s[k].oid)
  {
    var k := FirstAbove(s, oid);
    var f := Filter(s, keep);
    FilterOrdered(s, keep);
    FilterMembers(s, keep);
    NoneAboveBefore(s, oid);
    SuccessorIsLeast(f, oid);
    if k < |s| {
      if keep(s[k]) {
        assert s[k] in f;
        var i :| 0 <= i < |f| && f[i] == s[k];
        forall j | 0 <= j < i ensures !Less(oid, f[j].oid) {
          assert f[j] in f;
          var h :| 0 <= h < |s| && s[h] == f[j];
          assert Less(s[h].oid, s[k].oid);
          if h >= k {
            if h == k { LessIrreflexive(s[k].oid); } else { LessAsymmetric(s[k].oid, s[h].oid); }
          }
        }
        FirstAboveUnique(f, oid, i);
      } else {
        var m := FirstAbove(f, s[k].oid);
        NoneAboveBefore(f, s[k].oid);
        if m < |f| {
          LessTransitive(oid, s[k].oid, f[m].oid);
        }
        forall j | 0 <= j < m ensures !Less(oid, f[j].oid) {
          assert f[j] in f;
          var h :| 0 <= h < |s| && s[h] == f[j];
          assert h < k;
        }
        FirstAboveUnique(f, oid, m);
      }
    } else {
      forall j | 0 <= j < |f| ensures !Less(oid, f[j].oid) {
        assert f[j] in f;
      }
      FirstAboveUnique(f, oid, |f|);
    }
  }

  /** Skipping denied successors is plain GETNEXT over the readable cells. */
  lemma {:induction false} AccessIsFiltering(s: seq<VarBind>, allowed: Oid -> bool, cursor: Oid, origin: Oid)
    requires Ordered(s) && Ordinary(s)
    ensures AllowedFrom(s, allowed, cursor, origin)
         == match Successor(Readable(s, allowed), cursor)
            case Some(c) => c
            case None => VarBind(origin, EndOfMibView)
    decreases CountAbove(s, cursor)
  {
    var k := FirstAbove(s, cursor);
    FilterSuccessor(s, (c: VarBind) => allowed(c.oid), cursor);
    if k < |s| && !allowed(s[k].oid) {
      LessAsymmetric(cursor, s[k].oid);
      CountAboveDrops(s, cursor, k);
      AccessIsFiltering(s, allowed, s[k].oid, origin);
    }
  }

  /** GETNEXT under access control, as a function of the request. */
  function Filtered(s: seq<VarBind>, allowed: Oid -> bool): Oid -> VarBind {
    (oid: Oid) => AllowedFrom(s, allowed, oid, oid)
  }

  lemma {:induction false} AllowedFromEnds(s: seq<VarBind>, allowed: Oid -> bool, cursor: Oid, origin: Oid)
    ensures var vb := AllowedFrom(s, allowed, cursor, origin); vb.value == EndOfMibView ==> vb.oid == origin
    decreases CountAbove(s, cursor)
  {
    var next := NextBind(s, cursor);
    if next.value != EndOfMibView && !allowed(next.oid) && !AtMost(next.oid, cursor) {
      CountAboveDrops(s, cursor, FirstAbove(s, cursor));
      AllowedFromEnds(s, allowed, next.oid, origin);
    }
  }

  lemma FilteredIsSticky(s: seq<VarBind>, allowed: Oid -> bool)
    ensures Sticky(Filtered(s, allowed))
  {
    forall oid ensures Filtered(s, allowed)(oid).value == EndOfMibView ==> Filtered(s, allowed)(oid).oid == oid {
      AllowedFromEnds(s, allowed, oid, oid);
    }
  }

  lemma FilteredIsPlain(s: seq<VarBind>, allowed: Oid -> bool)
    requires Ordered(s) && Ordinary(s)
    ensures forall oid :: Filtered(s, allowed)(oid) == Plain(Readable(s, allowed))(oid)
    ensures Ordered(Readable(s, allowed)) && Ordinary(Readable(s, allowed))
  {
    forall oid ensures Filtered(s, allowed)(oid) == Plain(Readable(s, allowed))(oid) {
      AccessIsFiltering(s, allowed, oid, oid);
    }
    FilterOrdered(s, (c: VarBind) => allowed(c.oid));
    FilterOrdinary(s, (c: VarBind) => allowed(c.oid));
  }

  /** The answer is the least allowed cell above the request, or endOfMibView at
      the requested OID when there is none; a denied OID is never shown. */
  lemma FilteredNextSafety(s: seq<VarBind>, allowed: Oid -> bool, oid: Oid)
    requires Ordered(s) && Ordinary(s)
    ensures var vb := Filtered(s, allowed)(oid);
      if exists c :: c in s && allowed(c.oid) && Less(oid, c.oid)
      then vb in s && allowed(vb.oid) && Less(oid, vb.oid)
           && forall c :: c in s && allowed(c.oid) && Less(oid, c.oid) ==> AtMost(vb.oid, c.oid)
      else vb == VarBind(oid, EndOfMibView)
  {
    FilteredIsPlain(s, allowed);
    ReadableMembers(s, allowed);
    var r := Readable(s, allowed);
    SuccessorIsLeast(r, oid);
    assert Filtered(s, allowed)(oid) == Plain(r)(oid);
    forall c | c in s && allowed(c.oid) && Less(oid, c.oid)
      ensures Successor(r, oid).Some? && AtMost(Successor(r, oid).value.oid, c.oid)
    {
      assert c in r;
      var i :| 0 <= i < |r| && r[i] == c;
    }
    if Successor(r, oid).Some? {
      var v := Successor(r, oid).value;
      assert v in r;
    }
  }

  /** Access-checked GETBULK is GETBULK over the readable cells; with everything
      allowed it is the unchecked one. */
  lemma FilteredBulk(s: seq<VarBind>, allowed: Oid -> bool, oids: seq<Oid>, nonRepeaters: nat, reps: nat)
    requires Ordered(s) && Ordinary(s)
    ensures BulkReply(Filtered(s, allowed), oids, nonRepeaters, reps)
         == BulkReply(Plain(Readable(s, allowed)), oids, nonRepeaters, reps)
    ensures (forall i :: 0 <= i < |s| ==> allowed(s[i].oid)) ==> Readable(s, allowed) == s
  {
    FilteredIsPlain(s, allowed);
    var n := if nonRepeaters <= |oids| then nonRepeaters else |oids|;
    BulkExtensional(Filtered(s, allowed), Plain(Readable(s, allowed)), oids[..n], 0);
    BulkExtensional(Filtered(s, allowed), Plain(Readable(s, allowed)), oids[n..], reps);
    if forall i :: 0 <= i < |s| ==> allowed(s[i].oid) {
      ReadableAll(s, allowed);
    }
  }

  lemma {:induction false} ReadableAll(s: seq<VarBind>, allowed: Oid -> bool)
    requires forall i :: 0 <= i < |s| ==> allowed(s[i].oid)
    ensures Readable(s, allowed) == s
  {
    if s != [] {
      ReadableAll(s[1..], allowed);
    }
  }
}
