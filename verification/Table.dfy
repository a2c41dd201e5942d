/** Assembling a conceptual table from a walk (crates/netsnmp-apps/src/table.rs). */
module Tables {
  import opened Oids
  import opened Values
  import opened Cells
  import opened Walks

  /** The sub-identifiers of `oid` behind `prefix`. */
  function IndexSuffix(prefix: Oid, oid: Oid): Option<seq<u32>> {
    if !IsPrefix(prefix, oid) then None else Some(oid[|prefix|..])
  }

  /** entry.column.index... */
  function CellOid(entry: Oid, column: u32, index: seq<u32>): Oid {
    entry + [column] + index
  }

  type Rows = map<seq<u32>, map<u32, Value>>

  /** What the table holds at a cell. */
  function At(rows: Rows, index: seq<u32>, column: u32): Option<Value> {
    if index in rows && column in rows[index] then Some(rows[index][column]) else None
  }

  /** Insert one cell; a missing row is created. */
  function Put(rows: Rows, index: seq<u32>, column: u32, v: Value): Rows {
    var row := if index in rows then rows[index] else map[];
    rows[index := row[column := v]]
  }

  /** The number of cells in the table: the filled (index, column) pairs. */
  ghost function Filled(rows: Rows): set<(seq<u32>, u32)> {
    set index, column | index in rows && column in rows[index] :: (index, column)
  }

  lemma PutFills(rows: Rows, index: seq<u32>, column: u32, v: Value)
    ensures Filled(Put(rows, index, column, v)) == Filled(rows) + {(index, column)}
    ensures forall i, c :: At(Put(rows, index, column, v), i, c)
                        == if i == index && c == column then Some(v) else At(rows, i, c)
  {
    var out := Put(rows, index, column, v);
    forall i, c ensures (i, c) in Filled(out) <==> (i, c) in Filled(rows) + {(index, column)} {
    }
  }

  /** The column and row index of a walked OID: none outside the entry or at the
      entry itself. */
  function Address(entry: Oid, oid: Oid): Option<(u32, seq<u32>)> {
    match IndexSuffix(entry, oid)
    case None => None
    case Some(suffix) => if suffix == [] then None else Some((suffix[0], suffix[1..]))
  }

  /** A cell address and its OID determine each other; only the entry itself and
      OIDs outside it have no address. */
  lemma CellOidInverts(entry: Oid, oid: Oid, column: u32, index: seq<u32>)
    ensures Address(entry, oid) == Some((column, index)) <==> oid == CellOid(entry, column, index)
    ensures Address(entry, oid).None? <==> !IsPrefix(entry, oid) || oid == entry
    ensures oid == CellOid(entry, column, index)
       <==> |oid| > |entry| && oid[..|entry|] == entry && oid[|entry|] == column && oid[|entry| + 1..] == index
  {
    var cell := CellOid(entry, column, index);
    assert cell == entry + ([column] + index) && cell[..|entry|] == entry;
    if IsPrefix(entry, oid) {
      assert oid == oid[..|entry|] + oid[|entry|..];
      if oid != entry {
        var suffix := oid[|entry|..];
        assert suffix == [suffix[0]] + suffix[1..];
        assert oid == CellOid(entry, suffix[0], suffix[1..]);
      }
    }
    var suffix := cell[|entry|..];
    assert suffix == [column] + index;
  }

  /** The rows after all of `vars` have been inserted in order. */
  function Assemble(entry: Oid, vars: seq<VarBind>): Rows {
    if vars == [] then map[]
    else
      var before := Assemble(entry, vars[..|vars| - 1]);
      var vb := vars[|vars| - 1];
      match Address(entry, vb.oid)
      case None => before
      case Some((column, index)) => Put(before, index, column, vb.value)
  }

  ghost predicate HasColumns(rows: Rows, columns: set<u32>) {
    forall c :: c in columns <==> exists index :: (index, c) in Filled(rows)
  }

  method FetchTable(entry: Oid, vars: seq<VarBind>) returns (columns: set<u32>, rows: Rows)
    ensures rows == Assemble(entry, vars) && HasColumns(rows, columns)
  {
    columns, rows := {}, map[];
    for n := 0 to |vars|
      invariant rows == Assemble(entry, vars[..n]) && HasColumns(rows, columns)
    {
      assert vars[..n + 1][..n] == vars[..n];
      var suffix := IndexSuffix(entry, vars[n].oid);
      if suffix.None? {
        continue;
      }
      if suffix.value == [] {
        continue;
      }
      var column, index := suffix.value[0], suffix.value[1..];
      ColumnsGrow(rows, columns, index, column, vars[n].value);
      columns := columns + {column};
      rows := Put(rows, index, column, vars[n].value);
    }
    assert vars[..|vars|] == vars;
  }

  lemma ColumnsGrow(rows: Rows, columns: set<u32>, index: seq<u32>, column: u32, v: Value)
    requires HasColumns(rows, columns)
    ensures HasColumns(Put(rows, index, column, v), columns + {column})
  {
    PutFills(rows, index, column, v);
    var out := Put(rows, index, column, v);
    assert (index, column) in Filled(out);
    forall c | c in columns ensures exists i :: (i, c) in Filled(out) {
      var i :| (i, c) in Filled(rows);
      assert (i, c) in Filled(out);
    }
  }

  lemma AddressInverts(entry: Oid, oid: Oid)
    requires IsPrefix(entry, oid) && oid != entry
    ensures Address(entry, oid).Some?
    ensures var (column, index) := Address(entry, oid).value; CellOid(entry, column, index) == oid
  {
    CellOidInverts(entry, oid, 0, []);
    var (column, index) := Address(entry, oid).value;
    CellOidInverts(entry, oid, column, index);
  }

  lemma ClimbsPrefix(entry: Oid, vars: seq<VarBind>, n: nat)
    requires Climbs(entry, entry, vars) && n <= |vars|
    ensures Climbs(entry, entry, vars[..n])
  {
    var t := vars[..n];
    forall i, j | 0 <= i < j < |t| ensures Less(t[i].oid, t[j].oid) {
      assert Less(vars[i].oid, vars[j].oid);
    }
  }

  /** The filled cells are exactly the walked OIDs. */
  lemma {:induction false} FilledIffWalked(entry: Oid, vars: seq<VarBind>, index: seq<u32>, column: u32)
    requires Climbs(entry, entry, vars)
    ensures (index, column) in Filled(Assemble(entry, vars))
       <==> exists k :: 0 <= k < |vars| && vars[k].oid == CellOid(entry, column, index)
  {
    if vars != [] {
      var n := |vars| - 1;
      ClimbsPrefix(entry, vars, n);
      FilledIffWalked(entry, vars[..n], index, column);
      AddressInverts(entry, vars[n].oid);
      CellOidInverts(entry, vars[n].oid, column, index);
      var (c, i) := Address(entry, vars[n].oid).value;
      PutFills(Assemble(entry, vars[..n]), i, c, vars[n].value);
      assert vars[n].oid == CellOid(entry, column, index) <==> (i, c) == (index, column);
      assert forall k :: 0 <= k < n ==> vars[..n][k] == vars[k];
    }
  }

  /** No walked binding lands on an earlier one. */
  lemma FreshAddress(entry: Oid, vars: seq<VarBind>, n: nat)
    requires Climbs(entry, entry, vars) && n < |vars|
    ensures Address(entry, vars[n].oid).Some?
    ensures var (c, i) := Address(entry, vars[n].oid).value;
      CellOid(entry, c, i) == vars[n].oid && (i, c) !in Filled(Assemble(entry, vars[..n]))
  {
    AddressInverts(entry, vars[n].oid);
    var (c, i) := Address(entry, vars[n].oid).value;
    ClimbsPrefix(entry, vars, n);
    FilledIffWalked(entry, vars[..n], i, c);
    forall k | 0 <= k < n ensures vars[k].oid != vars[n].oid {
      LessAsymmetric(vars[k].oid, vars[n].oid);
    }
  }

  /** The table of a walk has one cell per walked binding: nothing is lost and
      nothing overwritten. */
  lemma {:induction false} CellCount(entry: Oid, vars: seq<VarBind>)
    requires Climbs(entry, entry, vars)
    ensures |Filled(Assemble(entry, vars))| == |vars|
  {
    if vars == [] {
      assert Filled(map[]) == {};
    } else {
      var n := |vars| - 1;
      ClimbsPrefix(entry, vars, n);
      CellCount(entry, vars[..n]);
      FreshAddress(entry, vars, n);
      var (c, i) := Address(entry, vars[n].oid).value;
      PutFills(Assemble(entry, vars[..n]), i, c, vars[n].value);
    }
  }

  /** Every walked binding is found at its address, with its value, and the
      address gives the walked OID back. */
  lemma {:induction false} CellFound(entry: Oid, vars: seq<VarBind>, k: nat)
    requires Climbs(entry, entry, vars) && k < |vars|
    ensures Address(entry, vars[k].oid).Some?
    ensures var (column, index) := Address(entry, vars[k].oid).value;
      && CellOid(entry, column, index) == vars[k].oid
      && At(Assemble(entry, vars), index, column) == Some(vars[k].value)
  {
    var n := |vars| - 1;
    ClimbsPrefix(entry, vars, n);
    FreshAddress(entry, vars, n);
    var (c, i) := Address(entry, vars[n].oid).value;
    PutFills(Assemble(entry, vars[..n]), i, c, vars[n].value);
    if k < n {
      CellFound(entry, vars[..n], k);
      LessAsymmetric(vars[k].oid, vars[n].oid);
    }
  }

  /** The table of some walk has one cell per binding, at its address. */
  ghost predicate TableOf(entry: Oid, vars: seq<VarBind>) {
    && |Filled(Assemble(entry, vars))| == |vars|
    && forall index: seq<u32>, column: u32 :: (index, column) in Filled(Assemble(entry, vars)) <==>
         exists k :: 0 <= k < |vars| && vars[k].oid == CellOid(entry, column, index)
  }

  lemma TableOfClimb(entry: Oid, vars: seq<VarBind>)
    requires Climbs(entry, entry, vars)
    ensures TableOf(entry, vars)
  {
    CellCount(entry, vars);
    forall index: seq<u32>, column: u32
      ensures (index, column) in Filled(Assemble(entry, vars)) <==>
                exists k :: 0 <= k < |vars| && vars[k].oid == CellOid(entry, column, index)
    {
      FilledIffWalked(entry, vars, index, column);
    }
  }

  /** The tools' path as a whole: a walk against any agent, with GETBULK or with
      GETNEXT as in SNMPv1 sessions, assembled into a table. */
  lemma TableOfAnyWalk(server: Server, entry: Oid, budget: nat)
    ensures TableOf(entry, BulkWalkFrom(server, entry, entry, 0, budget).bindings)
    ensures TableOf(entry, WalkFrom(server, entry, entry, 0, budget).bindings)
  {
    BulkWalkClimbs(server, entry, entry, 0, budget);
    TableOfClimb(entry, BulkWalkFrom(server, entry, entry, 0, budget).bindings);
    WalkClimbs(server, entry, entry, 0, budget);
    TableOfClimb(entry, WalkFrom(server, entry, entry, 0, budget).bindings);
  }
}
