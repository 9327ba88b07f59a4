/** Logical backup and restore of a database: tables are cleared children first and
    refilled parents first, so that foreign keys hold after every statement. */
module Restore {
  import opened Shared

  /** Tables are numbered, see the constants below. */
  type Table = nat

  /** A reference to the row with the given key of another table. */
  datatype Ref = Ref(table: Table, key: string)

  /** A value in a column that the schema declares unique; nulls are left out. */
  datatype Cell = Cell(column: string, value: string)

  datatype Row = Row(key: string, unique: set<Cell>, refs: set<Ref>, data: string)

  type State = map<Table, seq<Row>>

  /** The tables each table's foreign keys point to. */
  type Schema = map<Table, set<Table>>

  const INSERT_CHUNK := 500

  function Rows(db: State, t: Table): seq<Row> {
    if t in db then db[t] else []
  }

  function Parents(schema: Schema, t: Table): set<Table> {
    if t in schema then schema[t] else {}
  }

  // ---------------------------------------------------------------------
  // Integrity
  // ---------------------------------------------------------------------

  predicate HasKey(rows: seq<Row>, key: string) {
    exists i :: 0 <= i < |rows| && rows[i].key == key
  }

  predicate Resolves(db: State, row: Row) {
    forall r :: r in row.refs ==> HasKey(Rows(db, r.table), r.key)
  }

  predicate Unique(rows: seq<Row>) {
    forall i, j :: 0 <= i < j < |rows| ==> rows[i].key != rows[j].key && rows[i].unique !! rows[j].unique
  }

  predicate TableIntact(db: State, t: Table) {
    Unique(Rows(db, t)) && forall i :: 0 <= i < |Rows(db, t)| ==> Resolves(db, Rows(db, t)[i])
  }

  /** Primary keys and unique columns are unique, and every reference has its row. */
  predicate Intact(db: State) {
    forall t :: t in db ==> TableIntact(db, t)
  }

  /** References only go where the schema has a foreign key. */
  ghost predicate RefsAllowed(schema: Schema, t: Table, rows: seq<Row>) {
    forall i, r :: 0 <= i < |rows| && r in rows[i].refs ==> r.table in Parents(schema, t)
  }

  ghost predicate Conforms(db: State, schema: Schema) {
    forall t :: t in db ==> RefsAllowed(schema, t, db[t])
  }

  // ---------------------------------------------------------------------
  // The database
  // ---------------------------------------------------------------------

  /** Immediate constraints: a statement either leads to an intact state or has no
      effect. */
  class Database {
    var tables: State

    constructor (tables: State)
      ensures this.tables == tables
    {
      this.tables := tables;
    }

    method Delete(t: Table) returns (ok: bool)
      modifies this
      ensures ok <==> Intact(old(tables)[t := []])
      ensures tables == if ok then old(tables)[t := []] else old(tables)
    {
      var next := tables[t := []];
      ok := Intact(next);
      if ok {
        tables := next;
      }
    }

    method Insert(t: Table, rows: seq<Row>) returns (ok: bool)
      modifies this
      ensures ok <==> Intact(old(tables)[t := Rows(old(tables), t) + rows])
      ensures tables == if ok then old(tables)[t := Rows(old(tables), t) + rows] else old(tables)
    {
      var next := tables[t := Rows(tables, t) + rows];
      ok := Intact(next);
      if ok {
        tables := next;
      }
    }
  }

  // ---------------------------------------------------------------------
  // The order of the tables and the bundle
  // ---------------------------------------------------------------------

  ghost predicate Distinct(order: seq<Table>) {
    forall i, j :: 0 <= i < j < |order| ==> order[i] != order[j]
  }

  /** Parents come strictly before their children. */
  ghost predicate ParentsFirst(schema: Schema, order: seq<Table>) {
    Distinct(order) && forall i :: 0 <= i < |order| ==> forall p :: p in Parents(schema, order[i]) ==> p in order[..i]
  }

  /** No table outside the order refers into it. */
  ghost predicate SelfContained(schema: Schema, order: seq<Table>) {
    forall t :: t in schema && t !in order ==> forall p :: p in schema[t] ==> p !in order
  }

  /** The listed tables of the bundle are unique and refer to rows of the bundle. */
  ghost predicate BundleIntact(order: seq<Table>, data: State) {
    forall t :: t in order ==> TableIntact(data, t)
  }

  /** What a restore is to leave: listed tables as in the bundle, and empty where the
      bundle lacks them; all others as they were. */
  ghost function Restored(db: State, order: seq<Table>, data: State): State {
    map t | t in db.Keys + (set x | x in order) :: if t in order then Rows(data, t) else db[t]
  }

  /** A listed table that the bundle lacks keeps its rows exactly if it has none. */
  lemma MissingKeptExactly(db: State, order: seq<Table>, data: State, t: Table)
    requires t in order && t !in data
    ensures Rows(Restored(db, order, data), t) == Rows(db, t) <==> Rows(db, t) == []
  {
  }

  /** The state with tables `order[i..]` deleted. */
  ghost function Cleared(db: State, order: seq<Table>, i: nat): State
    requires i <= |order|
  {
    map t | t in db.Keys + (set x | x in order[i..]) :: if t in order[i..] then [] else db[t]
  }

  /** The state with tables `order[..i]` refilled and `n` rows of the next one. */
  ghost function Refilled(db: State, order: seq<Table>, data: State, i: nat, n: nat): State
    requires i <= |order|
    requires i < |order| ==> n <= |Rows(data, order[i])|
  {
    map t | t in db.Keys + (set x | x in order) ::
      if t in order[..i] then Rows(data, t)
      else if t in order then (if t == order[i] then Rows(data, t)[..n] else [])
      else db[t]
  }

  /** The order suits the schema, and both sides refer only where it has foreign keys. */
  ghost predicate Suits(db: State, schema: Schema, order: seq<Table>, data: State) {
    && ParentsFirst(schema, order) && SelfContained(schema, order)
    && Intact(db) && Conforms(db, schema)
    && forall t :: t in order ==> RefsAllowed(schema, t, Rows(data, t))
  }

  ghost predicate Restorable(db: State, schema: Schema, order: seq<Table>, data: State) {
    Suits(db, schema, order, data) && BundleIntact(order, data)
  }

  lemma InOrderBefore(order: seq<Table>, i: nat, t: Table)
    requires Distinct(order) && i <= |order|
    ensures t in order <==> t in order[..i] || t in order[i..]
    ensures !(t in order[..i] && t in order[i..])
  {
    assert order == order[..i] + order[i..];
    if t in order[..i] {
      var j :| 0 <= j < i && order[..i][j] == t;
      assert order[j] == t;
      assert forall k :: i <= k < |order| ==> order[k] != t;
    }
  }

  /** A table's parents stay on its side of any cut through the order. */
  lemma ParentSide(schema: Schema, order: seq<Table>, i: nat, t: Table, p: Table)
    requires ParentsFirst(schema, order) && SelfContained(schema, order) && i <= |order|
    requires p in Parents(schema, t)
    ensures t in order[..i] ==> p in order[..i]
    ensures t !in order ==> p !in order
    ensures i < |order| && t == order[i] ==> p in order[..i]
  {
    if t in order[..i] {
      var j :| 0 <= j < i && order[..i][j] == t;
      assert order[j] == t;
      assert p in order[..j];
      var k :| 0 <= k < j && order[..j][k] == p;
      assert order[..i][k] == p;
    }
  }

  /** Deleting children first leaves an intact state after every single delete. */
  lemma ClearedIntact(db: State, schema: Schema, order: seq<Table>, data: State, i: nat)
    requires Restorable(db, schema, order, data) && i <= |order|
    ensures Intact(Cleared(db, order, i))
  {
    hide ParentsFirst, SelfContained, BundleIntact, HasKey;
    var next := Cleared(db, order, i);
    forall t | t in next
      ensures TableIntact(next, t)
    {
      if t !in order[i..] {
        assert TableIntact(db, t) && next[t] == db[t];
        forall n, r | 0 <= n < |db[t]| && r in db[t][n].refs
          ensures Rows(next, r.table) == Rows(db, r.table)
        {
          assert RefsAllowed(schema, t, db[t]);
          ParentKept(schema, order, i, t, r.table);
        }
        forall n | 0 <= n < |db[t]|
          ensures Resolves(next, db[t][n])
        {
          assert Resolves(db, db[t][n]);
        }
      }
    }
  }

  lemma ParentKept(schema: Schema, order: seq<Table>, i: nat, t: Table, p: Table)
    requires ParentsFirst(schema, order) && SelfContained(schema, order) && i <= |order|
    requires p in Parents(schema, t) && t !in order[i..]
    ensures p !in order[i..]
  {
    InOrderBefore(order, i, t);
    InOrderBefore(order, i, p);
    ParentSide(schema, order, i, t, p);
  }

  /** Refilling parents first leaves an intact state after every single chunk. */
  lemma RefilledIntact(db: State, schema: Schema, order: seq<Table>, data: State, i: nat, n: nat)
    requires Restorable(db, schema, order, data) && i <= |order|
    requires i < |order| ==> n <= |Rows(data, order[i])|
    ensures Intact(Refilled(db, order, data, i, n))
  {
    hide ParentsFirst, SelfContained, Conforms, RefsAllowed, Refilled, Resolves, Unique;
    var next := Refilled(db, order, data, i, n);
    forall t | t in next
      ensures TableIntact(next, t)
    {
      RefilledAt(db, order, data, i, n, t);
      RowsResolve(db, schema, order, data, i, n, t);
      UniquePrefix(Rows(data, t), n);
      if t in order {
        assert TableIntact(data, t);
      } else {
        assert TableIntact(db, t);
      }
    }
  }

  lemma UniquePrefix(rows: seq<Row>, n: nat)
    ensures Unique([])
    ensures Unique(rows) && n <= |rows| ==> Unique(rows[..n])
  {
  }

  lemma RowsResolve(db: State, schema: Schema, order: seq<Table>, data: State, i: nat, n: nat, t: Table)
    requires Restorable(db, schema, order, data) && i <= |order|
    requires i < |order| ==> n <= |Rows(data, order[i])|
    requires t in Refilled(db, order, data, i, n)
    ensures var next := Refilled(db, order, data, i, n);
      forall k :: 0 <= k < |next[t]| ==> Resolves(next, next[t][k])
  {
    hide ParentsFirst, SelfContained, HasKey;
    var next := Refilled(db, order, data, i, n);
    var source := if t in order then Rows(data, t) else db[t];
    assert RefsAllowed(schema, t, source) by {
      if t !in order {
        assert t in db;
      }
    }
    forall k | 0 <= k < |next[t]|
      ensures Resolves(next, next[t][k])
    {
      assert next[t][k] == source[k];
      assert Resolves(if t in order then data else db, source[k]) by {
        assert TableIntact(if t in order then data else db, t);
      }
      forall r | r in source[k].refs
        ensures HasKey(Rows(next, r.table), r.key)
      {
        ParentSide(schema, order, i, t, r.table);
        PrefixMember(order, i, r.table);
      }
    }
  }

  /** Everything a restore is to leave holds together exactly if the bundle does. */
  lemma RestoredIntact(db: State, schema: Schema, order: seq<Table>, data: State)
    requires Suits(db, schema, order, data)
    ensures Intact(Restored(db, order, data)) <==> BundleIntact(order, data)
  {
    hide ParentsFirst, SelfContained, HasKey, Intact, Conforms, RefsAllowed, Resolves, Unique, Restored;
    var after := Restored(db, order, data);
    if BundleIntact(order, data) {
      RefilledIntact(db, schema, order, data, |order|, 0);
      RefilledEnd(db, order, data);
    } else if Intact(after) {
      forall t | t in order
        ensures TableIntact(data, t)
      {
        BundleTable(db, schema, order, data, t);
      }
    }
  }

  lemma BundleTable(db: State, schema: Schema, order: seq<Table>, data: State, t: Table)
    requires Suits(db, schema, order, data) && Intact(Restored(db, order, data)) && t in order
    ensures TableIntact(data, t)
  {
    hide ParentsFirst, SelfContained, HasKey, Conforms, Unique;
    var after, rows := Restored(db, order, data), Rows(data, t);
    assert TableIntact(after, t) && Rows(after, t) == rows;
    forall i | 0 <= i < |rows|
      ensures Resolves(data, rows[i])
    {
      assert Resolves(after, rows[i]);
      forall r | r in rows[i].refs
        ensures Rows(after, r.table) == Rows(data, r.table)
      {
        assert RefsAllowed(schema, t, rows);
        ParentListed(schema, order, t, r.table);
      }
    }
  }

  lemma PrefixMember(order: seq<Table>, i: nat, p: Table)
    requires i <= |order|
    ensures p in order[..i] ==> p in order
  {
  }

  // ---------------------------------------------------------------------
  // Restore
  // ---------------------------------------------------------------------

  ghost predicate AllIntact(trace: seq<State>) {
    forall i :: 0 <= i < |trace| ==> Intact(trace[i])
  }

  /** `trace` holds the state after every statement that took effect. The restore
      stops at the first statement the database refuses; when none is refused the
      listed tables are the bundle's. When the order suits the schema, none is refused
      exactly if the bundle is intact. */
  method RestoreOne(db: Database, order: seq<Table>, data: State, ghost schema: Schema)
    returns (ok: bool, ghost trace: seq<State>)
    requires Distinct(order)
    modifies db
    ensures AllIntact(trace)
    ensures db.tables == if trace == [] then old(db.tables) else trace[|trace| - 1]
    ensures ok ==> db.tables == Restored(old(db.tables), order, data)
    ensures ok ==> forall t :: t in order ==>
      t in db.tables && db.tables[t] == if t in data then data[t] else []
    ensures ok ==> forall t :: t !in order ==>
      (t in db.tables <==> t in old(db.tables)) && (t in db.tables ==> db.tables[t] == old(db.tables)[t])
    ensures Suits(old(db.tables), schema, order, data) ==> (ok <==> BundleIntact(order, data))
  {
    hide Intact, Suits, BundleIntact, Cleared, Refilled, Restored;
    ghost var start := db.tables;
    ghost var fine := Restorable(start, schema, order, data);
    trace := [];
    var i := |order|;
    ClearedStart(start, order);
    while i > 0
      invariant 0 <= i <= |order|
      invariant AllIntact(trace)
      invariant db.tables == if trace == [] then start else trace[|trace| - 1]
      invariant db.tables == Cleared(start, order, i)
    {
      i := i - 1;
      ClearedStep(start, order, i);
      if fine {
        ClearedIntact(start, schema, order, data, i);
      }
      var done := db.Delete(order[i]);
      if !done {
        return false, trace;
      }
      trace := trace + [db.tables];
    }
    RefilledStart(start, order, data);
    for j := 0 to |order|
      invariant AllIntact(trace)
      invariant db.tables == if trace == [] then start else trace[|trace| - 1]
      invariant db.tables == Refilled(start, order, data, j, 0)
    {
      var rows := Rows(data, order[j]);
      var n := 0;
      while n < |rows|
        invariant 0 <= n <= |rows|
        invariant AllIntact(trace)
        invariant db.tables == if trace == [] then start else trace[|trace| - 1]
        invariant db.tables == Refilled(start, order, data, j, n)
      {
        var end := if n + INSERT_CHUNK < |rows| then n + INSERT_CHUNK else |rows|;
        NotEarlier(order, j);
        ChunkStep(start, order, data, j, n, end);
        if fine {
          RefilledIntact(start, schema, order, data, j, end);
        }
        var done := db.Insert(order[j], rows[n..end]);
        if !done {
          return false, trace;
        }
        trace := trace + [db.tables];
        n := end;
      }
      RefilledNext(start, order, data, j);
    }
    RefilledEnd(start, order, data);
    if Suits(start, schema, order, data) {
      SuitedIntact(start, schema, order, data);
      RestoredIntact(start, schema, order, data);
    }
    RestoredTables(start, order, data);
    ok := true;
  }

  lemma RestoredTables(db: State, order: seq<Table>, data: State)
    ensures var after := Restored(db, order, data);
      && (forall t :: t in order ==> t in after && after[t] == if t in data then data[t] else [])
      && (forall t :: t !in order ==> (t in after <==> t in db) && (t in after ==> after[t] == db[t]))
  {
  }

  lemma SuitedIntact(db: State, schema: Schema, order: seq<Table>, data: State)
    requires Suits(db, schema, order, data)
    ensures Intact(db)
  {
  }

  lemma ClearedStart(db: State, order: seq<Table>)
    ensures Cleared(db, order, |order|) == db
  {
  }

  lemma ClearedStep(db: State, order: seq<Table>, i: nat)
    requires i < |order|
    ensures Cleared(db, order, i + 1)[order[i] := []] == Cleared(db, order, i)
  {
    assert order[i..] == [order[i]] + order[i + 1..];
    forall t
      ensures t in order[i..] <==> t == order[i] || t in order[i + 1..]
    {
    }
  }

  lemma RefilledStart(db: State, order: seq<Table>, data: State)
    ensures Cleared(db, order, 0) == Refilled(db, order, data, 0, 0)
  {
    assert order[0..] == order;
    if order != [] {
      assert Rows(data, order[0])[..0] == [];
    }
  }

  lemma NotEarlier(order: seq<Table>, i: nat)
    requires Distinct(order) && i < |order|
    ensures order[i] !in order[..i]
  {
  }

  lemma ChunkStep(db: State, order: seq<Table>, data: State, i: nat, n: nat, end: nat)
    requires i < |order| && n <= end <= |Rows(data, order[i])| && order[i] !in order[..i]
    ensures var before := Refilled(db, order, data, i, n);
      before[order[i] := Rows(before, order[i]) + Rows(data, order[i])[n..end]] == Refilled(db, order, data, i, end)
  {
    hide Rows, Refilled;
    var t := order[i];
    assert Rows(data, t)[..n] + Rows(data, t)[n..end] == Rows(data, t)[..end];
    var before, after := Refilled(db, order, data, i, n), Refilled(db, order, data, i, end);
    RefilledAt(db, order, data, i, n, t);
    RefilledAt(db, order, data, i, end, t);
    RowsListed(before, t);
    forall u | u in before
      ensures u != t ==> before[u] == after[u]
    {
      RefilledAt(db, order, data, i, n, u);
      RefilledAt(db, order, data, i, end, u);
    }
  }

  lemma RowsListed(db: State, t: Table)
    requires t in db
    ensures Rows(db, t) == db[t]
  {
  }

  lemma RefilledAt(db: State, order: seq<Table>, data: State, i: nat, n: nat, t: Table)
    requires i <= |order|
    requires i < |order| ==> n <= |Rows(data, order[i])|
    ensures var r := Refilled(db, order, data, i, n);
      && r.Keys == db.Keys + (set x | x in order)
      && (t in r && t in order[..i] ==> r[t] == Rows(data, t))
      && (t in r && t in order && t !in order[..i] ==>
            r[t] == if t == order[i] then Rows(data, t)[..n] else [])
      && (t in r && t !in order ==> t in db && r[t] == db[t])
  {
    hide Rows;
  }

  lemma RefilledNext(db: State, order: seq<Table>, data: State, i: nat)
    requires i < |order|
    ensures Refilled(db, order, data, i, |Rows(data, order[i])|) == Refilled(db, order, data, i + 1, 0)
  {
    hide Rows, Refilled;
    var rows := Rows(data, order[i]);
    var before, after := Refilled(db, order, data, i, |rows|), Refilled(db, order, data, i + 1, 0);
    RefilledAt(db, order, data, i, |rows|, 0);
    RefilledAt(db, order, data, i + 1, 0, 0);
    forall t | t in before
      ensures before[t] == after[t]
    {
      NextPrefix(order, i, t);
      RefilledAt(db, order, data, i, |rows|, t);
      RefilledAt(db, order, data, i + 1, 0, t);
      assert rows[..|rows|] == rows;
      assert Rows(data, t)[..0] == [];
    }
  }

  lemma NextPrefix(order: seq<Table>, i: nat, t: Table)
    requires i < |order|
    ensures t in order[..i + 1] <==> t in order[..i] || t == order[i]
  {
    assert order[..i + 1] == order[..i] + [order[i]];
  }

  lemma RefilledEnd(db: State, order: seq<Table>, data: State)
    ensures Refilled(db, order, data, |order|, 0) == Restored(db, order, data)
  {
    assert order[..|order|] == order;
  }

  // ---------------------------------------------------------------------
  // Export and the round trip
  // ---------------------------------------------------------------------

  /** The rows of every listed table, under the table's name. */
  ghost function Dump(db: State, order: seq<Table>): State {
    map t | t in order :: Rows(db, t)
  }

  method DumpTables(db: Database, order: seq<Table>) returns (out: State)
    ensures out == Dump(db.tables, order)
    ensures out == map t | t in order :: if t in db.tables then db.tables[t] else []
  {
    out := map[];
    for i := 0 to |order|
      invariant out == Dump(db.tables, order[..i])
    {
      assert order[..i + 1] == order[..i] + [order[i]];
      out := out[order[i] := Rows(db.tables, order[i])];
    }
    assert order[..|order|] == order;
  }

  /** The data can be restored into the target; then the listed tables are the
      source's and the others are still the target's. */
  ghost predicate Reproduces(schema: Schema, order: seq<Table>, source: State, target: State, data: State) {
    && Restorable(target, schema, order, data)
    && var after := Restored(target, order, data);
      forall t :: Rows(after, t) == if t in order then Rows(source, t) else Rows(target, t)
  }

  /** What is exported from an intact database can be restored into any other one
      with the same schema, and reproduces the listed tables. */
  lemma RoundTrip(source: State, target: State, schema: Schema, order: seq<Table>)
    requires ParentsFirst(schema, order) && SelfContained(schema, order)
    requires Intact(source) && Conforms(source, schema)
    requires Intact(target) && Conforms(target, schema)
    ensures Reproduces(schema, order, source, target, Dump(source, order))
  {
    hide ParentsFirst, SelfContained, HasKey;
    var data := Dump(source, order);
    forall t | t in order
      ensures RefsAllowed(schema, t, Rows(data, t)) && TableIntact(data, t)
    {
      if t in source {
        assert TableIntact(source, t);
        forall k, r | 0 <= k < |source[t]| && r in source[t][k].refs
          ensures Rows(data, r.table) == Rows(source, r.table)
        {
          assert RefsAllowed(schema, t, source[t]);
          ParentListed(schema, order, t, r.table);
        }
        forall k | 0 <= k < |source[t]|
          ensures Resolves(data, source[t][k])
        {
          assert Resolves(source, source[t][k]);
        }
      }
    }
  }

  lemma ParentListed(schema: Schema, order: seq<Table>, t: Table, p: Table)
    requires ParentsFirst(schema, order) && t in order && p in Parents(schema, t)
    ensures p in order
  {
    var i :| 0 <= i < |order| && order[i] == t;
    assert p in order[..i];
  }

  // ---------------------------------------------------------------------
  // Both databases
  // ---------------------------------------------------------------------

  datatype Bundle = Bundle(master: Option<State>, telemetry: Option<State>)

  method ExportDatabases(master: Database, telemetry: Database, scope: Scope) returns (b: Bundle)
    ensures b == Exported(master.tables, telemetry.tables, scope)
    ensures b.master == if scope == Data then None else Some(Dump(master.tables, MASTER_ORDER))
    ensures b.telemetry == if scope == Config then None else Some(Dump(telemetry.tables, TELEMETRY_ORDER))
  {
    var m: Option<State>, t: Option<State> := None, None;
    if scope != Data {
      var dump := DumpTables(master, MASTER_ORDER);
      m := Some(dump);
    }
    if scope != Config {
      var dump := DumpTables(telemetry, TELEMETRY_ORDER);
      t := Some(dump);
    }
    b := Bundle(m, t);
  }

  ghost function Exported(master: State, telemetry: State, scope: Scope): Bundle {
    Bundle(if scope != Data then Some(Dump(master, MASTER_ORDER)) else None,
           if scope != Config then Some(Dump(telemetry, TELEMETRY_ORDER)) else None)
  }

  ghost predicate Fits(data: Option<State>, db: State, schema: Schema, order: seq<Table>) {
    data.Some? ==> Suits(db, schema, order, data.value)
  }

  ghost predicate OmittedOrIntact(data: Option<State>, order: seq<Table>) {
    data.Some? ==> BundleIntact(order, data.value)
  }

  /** A database the bundle omits is left alone; a failed restore of the first
      database skips the second. */
  method ImportDatabases(master: Database, telemetry: Database, bundle: Bundle) returns (ok: bool)
    requires master != telemetry
    modifies master, telemetry
    ensures bundle.master.None? ==> master.tables == old(master.tables)
    ensures bundle.telemetry.None? ==> telemetry.tables == old(telemetry.tables)
    ensures ok && bundle.master.Some? ==>
      master.tables == Restored(old(master.tables), MASTER_ORDER, bundle.master.value)
    ensures ok && bundle.telemetry.Some? ==>
      telemetry.tables == Restored(old(telemetry.tables), TELEMETRY_ORDER, bundle.telemetry.value)
    ensures bundle.master.Some? && telemetry.tables != old(telemetry.tables) ==>
      master.tables == Restored(old(master.tables), MASTER_ORDER, bundle.master.value)
    ensures var first := Fits(bundle.master, old(master.tables), MASTER_SCHEMA, MASTER_ORDER);
      var second := Fits(bundle.telemetry, old(telemetry.tables), map[], TELEMETRY_ORDER);
      first && second ==>
        (ok <==> OmittedOrIntact(bundle.master, MASTER_ORDER) && OmittedOrIntact(bundle.telemetry, TELEMETRY_ORDER))
  {
    hide Suits, BundleIntact, Restored, ParentsFirst, SelfContained;
    OrdersDistinct();
    ok := true;
    if bundle.master.Some? {
      ghost var trace;
      ok, trace := RestoreOne(master, MASTER_ORDER, bundle.master.value, MASTER_SCHEMA);
      if !ok {
        return;
      }
    }
    if bundle.telemetry.Some? {
      ghost var trace;
      ok, trace := RestoreOne(telemetry, TELEMETRY_ORDER, bundle.telemetry.value, map[]);
    }
  }

  /** Exporting some scope and importing it elsewhere reproduces the listed tables of
      the databases in scope and changes nothing else. */
  lemma ScopedRoundTrip(master: State, telemetry: State, toMaster: State, toTelemetry: State, scope: Scope)
    requires Intact(master) && Conforms(master, MASTER_SCHEMA)
    requires Intact(telemetry) && Conforms(telemetry, map[])
    requires Intact(toMaster) && Conforms(toMaster, MASTER_SCHEMA)
    requires Intact(toTelemetry) && Conforms(toTelemetry, map[])
    ensures var b := Exported(master, telemetry, scope);
      && (b.master.Some? <==> scope != Data)
      && (b.telemetry.Some? <==> scope != Config)
      && (b.master.Some? ==> Reproduces(MASTER_SCHEMA, MASTER_ORDER, master, toMaster, b.master.value))
      && (b.telemetry.Some? ==> Reproduces(map[], TELEMETRY_ORDER, telemetry, toTelemetry, b.telemetry.value))
  {
    hide Reproduces, Dump, Intact, Conforms, ParentsFirst, SelfContained;
    MasterOrdered();
    TelemetryOrdered();
    RoundTrip(master, toMaster, MASTER_SCHEMA, MASTER_ORDER);
    RoundTrip(telemetry, toTelemetry, map[], TELEMETRY_ORDER);
  }

  // ---------------------------------------------------------------------
  // The declared orders against the declared foreign keys
  // ---------------------------------------------------------------------

  const USERS: Table := 0
  const GROUPS: Table := 1
  const ROLES: Table := 2
  const PERMISSIONS: Table := 3
  const ROLE_PERMISSIONS: Table := 4
  const GROUP_ROLES: Table := 5
  const USER_GROUPS: Table := 6
  const USER_ATTRIBUTES: Table := 7
  const AGENTS: Table := 8
  const AGENT_KEYS: Table := 9
  const SECRETS: Table := 10
  const SETTINGS: Table := 11
  const OIDC_PROVIDERS: Table := 12
  const MONITORS: Table := 13
  const RETENTION_CONFIG: Table := 14
  const REFRESH_TOKENS: Table := 15
  const AGENT_COMMANDS: Table := 16
  const WALL_LAYOUTS: Table := 17
  const WALL_DEVICE_GROUPS: Table := 18
  const WALL_DEVICES: Table := 19
  const TICKER_MESSAGES: Table := 20
  const PUBLIC_CONFIG: Table := 21
  const STATUS_EVENTS: Table := 22
  const CLIENT_EVENTS: Table := 23
  const HOST_METRICS: Table := 24
  const DB_METRICS: Table := 25
  const STORAGE_METRICS: Table := 26
  const LOGS: Table := 27
  const AUDIT_LOG: Table := 28
  const UPTIME_BUCKETS: Table := 29
  const NOTIFICATIONS: Table := 30
  const UNIT_STATES: Table := 31

  const MASTER_ORDER: seq<Table> := [
    USERS, GROUPS, ROLES, PERMISSIONS, ROLE_PERMISSIONS, GROUP_ROLES, USER_GROUPS,
    USER_ATTRIBUTES, AGENTS, AGENT_KEYS, SECRETS, SETTINGS, OIDC_PROVIDERS, MONITORS,
    RETENTION_CONFIG, REFRESH_TOKENS, AGENT_COMMANDS, WALL_LAYOUTS, WALL_DEVICE_GROUPS,
    WALL_DEVICES, TICKER_MESSAGES, PUBLIC_CONFIG
  ]

  const TELEMETRY_ORDER: seq<Table> := [
    UNIT_STATES, STATUS_EVENTS, CLIENT_EVENTS, HOST_METRICS, DB_METRICS, STORAGE_METRICS,
    LOGS, AUDIT_LOG, UPTIME_BUCKETS, NOTIFICATIONS
  ]

  /** The foreign keys of the master schema. `snmpProfiles`, `mibObjects` and
      `clientMeta` are in the schema but not in the order. */
  const MASTER_SCHEMA: Schema := map[
    ROLE_PERMISSIONS := {ROLES, PERMISSIONS},
    GROUP_ROLES := {GROUPS, ROLES},
    USER_GROUPS := {USERS, GROUPS},
    USER_ATTRIBUTES := {USERS},
    AGENT_KEYS := {AGENTS},
    MONITORS := {AGENTS},
    REFRESH_TOKENS := {USERS},
    AGENT_COMMANDS := {AGENTS},
    WALL_DEVICE_GROUPS := {WALL_LAYOUTS},
    WALL_DEVICES := {WALL_LAYOUTS, WALL_DEVICE_GROUPS}
  ]

  /** The declared master order has parents first and no table outside it refers in. */
  lemma MasterOrdered()
    ensures ParentsFirst(MASTER_SCHEMA, MASTER_ORDER) && SelfContained(MASTER_SCHEMA, MASTER_ORDER)
  {
    var order := MASTER_ORDER;
    assert forall i :: 0 <= i < |order| ==> order[i] == i;
    assert forall t :: t in MASTER_SCHEMA ==> t < |order| && forall p :: p in MASTER_SCHEMA[t] ==> p < t;
    LowerNumberFirst(MASTER_SCHEMA, order);
  }

  lemma OrdersDistinct()
    ensures Distinct(MASTER_ORDER) && Distinct(TELEMETRY_ORDER)
  {
    MasterOrdered();
    TelemetryOrdered();
  }

  lemma LowerNumberFirst(schema: Schema, order: seq<Table>)
    requires forall i :: 0 <= i < |order| ==> order[i] == i
    requires forall t :: t in schema ==> t < |order| && forall p :: p in schema[t] ==> p < t
    ensures ParentsFirst(schema, order) && SelfContained(schema, order)
  {
    forall i, p | 0 <= i < |order| && p in Parents(schema, order[i])
      ensures p in order[..i]
    {
      assert order[..i][p] == p;
    }
    forall t | t in schema
      ensures t in order
    {
      assert order[t] == t;
    }
  }

  lemma TelemetryOrdered()
    ensures ParentsFirst(map[], TELEMETRY_ORDER) && SelfContained(map[], TELEMETRY_ORDER)
  {
  }
}
