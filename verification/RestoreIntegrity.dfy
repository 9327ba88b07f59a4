/** What an intact database is, statement by statement, and what an order has to suit,
    in terms of rows and positions. */
module RestoreIntegrity {
  import opened Restore

  ghost predicate HasRow(db: State, t: Table, key: string) {
    t in db && exists x :: x in db[t] && x.key == key
  }

  /** One row more keeps an intact database intact exactly if its key is new, no row of
      the table has one of its unique cells, and every reference has a row to go to, be
      it the new one. */
  lemma InsertedExactly(db: State, t: Table, row: Row)
    requires Intact(db)
    ensures Intact(db[t := (if t in db then db[t] else []) + [row]]) <==>
      && (t in db ==> forall x :: x in db[t] ==> x.key != row.key && x.unique !! row.unique)
      && (forall r :: r in row.refs ==> r == Ref(t, row.key) || HasRow(db, r.table, r.key))
  {
    hide Unique, Resolves;
    var rows := Rows(db, t);
    var next := db[t := rows + [row]];
    UniqueGrows(rows, row);
    if t in db {
      assert TableIntact(db, t);
    }
    forall u, i | u in db && 0 <= i < |db[u]|
      ensures Resolves(next, db[u][i])
    {
      assert TableIntact(db, u) && Resolves(db, db[u][i]);
      StillResolves(db, t, row, db[u][i]);
    }
    ResolvesNow(db, t, row);
    assert Rows(next, t)[|rows|] == row;
    if Intact(next) {
      assert TableIntact(next, t) && Resolves(next, row);
    } else {
      var u :| u in next && !TableIntact(next, u);
      if u != t {
        assert TableIntact(db, u);
      }
    }
  }

  lemma UniqueGrows(rows: seq<Row>, row: Row)
    requires Unique(rows) || rows == []
    ensures Unique(rows + [row]) <==> forall x :: x in rows ==> x.key != row.key && x.unique !! row.unique
  {
    var all := rows + [row];
    if Unique(all) {
      forall i | 0 <= i < |rows|
        ensures rows[i].key != row.key && rows[i].unique !! row.unique
      {
        assert all[i] == rows[i] && all[|rows|] == row;
      }
    }
  }

  lemma StillResolves(db: State, t: Table, row: Row, x: Row)
    requires Resolves(db, x)
    ensures Resolves(db[t := Rows(db, t) + [row]], x)
  {
    forall r | r in x.refs
      ensures HasKey(Rows(db[t := Rows(db, t) + [row]], r.table), r.key)
    {
      var i :| 0 <= i < |Rows(db, r.table)| && Rows(db, r.table)[i].key == r.key;
      assert Rows(db[t := Rows(db, t) + [row]], r.table)[i].key == r.key;
    }
  }

  lemma ResolvesNow(db: State, t: Table, row: Row)
    ensures Resolves(db[t := Rows(db, t) + [row]], row) <==>
      forall r :: r in row.refs ==> r == Ref(t, row.key) || HasRow(db, r.table, r.key)
  {
    var next := db[t := Rows(db, t) + [row]];
    forall r | r in row.refs
      ensures HasKey(Rows(next, r.table), r.key) <==> r == Ref(t, row.key) || HasRow(db, r.table, r.key)
    {
      KeyFound(Rows(db, r.table), r.key);
      KeyFound(Rows(next, r.table), r.key);
    }
  }

  lemma KeyFound(rows: seq<Row>, key: string)
    ensures HasKey(rows, key) <==> exists x :: x in rows && x.key == key
  {
    if HasKey(rows, key) {
      var i :| 0 <= i < |rows| && rows[i].key == key;
      assert rows[i] in rows;
    }
  }

  /** The empty database is intact; clearing a table keeps one intact exactly if no row
      of another table refers to it. */
  lemma ClearedExactly(db: State, t: Table)
    requires Intact(db)
    ensures Intact(map[])
    ensures Intact(db[t := []]) <==>
      forall u, row, r :: u in db && u != t && row in db[u] && r in row.refs ==> r.table != t
  {
    hide Unique, Resolves;
    var next := db[t := []];
    forall u, i | u in db && u != t && 0 <= i < |db[u]|
      ensures Resolves(next, db[u][i]) <==> forall r :: r in db[u][i].refs ==> r.table != t
    {
      assert TableIntact(db, u) && Resolves(db, db[u][i]);
      ResolvesWithout(db, t, db[u][i]);
    }
    if Intact(next) {
      forall u, row, r | u in db && u != t && row in db[u] && r in row.refs
        ensures r.table != t
      {
        var i :| 0 <= i < |db[u]| && db[u][i] == row;
        assert TableIntact(next, u) && Resolves(next, Rows(next, u)[i]);
      }
    } else {
      var u :| u in next && !TableIntact(next, u);
      EmptyUnique();
      assert u != t && TableIntact(db, u);
      var i :| 0 <= i < |db[u]| && !Resolves(next, db[u][i]);
      assert db[u][i] in db[u];
    }
  }

  lemma ResolvesWithout(db: State, t: Table, row: Row)
    requires Resolves(db, row)
    ensures Resolves(db[t := []], row) <==> forall r :: r in row.refs ==> r.table != t
  {
  }

  lemma EmptyUnique()
    ensures Unique([])
  {
  }

  ghost predicate RefersUp(schema: Schema, t: Table, rows: seq<Row>) {
    forall i :: 0 <= i < |rows| ==> forall r :: r in rows[i].refs ==> t in schema && r.table in schema[t]
  }

  /** The parents of a listed table are listed before it, those of other tables are not
      listed, and rows refer only to parents. */
  lemma SuitsExactly(db: State, schema: Schema, order: seq<Table>, data: State)
    ensures Suits(db, schema, order, data) <==>
      && Intact(db) && (forall i, j :: 0 <= i < j < |order| ==> order[i] != order[j])
      && (forall j, p :: 0 <= j < |order| && order[j] in schema && p in schema[order[j]] ==>
            exists i :: 0 <= i < j && order[i] == p)
      && (forall t, p :: t in schema && t !in order && p in schema[t] ==> p !in order)
      && (forall t :: t in db ==> RefersUp(schema, t, db[t]))
      && (forall t :: t in order && t in data ==> RefersUp(schema, t, data[t]))
  {
    hide Intact, RefsAllowed, ParentsFirst, SelfContained;
    OrderExactly(schema, order);
    forall t
      ensures RefsAllowed(schema, t, Rows(db, t)) <==> RefersUp(schema, t, Rows(db, t))
      ensures RefsAllowed(schema, t, Rows(data, t)) <==> RefersUp(schema, t, Rows(data, t))
    {
      AllowedExactly(schema, t, Rows(db, t));
      AllowedExactly(schema, t, Rows(data, t));
    }
    ConformsRows(db, schema);
    BundleRows(schema, order, data);
  }

  lemma OrderExactly(schema: Schema, order: seq<Table>)
    ensures ParentsFirst(schema, order) <==>
      && (forall i, j :: 0 <= i < j < |order| ==> order[i] != order[j])
      && (forall j, p :: 0 <= j < |order| && order[j] in schema && p in schema[order[j]] ==>
            exists i :: 0 <= i < j && order[i] == p)
    ensures SelfContained(schema, order) <==>
      forall t, p :: t in schema && t !in order && p in schema[t] ==> p !in order
  {
    forall j, p | 0 <= j < |order|
      ensures p in order[..j] <==> exists i :: 0 <= i < j && order[i] == p
    {
    }
    if ParentsFirst(schema, order) {
      forall j, p | 0 <= j < |order| && order[j] in schema && p in schema[order[j]]
        ensures exists i :: 0 <= i < j && order[i] == p
      {
        assert p in Parents(schema, order[j]);
      }
    }
  }

  lemma AllowedExactly(schema: Schema, t: Table, rows: seq<Row>)
    ensures RefsAllowed(schema, t, rows) <==> RefersUp(schema, t, rows)
  {
    if RefsAllowed(schema, t, rows) {
      forall i | 0 <= i < |rows|
        ensures forall r :: r in rows[i].refs ==> t in schema && r.table in schema[t]
      {
        var up := set r | r in rows[i].refs && r.table in Parents(schema, t);
        assert rows[i].refs == up;
      }
    }
  }

  lemma ConformsRows(db: State, schema: Schema)
    ensures Conforms(db, schema) <==> forall t :: t in db ==> RefsAllowed(schema, t, Rows(db, t))
  {
  }

  lemma BundleRows(schema: Schema, order: seq<Table>, data: State)
    ensures (forall t :: t in order ==> RefsAllowed(schema, t, Rows(data, t))) <==>
            forall t :: t in order && t in data ==> RefsAllowed(schema, t, Rows(data, t))
  {
  }
}
