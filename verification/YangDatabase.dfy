/**
 A whole configuration database: every table goes into the YANG module that models it, under names
 joined with a colon, and back
 (src/sonic-yang-mgmt/sonic_yang_ext.py, lines 703-722 and 968-994).
 */
module YangDatabase {
  import opened Wrappers
  import opened TextOps
  import opened YangRows
  import opened YangTables
  import opened YangContainers
  import opened YangRoundTrip
  import opened YangForward
  import opened YangTranslator

  // Where a table is modelled: the module, its top level container, and the table's container.
  datatype TableModel = TableModel(moduleName: string, top: string, container: Container)

  type Schema = map<string, TableModel>
  type Database = map<string, map<string, Cfg>>

  // The two names under which a table stands in the YANG data.
  type Place = (string, string)
  type YangData = map<Place, map<string, Node>>

  const COLON: char := ':'

  function PlaceOf(m: TableModel): Place {
    (m.moduleName + [COLON] + m.top, m.top + ([COLON] + m.container.name))
  }

  // Every table has its own name in the schema, and names hold no colon: section 6.2 of RFC 7950.
  ghost predicate GoodSchema(schema: Schema) {
    forall t :: t in schema ==> GoodModel(t, schema[t])
  }

  ghost predicate GoodModel(t: string, m: TableModel) {
    m.container.name == t && COLON !in t && COLON !in m.top && WellFormed(m.container)
  }

  // ----- dicts filled in a loop -----

  // The dict after entries are put in one after another; a missing entry is an error.
  function Collect<K, V>(es: seq<Result<(K, V)>>): Result<map<K, V>> {
    if es == [] then Ok(map[])
    else
      var last := es[|es| - 1];
      match Collect(es[..|es| - 1])
      case Err => Err
      case Ok(m) => if last.Ok? then Ok(m[last.value.0 := last.value.1]) else Err
  }

  lemma {:induction false} CollectOk<K, V>(es: seq<Result<(K, V)>>)
    ensures Collect(es).Ok? <==> forall i :: 0 <= i < |es| ==> es[i].Ok?
  {
    if es != [] {
      CollectOk(es[..|es| - 1]);
      assert es == es[..|es| - 1] + [es[|es| - 1]];
    }
  }

  // An entry stays unless a later one of its key replaces it by something else.
  lemma {:induction false} CollectAt<K, V>(es: seq<Result<(K, V)>>, i: nat)
    requires Collect(es).Ok? && i < |es| && es[i].Ok?
    requires forall j :: i < j < |es| && es[j].Ok? && es[j].value.0 == es[i].value.0 ==> es[j] == es[i]
    ensures es[i].value.0 in Collect(es).value && Collect(es).value[es[i].value.0] == es[i].value.1
  {
    if i < |es| - 1 {
      CollectAt(es[..|es| - 1], i);
    }
  }

  lemma {:induction false} CollectOnly<K, V>(es: seq<Result<(K, V)>>, k: K) returns (i: nat)
    requires Collect(es).Ok? && k in Collect(es).value
    ensures i < |es| && es[i].Ok? && es[i].value.0 == k
  {
    if es[|es| - 1].value.0 == k {
      i := |es| - 1;
    } else {
      i := CollectOnly(es[..|es| - 1], k);
    }
  }

  lemma CollectErr<K, V>(es: seq<Result<(K, V)>>, i: nat)
    requires i < |es| && es[i].Err?
    ensures Collect(es).Err?
  {
    CollectOk(es);
  }

  lemma CollectMore<K, V>(es: seq<Result<(K, V)>>, i: nat, m: map<K, V>)
    requires i < |es| && es[i].Ok? && Collect(es[..i]) == Ok(m)
    ensures Collect(es[..i + 1]) == Ok(m[es[i].value.0 := es[i].value.1])
  {
    assert es[..i + 1][..i] == es[..i];
  }

  // ----- forwards -----

  predicate CanXlate(ord: Order, schema: Schema, t: string, config: map<string, Cfg>)
    requires IsOrder(ord)
  {
    t in schema && XlateContainer(ord, schema[t].container, t, config).Ok?
  }

  function TableEntry(ord: Order, schema: Schema, t: string, db: Database): Result<(Place, map<string, Node>)>
    requires IsOrder(ord)
  {
    if t in db && CanXlate(ord, schema, t, db[t])
    then Ok((PlaceOf(schema[t]), XlateContainer(ord, schema[t].container, t, db[t]).value)) else Err
  }

  function TableEntries(ord: Order, schema: Schema, ts: seq<string>, db: Database)
    : seq<Result<(Place, map<string, Node>)>>
    requires IsOrder(ord)
  {
    seq(|ts|, i requires 0 <= i < |ts| => TableEntry(ord, schema, ts[i], db))
  }

  // `_xlateConfigDBtoYang`, for the tables in some order.
  function XlateTables(ord: Order, schema: Schema, ts: seq<string>, db: Database): Result<YangData>
    requires IsOrder(ord)
  {
    Collect(TableEntries(ord, schema, ts, db))
  }

  // ----- back -----

  // The table that the second name stands for.
  function TableOf(name: string): Result<string> {
    var names := Split(name, COLON);
    if |names| > 2 then Err else Ok(names[|names| - 1])
  }

  predicate CanRev(schema: Schema, place: Place, nodes: map<string, Node>) {
    var t := TableOf(place.1);
    t.Ok? && t.value in schema && RevContainer(schema[t.value].container, t.value, nodes).Ok?
  }

  function BackEntry(schema: Schema, p: Place, yang: YangData): Result<(string, map<string, Cfg>)> {
    if p in yang && CanRev(schema, p, yang[p])
    then var t := TableOf(p.1).value; Ok((t, RevContainer(schema[t].container, t, yang[p]).value)) else Err
  }

  function BackEntries(schema: Schema, ps: seq<Place>, yang: YangData): seq<Result<(string, map<string, Cfg>)>> {
    seq(|ps|, i requires 0 <= i < |ps| => BackEntry(schema, ps[i], yang))
  }

  // `_revXlateYangtoConfigDB`, for the places in some order.
  function RevTables(schema: Schema, ps: seq<Place>, yang: YangData): Result<Database> {
    Collect(BackEntries(schema, ps, yang))
  }

  // ----- where the tables are -----

  lemma PlaceNames(t: string, m: TableModel)
    requires GoodModel(t, m)
    ensures PlaceOf(m) == (m.moduleName + ":" + m.top, m.top + ":" + t) && TableOf(PlaceOf(m).1) == Ok(t)
  {
    assert m.top + ":" + t == m.top + (":" + t);
    SplitAt(m.top, t, COLON);
    SplitWhole(t, COLON);
  }

  lemma PlacesDiffer(schema: Schema, t: string, u: string)
    requires GoodSchema(schema) && t in schema && u in schema && PlaceOf(schema[t]) == PlaceOf(schema[u])
    ensures t == u
  {
    PlaceNames(t, schema[t]);
    PlaceNames(u, schema[u]);
  }

  // What stands at the place of a table.
  ghost predicate StandsAt(ord: Order, schema: Schema, t: string, db: Database, yang: YangData)
    requires IsOrder(ord)
  {
    && t in db && CanXlate(ord, schema, t, db[t]) && PlaceOf(schema[t]) in yang
    && yang[PlaceOf(schema[t])] == XlateContainer(ord, schema[t].container, t, db[t]).value
  }

  // Two entries at one place are the same.
  lemma SameEntry(ord: Order, schema: Schema, t: string, u: string, db: Database)
    requires IsOrder(ord) && GoodSchema(schema)
    requires TableEntry(ord, schema, t, db).Ok? && TableEntry(ord, schema, u, db).Ok?
    requires TableEntry(ord, schema, t, db).value.0 == TableEntry(ord, schema, u, db).value.0
    ensures t == u
  {
    PlacesDiffer(schema, t, u);
  }

  // Each table stands at its place.
  lemma TableAt(ord: Order, schema: Schema, ts: seq<string>, db: Database, t: string)
    requires IsOrder(ord) && GoodSchema(schema) && t in ts && XlateTables(ord, schema, ts, db).Ok?
    ensures StandsAt(ord, schema, t, db, XlateTables(ord, schema, ts, db).value)
  {
    var es := TableEntries(ord, schema, ts, db);
    var i :| 0 <= i < |ts| && ts[i] == t;
    CollectOk(es);
    forall j | i < j < |es| && es[j].Ok? && es[j].value.0 == es[i].value.0 ensures es[j] == es[i] {
      SameEntry(ord, schema, ts[i], ts[j], db);
    }
    CollectAt(es, i);
  }

  // And nothing else stands anywhere.
  lemma OnlyTables(ord: Order, schema: Schema, ts: seq<string>, db: Database, p: Place) returns (t: string)
    requires IsOrder(ord) && XlateTables(ord, schema, ts, db).Ok? && p in XlateTables(ord, schema, ts, db).value
    ensures t in ts && t in schema && p == PlaceOf(schema[t])
  {
    var i := CollectOnly(TableEntries(ord, schema, ts, db), p);
    t := ts[i];
  }

  // ----- what comes back -----

  // The places are those of different tables.
  ghost predicate Placed(ps: seq<Place>) {
    && (forall i :: 0 <= i < |ps| ==> TableOf(ps[i].1).Ok?)
    && (forall i, j :: 0 <= i < j < |ps| ==> TableOf(ps[i].1) != TableOf(ps[j].1))
  }

  // What the table of a place is in the database that comes back.
  ghost predicate ComesBack(schema: Schema, p: Place, yang: YangData, db: Database) {
    && p in yang && CanRev(schema, p, yang[p])
    && var t := TableOf(p.1).value;
    t in db && db[t] == RevContainer(schema[t].container, t, yang[p]).value
  }

  lemma BackAt(schema: Schema, ps: seq<Place>, yang: YangData, i: nat)
    requires Placed(ps) && i < |ps| && RevTables(schema, ps, yang).Ok?
    ensures ComesBack(schema, ps[i], yang, RevTables(schema, ps, yang).value)
  {
    var es := BackEntries(schema, ps, yang);
    CollectOk(es);
    forall j | i < j < |es| && es[j].Ok? ensures es[j].value.0 != es[i].value.0 {
      assert TableOf(ps[i].1) != TableOf(ps[j].1);
    }
    CollectAt(es, i);
  }

  lemma EveryPlaceBack(schema: Schema, ps: seq<Place>, yang: YangData, p: Place)
    requires Placed(ps) && p in ps && RevTables(schema, ps, yang).Ok?
    ensures ComesBack(schema, p, yang, RevTables(schema, ps, yang).value)
  {
    var i :| 0 <= i < |ps| && ps[i] == p;
    BackAt(schema, ps, yang, i);
  }

  lemma OnlyBack(schema: Schema, ps: seq<Place>, yang: YangData, t: string) returns (i: nat)
    requires RevTables(schema, ps, yang).Ok? && t in RevTables(schema, ps, yang).value
    ensures i < |ps| && TableOf(ps[i].1) == Ok(t)
  {
    i := CollectOnly(BackEntries(schema, ps, yang), t);
  }

  lemma AllBack(schema: Schema, ps: seq<Place>, yang: YangData)
    requires forall p :: p in ps ==> p in yang && CanRev(schema, p, yang[p])
    ensures RevTables(schema, ps, yang).Ok?
  {
    forall i | 0 <= i < |ps| ensures BackEntry(schema, ps[i], yang).Ok? {
      assert ps[i] in ps;
    }
    CollectOk(BackEntries(schema, ps, yang));
  }

  // ----- the round trip -----

  // The places in some order.
  ghost predicate ListsPlaces(ps: seq<Place>, yang: YangData) {
    (forall i, j :: 0 <= i < j < |ps| ==> ps[i] != ps[j]) && forall p :: p in ps <==> p in yang
  }

  ghost predicate ListsTables(ts: seq<string>, db: Database) {
    forall t :: t in ts <==> t in db
  }

  ghost predicate AllGood(schema: Schema, db: Database) {
    forall t :: t in db ==> t in schema && Good(schema[t].container, t, db[t])
  }

  // The places of a translated database belong to different tables.
  lemma PlacedTables(ord: Order, schema: Schema, ts: seq<string>, db: Database, ps: seq<Place>, yang: YangData)
    requires IsOrder(ord) && GoodSchema(schema) && ListsTables(ts, db) && XlateTables(ord, schema, ts, db) == Ok(yang)
    requires ListsPlaces(ps, yang)
    ensures Placed(ps)
  {
    forall i | 0 <= i < |ps| ensures TableOf(ps[i].1).Ok? {
      assert ps[i] in ps;
      var t := OnlyTables(ord, schema, ts, db, ps[i]);
      PlaceNames(t, schema[t]);
    }
    forall i, j | 0 <= i < j < |ps| ensures TableOf(ps[i].1) != TableOf(ps[j].1) {
      assert ps[i] in ps && ps[j] in ps;
      var t := OnlyTables(ord, schema, ts, db, ps[i]);
      var u := OnlyTables(ord, schema, ts, db, ps[j]);
      PlaceNames(t, schema[t]);
      PlaceNames(u, schema[u]);
    }
  }

  // One table: what stands at its place brings it back exactly when it is good.
  lemma OneTable(ord: Order, schema: Schema, ts: seq<string>, db: Database, yang: YangData, t: string)
    requires IsOrder(ord) && GoodSchema(schema) && ListsTables(ts, db) && XlateTables(ord, schema, ts, db) == Ok(yang)
             && t in db
    ensures t in schema && PlaceOf(schema[t]) in yang && TableOf(PlaceOf(schema[t]).1) == Ok(t)
    ensures RevContainer(schema[t].container, t, yang[PlaceOf(schema[t])]) == Ok(db[t]) <==>
            Good(schema[t].container, t, db[t])
  {
    TableAt(ord, schema, ts, db, t);
    PlaceNames(t, schema[t]);
    ContainerRoundTrip(ord, schema[t].container, t, db[t]);
  }

  // A database that translates comes back as it was exactly when every table of it is good,
  // whatever the orders of its dicts and of those of the YANG data.
  lemma DatabaseRoundTrip(ord: Order, schema: Schema, ts: seq<string>, db: Database, ps: seq<Place>, yang: YangData)
    requires IsOrder(ord) && GoodSchema(schema) && ListsTables(ts, db) && XlateTables(ord, schema, ts, db) == Ok(yang)
    requires ListsPlaces(ps, yang)
    ensures RevTables(schema, ps, yang) == Ok(db) <==> AllGood(schema, db)
  {
    PlacedTables(ord, schema, ts, db, ps, yang);
    if RevTables(schema, ps, yang) == Ok(db) {
      BackDatabaseGood(ord, schema, ts, db, ps, yang);
    }
    if AllGood(schema, db) {
      GoodDatabaseBack(ord, schema, ts, db, ps, yang);
    }
  }

  // A database of good tables always translates.
  lemma GoodDatabaseTranslates(ord: Order, schema: Schema, ts: seq<string>, db: Database)
    requires IsOrder(ord) && GoodSchema(schema) && ListsTables(ts, db) && AllGood(schema, db)
    ensures XlateTables(ord, schema, ts, db).Ok?
  {
    forall i | 0 <= i < |ts| ensures TableEntry(ord, schema, ts[i], db).Ok? {
      assert ts[i] in ts;
      GoodTranslates(ord, schema[ts[i]].container, ts[i], db[ts[i]]);
    }
    CollectOk(TableEntries(ord, schema, ts, db));
  }

  lemma BackDatabaseGood(ord: Order, schema: Schema, ts: seq<string>, db: Database, ps: seq<Place>, yang: YangData)
    requires IsOrder(ord) && GoodSchema(schema) && ListsTables(ts, db) && XlateTables(ord, schema, ts, db) == Ok(yang)
    requires ListsPlaces(ps, yang) && Placed(ps) && RevTables(schema, ps, yang) == Ok(db)
    ensures AllGood(schema, db)
  {
    forall t | t in db ensures t in schema && Good(schema[t].container, t, db[t]) {
      TableIsBack(ord, schema, ts, db, ps, yang, t);
    }
  }

  // A good database's places can all be reversed.
  lemma PlaceCanRev(ord: Order, schema: Schema, ts: seq<string>, db: Database, yang: YangData, p: Place)
    requires IsOrder(ord) && GoodSchema(schema) && ListsTables(ts, db) && XlateTables(ord, schema, ts, db) == Ok(yang)
    requires p in yang && AllGood(schema, db)
    ensures CanRev(schema, p, yang[p])
  {
    var t := OnlyTables(ord, schema, ts, db, p);
    OneTable(ord, schema, ts, db, yang, t);
  }

  // Only tables of the database come back.
  lemma BackIsTable(ord: Order, schema: Schema, ts: seq<string>, db: Database, ps: seq<Place>, yang: YangData,
                    t: string)
    requires IsOrder(ord) && GoodSchema(schema) && ListsTables(ts, db) && XlateTables(ord, schema, ts, db) == Ok(yang)
    requires ListsPlaces(ps, yang) && RevTables(schema, ps, yang).Ok? && t in RevTables(schema, ps, yang).value
    ensures t in db
  {
    var i := OnlyBack(schema, ps, yang, t);
    assert ps[i] in ps;
    var u := OnlyTables(ord, schema, ts, db, ps[i]);
    PlaceNames(u, schema[u]);
  }

  // Each table comes back as what its place holds.
  lemma TableIsBack(ord: Order, schema: Schema, ts: seq<string>, db: Database, ps: seq<Place>, yang: YangData,
                    t: string)
    requires IsOrder(ord) && GoodSchema(schema) && ListsTables(ts, db) && XlateTables(ord, schema, ts, db) == Ok(yang)
    requires ListsPlaces(ps, yang) && Placed(ps) && RevTables(schema, ps, yang).Ok? && t in db
    ensures t in schema && t in RevTables(schema, ps, yang).value
    ensures RevTables(schema, ps, yang).value[t] == db[t] <==> Good(schema[t].container, t, db[t])
  {
    OneTable(ord, schema, ts, db, yang, t);
    EveryPlaceBack(schema, ps, yang, PlaceOf(schema[t]));
  }

  lemma GoodDatabaseBack(ord: Order, schema: Schema, ts: seq<string>, db: Database, ps: seq<Place>, yang: YangData)
    requires IsOrder(ord) && GoodSchema(schema) && ListsTables(ts, db) && XlateTables(ord, schema, ts, db) == Ok(yang)
    requires ListsPlaces(ps, yang) && Placed(ps) && AllGood(schema, db)
    ensures RevTables(schema, ps, yang) == Ok(db)
  {
    forall p | p in ps ensures p in yang && CanRev(schema, p, yang[p]) {
      PlaceCanRev(ord, schema, ts, db, yang, p);
    }
    AllBack(schema, ps, yang);
    var back := RevTables(schema, ps, yang).value;
    forall t ensures SameTable(back, db, t) {
      if t in back {
        BackIsTable(ord, schema, ts, db, ps, yang, t);
      }
      if t in db {
        TableIsBack(ord, schema, ts, db, ps, yang, t);
      }
    }
    SameDatabases(back, db);
  }

  ghost predicate SameTable(a: Database, b: Database, t: string) {
    (t in a <==> t in b) && (t in a && t in b ==> a[t] == b[t])
  }

  lemma SameDatabases(a: Database, b: Database)
    requires forall t :: SameTable(a, b, t)
    ensures a == b
  {
    forall t ensures t in a <==> t in b {
      assert SameTable(a, b, t);
    }
    forall t | t in a ensures a[t] == b[t] {
      assert SameTable(a, b, t);
    }
  }

  // ----- the loops -----

  // `_xlateConfigDBtoYang`.
  method XlateDatabase(tr: Translator, schema: Schema, ts: seq<string>, db: Database) returns (yang: YangData, ok: bool)
    requires IsOrder(tr.ord) && tr.elementPath == [] && forall t :: t in ts ==> t in db
    modifies tr
    ensures XlateTables(tr.ord, schema, ts, db) == if ok then Ok(yang) else Err
    ensures ok ==> tr.elementPath == []
  {
    yang, ok := map[], true;
    ghost var es := TableEntries(tr.ord, schema, ts, db);
    for i := 0 to |ts|
      invariant ok && tr.elementPath == [] && Collect(es[..i]) == Ok(yang)
    {
      assert ts[i] in ts;
      var nodes;
      nodes, ok := XlateOne(tr, schema, ts[i], db);
      if !ok {
        CollectErr(es, i);
        return;
      }
      CollectMore(es, i, yang);
      yang := yang[PlaceOf(schema[ts[i]]) := nodes];
    }
    assert es[..|ts|] == es;
  }

  // One table: the path holds its name while it is being translated.
  method XlateOne(tr: Translator, schema: Schema, t: string, db: Database) returns (nodes: map<string, Node>, ok: bool)
    requires IsOrder(tr.ord) && tr.elementPath == [] && t in db
    modifies tr
    ensures ok ==> t in schema && tr.elementPath == []
    ensures TableEntry(tr.ord, schema, t, db) == if ok then Ok((PlaceOf(schema[t]), nodes)) else Err
  {
    if t !in schema {
      return map[], false;
    }
    tr.elementPath := tr.elementPath + [t];
    nodes, ok := tr.XlateTable(schema[t].container, t, db[t]);
    if ok {
      tr.elementPath := [];
    }
  }

  // `_revXlateYangtoConfigDB`.
  method RevDatabase(tr: Translator, schema: Schema, ps: seq<Place>, yang: YangData) returns (db: Database, ok: bool)
    requires tr.elementPath == [] && forall p :: p in ps ==> p in yang
    modifies tr
    ensures RevTables(schema, ps, yang) == if ok then Ok(db) else Err
    ensures ok ==> tr.elementPath == []
  {
    db, ok := map[], true;
    ghost var es := BackEntries(schema, ps, yang);
    for i := 0 to |ps|
      invariant ok && tr.elementPath == [] && Collect(es[..i]) == Ok(db)
    {
      assert ps[i] in ps;
      var t, config;
      t, config, ok := RevOne(tr, schema, ps[i], yang);
      if !ok {
        CollectErr(es, i);
        return;
      }
      CollectMore(es, i, db);
      db := db[t := config];
    }
    assert es[..|ps|] == es;
  }

  method RevOne(tr: Translator, schema: Schema, p: Place, yang: YangData)
    returns (t: string, config: map<string, Cfg>, ok: bool)
    requires tr.elementPath == [] && p in yang
    modifies tr
    ensures BackEntry(schema, p, yang) == if ok then Ok((t, config)) else Err
    ensures ok ==> tr.elementPath == []
  {
    var table := TableOf(p.1);
    if table.Err? || table.value !in schema {
      return "", map[], false;
    }
    t := table.value;
    tr.elementPath := tr.elementPath + [t];
    config, ok := tr.RevTable(schema[t].container, t, yang[p]);
    if ok {
      tr.elementPath := [];
    }
  }
}
