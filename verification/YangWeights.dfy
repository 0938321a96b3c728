/**
 Counting fields: what the lists of a container give back never has more fields than what they took,
 and has fewer if an entry had a field with the name of a key, which the reverse translation drops
 (src/sonic-yang-mgmt/sonic_yang_ext.py, lines 546-610 and 836-914).
 */
module YangWeights {
  import opened Wrappers
  import opened TextOps
  import opened YangRows
  import opened YangTables

  function FieldCount(v: Cfg): nat {
    if v.Dict? then |v.fields| else 0
  }

  // The number of fields of all entries of a table.
  ghost function Weight(m: map<string, Cfg>): nat
    decreases |m|
  {
    if m == map[] then 0
    else
      var k :| k in m;
      FieldCount(m[k]) + Weight(m - {k})
  }

  lemma {:induction false} WeightAt(m: map<string, Cfg>, k: string)
    requires k in m
    ensures Weight(m) == FieldCount(m[k]) + Weight(m - {k})
    decreases |m|
  {
    var j :| j in m && Weight(m) == FieldCount(m[j]) + Weight(m - {j});
    if j != k {
      WeightAt(m - {j}, k);
      WeightAt(m - {k}, j);
      assert m - {j} - {k} == m - {k} - {j};
    }
  }

  lemma WeightWithout(m: map<string, Cfg>, k: string)
    ensures Weight(m - {k}) <= Weight(m)
  {
    if k in m {
      WeightAt(m, k);
    } else {
      assert m - {k} == m;
    }
  }

  lemma WeightSet(m: map<string, Cfg>, k: string, v: Cfg)
    ensures Weight(m[k := v]) == Weight(m - {k}) + FieldCount(v) <= Weight(m) + FieldCount(v)
  {
    WeightAt(m[k := v], k);
    assert m[k := v] - {k} == m - {k};
    WeightWithout(m, k);
  }

  lemma {:induction false} WeightUnion(a: map<string, Cfg>, b: map<string, Cfg>)
    ensures Weight(a + b) <= Weight(a) + Weight(b)
    decreases |b|
  {
    if b == map[] {
      assert a + b == a;
    } else {
      var k :| k in b;
      WeightAt(b, k);
      WeightUnion(a, b - {k});
      UnionStep(a, b, k);
      WeightSet(a + (b - {k}), k, b[k]);
    }
  }

  lemma UnionStep(a: map<string, Cfg>, b: map<string, Cfg>, k: string)
    requires k in b
    ensures a + b == (a + (b - {k}))[k := b[k]]
    ensures k !in a ==> (a + (b - {k})) - {k} == a + (b - {k})
  {
  }

  lemma {:induction false} WeightDisjoint(a: map<string, Cfg>, b: map<string, Cfg>)
    requires forall k :: k in a ==> k !in b
    ensures Weight(a + b) == Weight(a) + Weight(b)
    decreases |b|
  {
    if b == map[] {
      assert a + b == a;
    } else {
      var k :| k in b;
      WeightAt(b, k);
      WeightDisjoint(a, b - {k});
      UnionStep(a, b, k);
      WeightSet(a + (b - {k}), k, b[k]);
    }
  }

  lemma {:induction false} WeightPart(a: map<string, Cfg>, b: map<string, Cfg>)
    requires forall k :: k in a ==> k in b && a[k] == b[k]
    ensures Weight(a) <= Weight(b)
    decreases |a|
  {
    if a != map[] {
      var k :| k in a;
      WeightAt(a, k);
      WeightAt(b, k);
      WeightPart(a - {k}, b - {k});
    }
  }

  // ----- one entry -----

  lemma FewerKeys(m: map<string, Cfg>, keys: seq<string>, rest: set<string>)
    requires forall k :: k in rest ==> k in m && k !in keys
    ensures |rest| <= |m|
    ensures (exists k :: k in m && k in keys) ==> |rest| < |m|
  {
    assert rest <= m.Keys;
    SmallerSet(rest, m.Keys);
    if k :| k in m && k in keys {
      SmallerSet(rest, m.Keys - {k});
    }
  }

  lemma {:induction false} SmallerSet(a: set<string>, b: set<string>)
    requires a <= b
    ensures |a| <= |b|
    decreases |a|
  {
    if a != {} {
      var x :| x in a;
      SmallerSet(a - {x}, b - {x});
    }
  }

  lemma RestKeys(keyDict: map<string, Yang>, typed: map<string, Yang>, keys: seq<string>, m: map<string, Cfg>)
    requires (forall k :: k in keyDict <==> k in keys) && typed.Keys == m.Keys
    ensures forall k :: k in WithoutKeys(keyDict + typed, keys).Keys ==> k in m && k !in keys
  {
  }

  lemma UntypedCount(table: string, leafs: map<string, Leaf>, rest: map<string, Yang>)
    requires AllUntyped(table, leafs, rest)
    ensures |UntypedFields(table, leafs, rest)| == |rest.Keys|
  {
    var back := UntypedFields(table, leafs, rest);
    assert back.Keys == rest.Keys && |back| == |back.Keys|;
  }

  // An entry does not gain fields, and loses one if it has the name of a key.
  lemma RowWeight(ord: Order, table: string, l: ListModel, k: string, v: Cfg)
    requires IsOrder(ord) && DistinctNames(l.keys) && Accepts(table, l, k, v)
    ensures var r := RevRow(table, l, XlateRow(ord, table, l, k, v).value);
            r.Ok? ==> FieldCount(r.value.1) <= FieldCount(v)
                      && (!ApartFromKeys(l, v) ==> FieldCount(r.value.1) < FieldCount(v))
  {
    var m := Items(v).value;
    if IsType1(l) {
      assert Listing(ord(m), m);
      PairsRoundTrip(ord(m), m);
    } else {
      KeyDictAt(l.keys, Split(k, BAR));
      var row := XlateRow(ord, table, l, k, v).value;
      PlainWeight(table, l, v, m, KeyDict(l.keys, Split(k, BAR)), TypedFields(table, l.leafs, m), row);
    }
  }

  lemma PlainWeight(table: string, l: ListModel, v: Cfg, m: map<string, Cfg>, keyDict: map<string, Yang>,
                    typed: map<string, Yang>, row: Row)
    requires !IsType1(l) && Items(v) == Ok(m) && row == Row(keyDict + typed, None)
    requires (forall k :: k in keyDict <==> k in l.keys) && typed.Keys == m.Keys
    ensures var r := RevRow(table, l, row);
            r.Ok? ==> FieldCount(r.value.1) <= FieldCount(v)
                      && (!ApartFromKeys(l, v) ==> FieldCount(r.value.1) < FieldCount(v))
  {
    RestKeys(keyDict, typed, l.keys, m);
    FewerKeys(m, l.keys, WithoutKeys(row.fields, l.keys).Keys);
    PlainCount(table, l, row);
  }

  lemma PlainCount(table: string, l: ListModel, row: Row)
    requires !IsType1(l)
    ensures var r := RevRow(table, l, row); r.Ok? ==> r.value.1.Dict?
                                                      && FieldCount(r.value.1) == |WithoutKeys(row.fields, l.keys).Keys|
  {
    var rest := WithoutKeys(row.fields, l.keys);
    if AllUntyped(table, l.leafs, rest) {
      UntypedCount(table, l.leafs, rest);
    }
  }

  // ----- a list -----

  // The entries among the names that a list takes.
  ghost function TakenOf(table: string, l: ListModel, ks: seq<string>, config: map<string, Cfg>): map<string, Cfg> {
    map k | k in ks && k in config && Accepts(table, l, k, config[k]) :: config[k]
  }

  lemma TakenOfMore(table: string, l: ListModel, ks: seq<string>, k: string, config: map<string, Cfg>)
    requires k in config && k !in ks
    ensures var m := TakenOf(table, l, ks, config);
            && TakenOf(table, l, ks + [k], config) == (if Accepts(table, l, k, config[k]) then m[k := config[k]] else m)
            && m - {k} == m
  {
    var m, all := TakenOf(table, l, ks, config), TakenOf(table, l, ks + [k], config);
    var more := if Accepts(table, l, k, config[k]) then m[k := config[k]] else m;
    forall j ensures SameCfg(all, more, j) {
      assert j in ks + [k] <==> j in ks || j == k;
    }
    SameMaps(all, more);
  }

  ghost predicate SomeRepeats(table: string, l: ListModel, ks: seq<string>, config: map<string, Cfg>) {
    exists k :: k in ks && k in config && Accepts(table, l, k, config[k]) && !ApartFromKeys(l, config[k])
  }

  // What a list gives back has no more fields than what it took, and fewer if one repeats a key.
  lemma {:induction false} RowsWeight(ord: Order, table: string, l: ListModel, ks: seq<string>, config: map<string,
                                                                                                            Cfg>)
    requires IsOrder(ord) && DistinctNames(l.keys) && DistinctNames(ks) && forall k :: k in ks ==> k in config
    ensures var r := RevRows(table, l, RowsOf(ord, table, l, ks, config));
            var w := Weight(TakenOf(table, l, ks, config));
            r.Ok? ==> Weight(r.value) <= w && (SomeRepeats(table, l, ks, config) ==> Weight(r.value) < w)
    decreases |ks|
  {
    if ks != [] {
      var n := |ks| - 1;
      var front, k := ks[..n], ks[n];
      assert ks == front + [k] && k !in front;
      RowsWeight(ord, table, l, front, config);
      TakenOfMore(table, l, front, k, config);
      var rows := RowsOf(ord, table, l, front, config);
      if Accepts(table, l, k, config[k]) {
        RowWeight(ord, table, l, k, config[k]);
        LastWeight(table, l, rows, XlateRow(ord, table, l, k, config[k]).value);
        WeightSet(TakenOf(table, l, front, config), k, config[k]);
      } else {
        assert rows + [] == rows;
      }
      assert SomeRepeats(table, l, ks, config) ==>
          SomeRepeats(table, l, front, config) || (Accepts(table, l, k, config[k]) && !ApartFromKeys(l, config[k]));
    }
  }

  lemma LastWeight(table: string, l: ListModel, rows: seq<Row>, row: Row)
    ensures var r := RevRows(table, l, rows + [row]);
            r.Ok? ==> RevRows(table, l, rows).Ok? && RevRow(table, l, row).Ok?
                      && Weight(r.value) <= Weight(RevRows(table, l, rows).value)
                                            + FieldCount(RevRow(table, l, row).value.1)
  {
    assert (rows + [row])[..|rows|] == rows;
    var a, b := RevRows(table, l, rows), RevRow(table, l, row);
    if a.Ok? && b.Ok? {
      WeightSet(a.value, b.value.0, b.value.1);
    }
  }

  lemma {:induction false} RepeatWeight(table: string, l: ListModel, ks: seq<string>, config: map<string, Cfg>)
    requires SomeRepeats(table, l, ks, config)
    ensures 0 < Weight(TakenOf(table, l, ks, config))
  {
    var k :| k in ks && k in config && Accepts(table, l, k, config[k]) && !ApartFromKeys(l, config[k]);
    WeightAt(TakenOf(table, l, ks, config), k);
    var f :| f in config[k].fields && f in l.keys;
    assert |config[k].fields.Keys| > 0;
  }

  // ----- all lists -----

  ghost function TakenBy(table: string, ls: seq<ListModel>, config: map<string, Cfg>): map<string, Cfg> {
    map k | k in config && Taker(table, ls, k, config[k]).Some? :: config[k]
  }

  lemma TakenBySplit(ord: Order, table: string, ls: seq<ListModel>, config: map<string, Cfg>)
    requires IsOrder(ord) && ls != []
    ensures var first, later := TakenOf(table, ls[0], ord(config), config),
                                TakenBy(table, ls[1..], Left(table, ls[0], config));
            TakenBy(table, ls, config) == first + later && forall k :: k in first ==> k !in later
  {
    var first, later := TakenOf(table, ls[0], ord(config), config), TakenBy(table, ls[1..], Left(table, ls[0], config));
    forall k ensures SplitsAt(TakenBy(table, ls, config), first, later, k) && (k in first ==> k !in later) {
      TakenBySplitAt(ord, table, ls, config, k);
    }
    Splits(TakenBy(table, ls, config), first, later);
  }

  lemma TakenBySplitAt(ord: Order, table: string, ls: seq<ListModel>, config: map<string, Cfg>, k: string)
    requires IsOrder(ord) && ls != []
    ensures var first, later := TakenOf(table, ls[0], ord(config), config),
                                TakenBy(table, ls[1..], Left(table, ls[0], config));
            SplitsAt(TakenBy(table, ls, config), first, later, k) && (k in first ==> k !in later)
  {
    assert Listing(ord(config), config);
    if k in config {
      if Accepts(table, ls[0], k, config[k]) {
        assert Taker(table, ls, k, config[k]) == Some(ls[0]);
        assert k !in Left(table, ls[0], config);
      } else {
        assert Taker(table, ls, k, config[k]) == Taker(table, ls[1..], k, config[k]);
        assert Left(table, ls[0], config)[k] == config[k];
      }
    }
  }

  lemma RepeatsSplit(ord: Order, table: string, ls: seq<ListModel>, config: map<string, Cfg>)
    requires IsOrder(ord) && ls != [] && !TakenApart(table, ls, config)
    ensures SomeRepeats(table, ls[0], ord(config), config) || !TakenApart(table, ls[1..], Left(table, ls[0], config))
  {
    assert Listing(ord(config), config);
    var k :| k in config && Taker(table, ls, k, config[k]).Some?
             && !ApartFromKeys(Taker(table, ls, k, config[k]).value, config[k]);
    if !Accepts(table, ls[0], k, config[k]) {
      assert k in Left(table, ls[0], config);
    }
  }

  // The lists give back no more fields than they took, and fewer if an entry repeats a key.
  lemma {:induction false} ListsWeight(ord: Order, table: string, ls: seq<ListModel>, config: map<string, Cfg>,
                                       nodes: map<string, Node>)
    requires IsOrder(ord) && GoodLists(ls) && Agree(ls, nodes, ListNodes(ord, table, ls, config))
    ensures var r := RevLists(table, ls, nodes);
            var w := Weight(TakenBy(table, ls, config));
            r.Ok? ==> Weight(r.value) <= w && (!TakenApart(table, ls, config) ==> Weight(r.value) < w)
    decreases |ls|
  {
    if ls != [] {
      var left := Left(table, ls[0], config);
      AgreeLater(ord, table, ls, config, nodes);
      ListsWeight(ord, table, ls[1..], left, nodes);
      TakenBySplit(ord, table, ls, config);
      WeightDisjoint(TakenOf(table, ls[0], ord(config), config), TakenBy(table, ls[1..], left));
      FirstWeight(ord, table, ls, config, nodes);
      var a, b := RevList(table, ls[0], nodes), RevLists(table, ls[1..], nodes);
      if a.Ok? && b.Ok? {
        WeightUnion(a.value, b.value);
      }
      if !TakenApart(table, ls, config) {
        RepeatsSplit(ord, table, ls, config);
      }
    }
  }

  lemma RevListIs(table: string, l: ListModel, nodes: map<string, Node>, rows: seq<Row>)
    requires if rows == [] then l.name !in nodes else l.name in nodes && nodes[l.name] == Rows(rows)
    ensures RevList(table, l, nodes) == if NamesList(l.name) then RevRows(table, l, rows) else Ok(map[])
  {
  }

  lemma FirstWeight(ord: Order, table: string, ls: seq<ListModel>, config: map<string, Cfg>, nodes: map<string, Node>)
    requires IsOrder(ord) && GoodLists(ls) && ls != [] && Agree(ls, nodes, ListNodes(ord, table, ls, config))
    ensures var r := RevList(table, ls[0], nodes);
            var w := Weight(TakenOf(table, ls[0], ord(config), config));
            r.Ok? ==> Weight(r.value) <= w && (SomeRepeats(table, ls[0], ord(config), config) ==> Weight(r.value) < w)
  {
    AgreeLater(ord, table, ls, config, nodes);
    RevListIs(table, ls[0], nodes, ListRows(ord, table, ls[0], config));
    assert Listing(ord(config), config);
    RowsWeight(ord, table, ls[0], ord(config), config);
    if SomeRepeats(table, ls[0], ord(config), config) {
      RepeatWeight(table, ls[0], ord(config), config);
    }
  }
}
