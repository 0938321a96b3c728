/**
 Tables of the ConfigDB to YANG translation: lists that take entries one after another, containers
 in containers, and leaves, forwards and back
 (src/sonic-yang-mgmt/sonic_yang_ext.py, lines 546-610 and 836-914).
 */
module YangTables {
  import opened Wrappers
  import opened YangRows

  datatype Lists = NoList | Single(l: ListModel) | Multi(ls: seq<ListModel>)

  datatype Container = Container(name: string, lists: Lists, inner: seq<Container>, leafs: map<string, Leaf>)

  // What a YANG container holds under a name.
  datatype Node = Value(y: Yang) | Rows(rows: seq<Row>) | Inside(nodes: map<string, Node>)

  // The lists that the forward translation uses: a single list only under the container's own name.
  function Active(c: Container): seq<ListModel> {
    match c.lists
    case NoList => []
    case Single(l) => if l.name == c.name + "_LIST" then [l] else []
    case Multi(ls) => ls
  }

  function AllLists(c: Container): seq<ListModel> {
    match c.lists
    case NoList => []
    case Single(l) => [l]
    case Multi(ls) => ls
  }

  // ----- lists, forwards -----

  // The entries that a list leaves behind.
  function Left(table: string, l: ListModel, config: map<string, Cfg>): map<string, Cfg> {
    map k | k in config && !Accepts(table, l, k, config[k]) :: config[k]
  }

  // The rows of the entries that a list takes, in the order of the dict.
  function RowsOf(ord: Order, table: string, l: ListModel, ks: seq<string>, config: map<string, Cfg>): seq<Row>
    requires IsOrder(ord) && forall k :: k in ks ==> k in config
  {
    if ks == [] then []
    else
      var k := ks[|ks| - 1];
      RowsOf(ord, table, l, ks[..|ks| - 1], config)
      + if Accepts(table, l, k, config[k]) then [XlateRow(ord, table, l, k, config[k]).value] else []
  }

  function ListRows(ord: Order, table: string, l: ListModel, config: map<string, Cfg>): seq<Row>
    requires IsOrder(ord)
  {
    assert Listing(ord(config), config);
    RowsOf(ord, table, l, ord(config), config)
  }

  // The nodes that the lists give, each list working on what the ones before it left; a list
  // without rows gives none.
  function ListNodes(ord: Order, table: string, ls: seq<ListModel>, config: map<string, Cfg>): map<string, Node>
    requires IsOrder(ord)
  {
    if ls == [] then map[]
    else
      var rows := ListRows(ord, table, ls[0], config);
      (if rows == [] then map[] else map[ls[0].name := Rows(rows)])
      + ListNodes(ord, table, ls[1..], Left(table, ls[0], config))
  }

  function ListRest(table: string, ls: seq<ListModel>, config: map<string, Cfg>): map<string, Cfg> {
    if ls == [] then config else ListRest(table, ls[1..], Left(table, ls[0], config))
  }

  // The list that takes an entry: the first that accepts it.
  function Taker(table: string, ls: seq<ListModel>, k: string, v: Cfg): (r: Option<ListModel>)
    ensures r.Some? ==> r.value in ls && Accepts(table, r.value, k, v)
  {
    if ls == [] then None else if Accepts(table, ls[0], k, v) then Some(ls[0]) else Taker(table, ls[1..], k, v)
  }

  // ----- lists, back -----

  // Whether a name holds "_LIST".
  predicate NamesList(s: string) {
    |s| >= 5 && (s[..5] == "_LIST" || NamesList(s[1..]))
  }

  function RevRows(table: string, l: ListModel, rows: seq<Row>): Result<map<string, Cfg>> {
    if rows == [] then Ok(map[])
    else
      match (RevRows(table, l, rows[..|rows| - 1]), RevRow(table, l, rows[|rows| - 1]))
      case (Ok(m), Ok((pkey, v))) => Ok(m[pkey := v])
      case _ => Err
  }

  predicate Empty(n: Node) {
    match n
    case Value(y) => !Truthy(y)
    case Rows(rows) => rows == []
    case Inside(nodes) => nodes == map[]
  }

  function RevList(table: string, l: ListModel, nodes: map<string, Node>): Result<map<string, Cfg>> {
    if l.name !in nodes || Empty(nodes[l.name]) then Ok(map[])
    else if !nodes[l.name].Rows? then Err
    else if NamesList(l.name) then RevRows(table, l, nodes[l.name].rows)
    else Ok(map[])
  }

  function RevLists(table: string, ls: seq<ListModel>, nodes: map<string, Node>): Result<map<string, Cfg>> {
    if ls == [] then Ok(map[])
    else
      match (RevList(table, ls[0], nodes), RevLists(table, ls[1..], nodes))
      case (Ok(a), Ok(b)) => Ok(a + b)
      case _ => Err
  }

  // ----- what lists do together -----

  predicate GoodLists(ls: seq<ListModel>) {
    && (forall i :: 0 <= i < |ls| ==> DistinctNames(ls[i].keys))
    && (forall i, j :: 0 <= i < j < |ls| ==> ls[i].name != ls[j].name)
  }

  // The lists leave exactly the entries that none of them accepts.
  lemma {:induction false} RestIsUntaken(table: string, ls: seq<ListModel>, config: map<string, Cfg>)
    ensures ListRest(table, ls, config) == map k | k in config && Taker(table, ls, k, config[k]).None? :: config[k]
  {
    if ls != [] {
      RestIsUntaken(table, ls[1..], Left(table, ls[0], config));
    }
  }

  lemma {:induction false} NodeNames(ord: Order, table: string, ls: seq<ListModel>, config: map<string, Cfg>)
    requires IsOrder(ord)
    ensures forall n :: n in ListNodes(ord, table, ls, config) ==> exists i :: 0 <= i < |ls| && ls[i].name == n
  {
    if ls != [] {
      NodeNames(ord, table, ls[1..], Left(table, ls[0], config));
      forall n | n in ListNodes(ord, table, ls[1..], Left(table, ls[0], config))
        ensures exists i :: 0 <= i < |ls| && ls[i].name == n
      {
        var i :| 0 <= i < |ls[1..]| && ls[1..][i].name == n;
        assert ls[i + 1].name == n;
      }
    }
  }

  // What comes back for an entry that a list took.
  function BackOf(ord: Order, table: string, l: ListModel, k: string, v: Cfg): Cfg
    requires IsOrder(ord) && Accepts(table, l, k, v)
  {
    match RevRow(table, l, XlateRow(ord, table, l, k, v).value)
    case Ok((_, w)) => w
    case Err => Text("")
  }

  ghost predicate RowsReturn(table: string, l: ListModel, ks: seq<string>, config: map<string, Cfg>) {
    forall k :: k in ks && k in config && Accepts(table, l, k, config[k]) ==> ApartFromKeys(l, config[k]) && Normal(k)
  }

  // What a list gives back of the entries named when their keys are normal.
  function BackMap(ord: Order, table: string, l: ListModel, ks: seq<string>, config: map<string, Cfg>): map<string, Cfg>
    requires IsOrder(ord)
  {
    map k | k in ks && k in config && Accepts(table, l, k, config[k]) :: BackOf(ord, table, l, k, config[k])
  }

  lemma BackMapMore(ord: Order, table: string, l: ListModel, ks: seq<string>, k: string, config: map<string, Cfg>)
    requires IsOrder(ord) && k in config
    ensures var m := BackMap(ord, table, l, ks, config);
            BackMap(ord, table, l, ks + [k], config)
            == if Accepts(table, l, k, config[k]) then m[k := BackOf(ord, table, l, k, config[k])] else m
  {
  }

  lemma RevMore(table: string, l: ListModel, rows: seq<Row>, row: Row, m: map<string, Cfg>, k: string, v: Cfg)
    requires RevRows(table, l, rows) == Ok(m) && RevRow(table, l, row) == Ok((k, v))
    ensures RevRows(table, l, rows + [row]) == Ok(m[k := v])
  {
    assert (rows + [row])[..|rows|] == rows;
  }

  // The rows of entries with normal keys come back under the same keys.
  lemma {:induction false} RowsBack(ord: Order, table: string, l: ListModel, ks: seq<string>, config: map<string, Cfg>)
    requires IsOrder(ord) && DistinctNames(l.keys) && (forall k :: k in ks ==> k in config)
             && RowsReturn(table, l, ks, config)
    ensures RevRows(table, l, RowsOf(ord, table, l, ks, config)) == Ok(BackMap(ord, table, l, ks, config))
  {
    if ks != [] {
      var n := |ks| - 1;
      var k := ks[n];
      assert ks == ks[..n] + [k];
      RowsBack(ord, table, l, ks[..n], config);
      BackMapMore(ord, table, l, ks[..n], k, config);
      var rows := RowsOf(ord, table, l, ks[..n], config);
      if Accepts(table, l, k, config[k]) {
        assert k in ks;
        var row := XlateRow(ord, table, l, k, config[k]).value;
        RowRoundTrip(ord, table, l, k, config[k]);
        RevMore(table, l, rows, row, BackMap(ord, table, l, ks[..n], config), k, BackOf(ord, table, l, k, config[k]));
      } else {
        assert rows + [] == rows;
      }
    }
  }

  // Whatever comes back from rows whose fields are apart from the keys has a normal key.
  lemma {:induction false} RowsNormal(ord: Order, table: string, l: ListModel, ks: seq<string>, config: map<string,
                                                                                                            Cfg>)
    requires IsOrder(ord) && DistinctNames(l.keys) && forall k :: k in ks ==> k in config
    requires forall k :: k in ks && Accepts(table, l, k, config[k]) ==> ApartFromKeys(l, config[k])
    ensures var r := RevRows(table, l, RowsOf(ord, table, l, ks, config)); r.Ok? ==> forall k :: k in r.value ==>
                                                                                                   Normal(k)
  {
    if ks != [] {
      var n := |ks| - 1;
      var k := ks[n];
      assert ks == ks[..n] + [k];
      RowsNormal(ord, table, l, ks[..n], config);
      var rows := RowsOf(ord, table, l, ks[..n], config);
      if Accepts(table, l, k, config[k]) {
        var row := XlateRow(ord, table, l, k, config[k]).value;
        RowRoundTrip(ord, table, l, k, config[k]);
        assert k in ks;
        assert (rows + [row])[..|rows|] == rows;
      } else {
        assert rows + [] == rows;
      }
    }
  }

  // Two sets of nodes hold the same under the names of the lists.
  ghost predicate Agree(ls: seq<ListModel>, a: map<string, Node>, b: map<string, Node>) {
    forall i :: 0 <= i < |ls| ==> SameAt(ls[i].name, a, b)
  }

  ghost predicate SameAt(n: string, a: map<string, Node>, b: map<string, Node>) {
    (n in a <==> n in b) && (n in a && n in b ==> a[n] == b[n])
  }

  // The nodes of the later lists do not depend on the first.
  lemma AgreeLater(ord: Order, table: string, ls: seq<ListModel>, config: map<string, Cfg>, nodes: map<string, Node>)
    requires IsOrder(ord) && GoodLists(ls) && ls != []
    requires Agree(ls, nodes, ListNodes(ord, table, ls, config))
    ensures Agree(ls[1..], nodes, ListNodes(ord, table, ls[1..], Left(table, ls[0], config))) && GoodLists(ls[1..])
    ensures var rows := ListRows(ord, table, ls[0], config);
            if rows == [] then ls[0].name !in nodes else ls[0].name in nodes && nodes[ls[0].name] == Rows(rows)
  {
    var later := ListNodes(ord, table, ls[1..], Left(table, ls[0], config));
    NodeNames(ord, table, ls[1..], Left(table, ls[0], config));
    assert ls[0].name !in later;
    assert SameAt(ls[0].name, nodes, ListNodes(ord, table, ls, config));
    forall i | 0 <= i < |ls[1..]| ensures SameAt(ls[1..][i].name, nodes, later) {
      assert ls[1..][i] == ls[i + 1];
      assert SameAt(ls[i + 1].name, nodes, ListNodes(ord, table, ls, config));
    }
  }

  ghost predicate TakenApart(table: string, ls: seq<ListModel>, config: map<string, Cfg>) {
    forall k :: k in config ==> var t := Taker(table, ls, k, config[k]); t.Some? ==> ApartFromKeys(t.value, config[k])
  }

  ghost predicate TakenNormal(table: string, ls: seq<ListModel>, config: map<string, Cfg>) {
    forall k :: k in config ==> Taker(table, ls, k, config[k]).Some? ==> Normal(k)
  }

  // What the lists give back when all keys are normal.
  function ListsBackMap(ord: Order, table: string, ls: seq<ListModel>, config: map<string, Cfg>): map<string, Cfg>
    requires IsOrder(ord)
  {
    map k | k in config && Taker(table, ls, k, config[k]).Some? && NamesList(Taker(table, ls, k, config[k]).value.name)
      :: BackOf(ord, table, Taker(table, ls, k, config[k]).value, k, config[k])
  }

  // What the first list took, and what the later ones took.
  lemma BackSplit(ord: Order, table: string, ls: seq<ListModel>, config: map<string, Cfg>)
    requires IsOrder(ord) && ls != []
    ensures var first := if NamesList(ls[0].name) then BackMap(ord, table, ls[0], ord(config), config) else map[];
            ListsBackMap(ord, table, ls, config) == first
            + ListsBackMap(ord, table, ls[1..], Left(table, ls[0], config))
  {
    var all := ListsBackMap(ord, table, ls, config);
    var first := if NamesList(ls[0].name) then BackMap(ord, table, ls[0], ord(config), config) else map[];
    var later := ListsBackMap(ord, table, ls[1..], Left(table, ls[0], config));
    forall k ensures SplitsAt(all, first, later, k) {
      BackSplitAt(ord, table, ls, config, k);
    }
    Splits(all, first, later);
  }

  ghost predicate SplitsAt(all: map<string, Cfg>, first: map<string, Cfg>, later: map<string, Cfg>, k: string) {
    && (k in all <==> k in first || k in later)
    && (k in all && k in first ==> k !in later && all[k] == first[k])
    && (k in all && k in later ==> all[k] == later[k])
  }

  lemma Splits(all: map<string, Cfg>, first: map<string, Cfg>, later: map<string, Cfg>)
    requires forall k :: SplitsAt(all, first, later, k)
    ensures all == first + later
  {
    forall k ensures k in all <==> k in first + later {
      assert SplitsAt(all, first, later, k);
    }
    forall k | k in all ensures all[k] == (first + later)[k] {
      assert SplitsAt(all, first, later, k);
    }
  }

  lemma BackSplitAt(ord: Order, table: string, ls: seq<ListModel>, config: map<string, Cfg>, k: string)
    requires IsOrder(ord) && ls != []
    ensures var all := ListsBackMap(ord, table, ls, config);
            var first := if NamesList(ls[0].name) then BackMap(ord, table, ls[0], ord(config), config) else map[];
            var later := ListsBackMap(ord, table, ls[1..], Left(table, ls[0], config));
            SplitsAt(all, first, later, k)
  {
    assert Listing(ord(config), config);
    if k in config {
      if Accepts(table, ls[0], k, config[k]) {
        assert Taker(table, ls, k, config[k]) == Some(ls[0]);
        assert k !in Left(table, ls[0], config);
      } else {
        assert Taker(table, ls, k, config[k]) == Taker(table, ls[1..], k, config[k]);
        assert Left(table, ls[0], config)[k] == config[k];
      }
    }
  }

  lemma {:induction false} ListsBack(ord: Order, table: string, ls: seq<ListModel>, config: map<string, Cfg>,
                                     nodes: map<string, Node>)
    requires IsOrder(ord) && GoodLists(ls) && Agree(ls, nodes, ListNodes(ord, table, ls, config))
    requires TakenApart(table, ls, config) && TakenNormal(table, ls, config)
    ensures RevLists(table, ls, nodes) == Ok(ListsBackMap(ord, table, ls, config))
  {
    if ls != [] {
      AgreeLater(ord, table, ls, config, nodes);
      TakenLater(table, ls, config);
      ListsBack(ord, table, ls[1..], Left(table, ls[0], config), nodes);
      FirstBack(ord, table, ls, config, nodes);
      BackSplit(ord, table, ls, config);
    }
  }

  lemma TakenLater(table: string, ls: seq<ListModel>, config: map<string, Cfg>)
    requires ls != []
    ensures TakenApart(table, ls, config) ==> TakenApart(table, ls[1..], Left(table, ls[0], config))
    ensures TakenNormal(table, ls, config) ==> TakenNormal(table, ls[1..], Left(table, ls[0], config))
  {
  }

  // The first list gives back what it took, if its name says so.
  lemma FirstBack(ord: Order, table: string, ls: seq<ListModel>, config: map<string, Cfg>, nodes: map<string, Node>)
    requires IsOrder(ord) && GoodLists(ls) && ls != [] && Agree(ls, nodes, ListNodes(ord, table, ls, config))
    requires TakenApart(table, ls, config) && TakenNormal(table, ls, config)
    ensures RevList(table, ls[0], nodes) == Ok(if NamesList(ls[0].name)
                                               then BackMap(ord, table, ls[0], ord(config), config) else map[])
  {
    var l := ls[0];
    AgreeLater(ord, table, ls, config, nodes);
    assert Listing(ord(config), config);
    forall k | k in config && Accepts(table, l, k, config[k]) ensures Taker(table, ls, k, config[k]) == Some(l) {
    }
    RowsBack(ord, table, l, ord(config), config);
  }

  lemma {:induction false} ListsNormal(ord: Order, table: string, ls: seq<ListModel>, config: map<string, Cfg>,
                                       nodes: map<string, Node>)
    requires IsOrder(ord) && GoodLists(ls) && Agree(ls, nodes, ListNodes(ord, table, ls, config))
             && TakenApart(table, ls, config)
    ensures var r := RevLists(table, ls, nodes); r.Ok? ==> forall k :: k in r.value ==> Normal(k)
  {
    if ls != [] {
      var l, left := ls[0], Left(table, ls[0], config);
      AgreeLater(ord, table, ls, config, nodes);
      TakenLater(table, ls, config);
      ListsNormal(ord, table, ls[1..], left, nodes);
      assert Listing(ord(config), config);
      forall k | k in config && Accepts(table, l, k, config[k]) ensures Taker(table, ls, k, config[k]) == Some(l) {
      }
      RowsNormal(ord, table, l, ord(config), config);
    }
  }

  ghost predicate SameCfg(a: map<string, Cfg>, b: map<string, Cfg>, k: string) {
    (k in a <==> k in b) && (k in a && k in b ==> a[k] == b[k])
  }

  lemma SameMaps(a: map<string, Cfg>, b: map<string, Cfg>)
    requires forall k :: SameCfg(a, b, k)
    ensures a == b
  {
    forall k ensures k in a <==> k in b {
      assert SameCfg(a, b, k);
    }
    forall k | k in a ensures a[k] == b[k] {
      assert SameCfg(a, b, k);
    }
  }

  // ----- every entry goes to exactly one list -----

  // The entries among the names that a list takes, in order.
  ghost function TakenKeys(table: string, l: ListModel, ks: seq<string>, config: map<string, Cfg>): seq<string> {
    if ks == [] then []
    else
      var k := ks[|ks| - 1];
      TakenKeys(table, l, ks[..|ks| - 1], config) + if k in config && Accepts(table, l, k, config[k]) then [k] else []
  }

  lemma {:induction false} TakenOnce(table: string, l: ListModel, ks: seq<string>, config: map<string, Cfg>)
    requires DistinctNames(ks)
    ensures var ts := TakenKeys(table, l, ks, config);
            DistinctNames(ts) && forall k :: k in ts <==> k in ks && k in config && Accepts(table, l, k, config[k])
  {
    if ks != [] {
      var n := |ks| - 1;
      TakenOnce(table, l, ks[..n], config);
      assert ks == ks[..n] + [ks[n]];
      assert ks[n] !in ks[..n];
    }
  }

  // The row for each entry.
  ghost predicate RowFor(ord: Order, table: string, l: ListModel, row: Row, k: string, config: map<string, Cfg>)
    requires IsOrder(ord)
  {
    k in config && XlateRow(ord, table, l, k, config[k]) == Ok(row)
  }

  lemma {:induction false} RowsForTaken(ord: Order, table: string, l: ListModel, ks: seq<string>, config: map<string,
                                                                                                              Cfg>)
    requires IsOrder(ord) && forall k :: k in ks ==> k in config
    ensures var ts, rows := TakenKeys(table, l, ks, config), RowsOf(ord, table, l, ks, config);
            |rows| == |ts| && forall j :: 0 <= j < |rows| ==> RowFor(ord, table, l, rows[j], ts[j], config)
  {
    if ks != [] {
      RowsForTaken(ord, table, l, ks[..|ks| - 1], config);
    }
  }

  // A list's rows are one for each entry that it takes, in some order; none is lost and none
  // doubled.
  ghost predicate OneRowEach(ord: Order, table: string, l: ListModel, rows: seq<Row>, ts: seq<string>,
                             config: map<string, Cfg>)
    requires IsOrder(ord)
  {
    |rows| == |ts| && DistinctNames(ts) && forall j :: 0 <= j < |rows| ==> RowFor(ord, table, l, rows[j], ts[j], config)
  }

  lemma {:induction false} EachToOne(ord: Order, table: string, ls: seq<ListModel>, config: map<string, Cfg>, i: nat)
    returns (ts: seq<string>, rows: seq<Row>)
    requires IsOrder(ord) && GoodLists(ls) && i < |ls|
    ensures OneRowEach(ord, table, ls[i], rows, ts, config)
    ensures forall k :: k in ts <==> k in config && Taker(table, ls, k, config[k]) == Some(ls[i])
    ensures var nodes := ListNodes(ord, table, ls, config);
            if rows == [] then ls[i].name !in nodes else ls[i].name in nodes && nodes[ls[i].name] == Rows(rows)
    decreases i
  {
    var left := Left(table, ls[0], config);
    var nodes := ListNodes(ord, table, ls, config);
    assert Agree(ls, nodes, nodes);
    AgreeLater(ord, table, ls, config, nodes);
    if i == 0 {
      assert Listing(ord(config), config);
      TakenOnce(table, ls[0], ord(config), config);
      RowsForTaken(ord, table, ls[0], ord(config), config);
      ts, rows := TakenKeys(table, ls[0], ord(config), config), ListRows(ord, table, ls[0], config);
      forall k | k in config && Taker(table, ls, k, config[k])
                                == Some(ls[0]) ensures Accepts(table, ls[0], k, config[k]) {
      }
    } else {
      ts, rows := EachToOne(ord, table, ls[1..], left, i - 1);
      assert ls[1..][i - 1] == ls[i];
      assert SameAt(ls[1..][i - 1].name, nodes, ListNodes(ord, table, ls[1..], left));
      forall k | k in ts ensures k in config && left[k] == config[k] && Taker(table, ls, k, config[k]) == Some(ls[i]) {
      }
      forall k | k in config && Taker(table, ls, k, config[k]) == Some(ls[i]) ensures k in ts {
        assert ls[0].name != ls[i].name;
      }
      forall j | 0 <= j < |rows| ensures RowFor(ord, table, ls[i], rows[j], ts[j], config) {
        assert ts[j] in ts;
        assert RowFor(ord, table, ls[i], rows[j], ts[j], left);
      }
    }
  }
}
