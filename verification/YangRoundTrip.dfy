/**
 The ConfigDB to YANG translation and its inverse, on whole tables: a table comes back as it was
 exactly when it is good
 (src/sonic-yang-mgmt/sonic_yang_ext.py, lines 488-698 and 741-962).
 */
module YangRoundTrip {
  import opened Wrappers
  import opened YangRows
  import opened YangTables
  import opened YangContainers
  import opened YangWeights

  // The names of the lists that the forward translation uses are among those of the schema.
  lemma ActiveGood(c: Container)
    requires WellFormed(c)
    ensures GoodLists(Active(c))
    ensures forall i :: 0 <= i < |Active(c)| ==> Active(c)[i].name !in c.leafs && !InnerName(c, Active(c)[i].name)
  {
    assert c.lists.Single? ==> AllLists(c)[0] == c.lists.l;
  }

  // The leaves are what lists and inner containers leave.
  lemma LastIs(c: Container, table: string, config: map<string, Cfg>)
    ensures var rest := ListRest(table, Active(c), config);
            && rest == (map k | k in config && Taker(table, Active(c), k, config[k]).None? :: config[k])
            && InnerRest(c, 0, rest) == map k | k in rest && !InnerName(c, k) :: rest[k]
  {
    var rest := ListRest(table, Active(c), config);
    RestIsUntaken(table, Active(c), config);
    InnerRestIs(c, 0, rest);
    forall k ensures InnerFrom(c, 0, k) <==> InnerName(c, k) {
    }
  }

  // The three parts of a translated container.
  ghost function InnerPart(ord: Order, c: Container, table: string, rest: map<string, Cfg>): map<string, Node>
    requires IsOrder(ord)
  {
    if rest == map[] || InnerNodes(ord, c, table, 0, rest).Err? then map[] else InnerNodes(ord, c, table, 0, rest).value
  }

  lemma Parts(ord: Order, c: Container, table: string, config: map<string, Cfg>, nodes: map<string, Node>)
    requires IsOrder(ord) && XlateContainer(ord, c, table, config) == Ok(nodes)
    ensures var rest := ListRest(table, Active(c), config);
            var last := InnerRest(c, 0, rest);
            && AllTyped(table, c.leafs, last)
            && nodes == ListNodes(ord, table, Active(c), config) + InnerPart(ord, c, table, rest)
                        + ValueNodes(TypedFields(table, c.leafs, last))
  {
    var rest := ListRest(table, Active(c), config);
    if rest == map[] {
      NoLeaves(c, table, rest);
    }
  }

  lemma NoLeaves(c: Container, table: string, rest: map<string, Cfg>)
    requires rest == map[]
    ensures var last := InnerRest(c, 0, rest); last == map[] && AllTyped(table, c.leafs, last)
                                               && ValueNodes(TypedFields(table, c.leafs, last)) == map[]
  {
    RestOfNone(c, 0);
  }

  lemma {:induction false} RestOfNone(c: Container, i: nat)
    requires i <= |c.inner|
    ensures InnerRest(c, i, map[]) == map[]
    decreases |c.inner| - i
  {
    if i < |c.inner| {
      var none: map<string, Cfg> := map[];
      assert none - {c.inner[i].name} == none;
      RestOfNone(c, i + 1);
    }
  }

  ghost predicate IsListName(c: Container, n: string) {
    exists i :: 0 <= i < |Active(c)| && Active(c)[i].name == n
  }

  // Each part has its own kind of names.
  lemma PartNames(ord: Order, c: Container, table: string, config: map<string, Cfg>, rest: map<string, Cfg>)
    requires IsOrder(ord)
    ensures forall n :: n in ListNodes(ord, table, Active(c), config) ==> IsListName(c, n)
    ensures forall n :: n in InnerPart(ord, c, table, rest) ==> InnerName(c, n)
  {
    NodeNames(ord, table, Active(c), config);
    InnerNodeNames(ord, c, table, 0, rest);
    forall n | InnerFrom(c, 0, n) ensures InnerName(c, n) {
    }
  }

  lemma KindsApart(c: Container, n: string)
    requires WellFormed(c)
    ensures IsListName(c, n) ==> n !in c.leafs && !InnerName(c, n)
    ensures InnerName(c, n) ==> n !in c.leafs
  {
    ActiveGood(c);
  }

  lemma LeafKeys(table: string, leafs: map<string, Leaf>, m: map<string, Cfg>)
    requires AllTyped(table, leafs, m)
    ensures forall k :: k in m ==> k in leafs
  {
    forall k | k in m ensures k in leafs {
      assert CanType(table, leafs, k, m[k]);
    }
  }

  // The nodes under the names of lists are the lists' own.
  lemma ListNames(ord: Order, c: Container, table: string, config: map<string, Cfg>, nodes: map<string, Node>)
    requires IsOrder(ord) && WellFormed(c) && XlateContainer(ord, c, table, config) == Ok(nodes)
    ensures Agree(Active(c), nodes, ListNodes(ord, table, Active(c), config))
    ensures forall n :: n in nodes ==> IsListName(c, n) || InnerName(c, n) || n in c.leafs
  {
    var rest := ListRest(table, Active(c), config);
    Parts(ord, c, table, config, nodes);
    PartNames(ord, c, table, config, rest);
    LeafKeys(table, c.leafs, InnerRest(c, 0, rest));
    forall i | 0 <= i < |Active(c)| ensures SameAt(Active(c)[i].name, nodes, ListNodes(ord, table, Active(c), config)) {
      assert IsListName(c, Active(c)[i].name);
      KindsApart(c, Active(c)[i].name);
    }
  }

  // A single list that the forward translation does not use has no rows to bring back.
  lemma OnlyActive(c: Container, table: string, nodes: map<string, Node>)
    requires WellFormed(c) && forall n :: n in nodes ==> IsListName(c, n) || InnerName(c, n) || n in c.leafs
    ensures RevLists(table, AllLists(c), nodes) == RevLists(table, Active(c), nodes)
  {
    if c.lists.Single? && Active(c) == [] {
      var l := c.lists.l;
      assert AllLists(c) == [l] && AllLists(c)[0] == l;
      assert l.name !in nodes;
      assert AllLists(c)[1..] == [];
    }
  }

  // The values under the names of leaves are the typed leaves.
  lemma LeafNodes(ord: Order, c: Container, table: string, config: map<string, Cfg>, nodes: map<string, Node>)
    requires IsOrder(ord) && WellFormed(c) && XlateContainer(ord, c, table, config) == Ok(nodes)
    ensures var last := InnerRest(c, 0, ListRest(table, Active(c), config));
            && AllTyped(table, c.leafs, last)
            && LeafsHoldValues(c.leafs, nodes)
            && LeafValues(c.leafs, nodes) == TypedFields(table, c.leafs, last)
  {
    Parts(ord, c, table, config, nodes);
    var typed := TypedFields(table, c.leafs, InnerRest(c, 0, ListRest(table, Active(c), config)));
    forall k ensures LeafNode(c.leafs, nodes, typed, k) {
      LeafAt(ord, c, table, config, nodes, k);
    }
    AllLeafNodes(c.leafs, nodes, typed);
  }

  ghost predicate LeafNode(leafs: map<string, Leaf>, nodes: map<string, Node>, typed: map<string, Yang>, k: string) {
    && (k in nodes && k in leafs <==> k in typed) && (k in typed ==> k in nodes && nodes[k] == Value(typed[k]))
  }

  lemma AllLeafNodes(leafs: map<string, Leaf>, nodes: map<string, Node>, typed: map<string, Yang>)
    requires forall k :: LeafNode(leafs, nodes, typed, k)
    ensures LeafsHoldValues(leafs, nodes) && LeafValues(leafs, nodes) == typed
  {
    forall k ensures k in nodes && k in leafs <==> k in typed
      ensures k in typed ==> nodes[k] == Value(typed[k])
    {
      assert LeafNode(leafs, nodes, typed, k);
    }
  }

  // The node under the name of a leaf is its value.
  lemma LeafAt(ord: Order, c: Container, table: string, config: map<string, Cfg>, nodes: map<string, Node>, k: string)
    requires IsOrder(ord) && WellFormed(c) && XlateContainer(ord, c, table, config) == Ok(nodes)
    ensures var last := InnerRest(c, 0, ListRest(table, Active(c), config));
            && AllTyped(table, c.leafs, last)
            && LeafNode(c.leafs, nodes, TypedFields(table, c.leafs, last), k)
  {
    var rest := ListRest(table, Active(c), config);
    Parts(ord, c, table, config, nodes);
    PartNames(ord, c, table, config, rest);
    LeafKeys(table, c.leafs, InnerRest(c, 0, rest));
    KindsApart(c, k);
  }

  // The node under the name of an inner container is its own.
  lemma InnerAt(ord: Order, c: Container, table: string, config: map<string, Cfg>, nodes: map<string, Node>, j: nat)
    requires IsOrder(ord) && WellFormed(c) && XlateContainer(ord, c, table, config) == Ok(nodes) && j < |c.inner|
    ensures var rest := ListRest(table, Active(c), config);
            && SameAt(c.inner[j].name, nodes, InnerPart(ord, c, table, rest))
            && (rest != map[] ==> InnerNodes(ord, c, table, 0, rest).Ok?)
  {
    var rest := ListRest(table, Active(c), config);
    Parts(ord, c, table, config, nodes);
    PartNames(ord, c, table, config, rest);
    LeafKeys(table, c.leafs, InnerRest(c, 0, rest));
    assert InnerName(c, c.inner[j].name);
    KindsApart(c, c.inner[j].name);
  }

  // What an inner container's node brings back: what is inside it, if there is anything.
  ghost predicate BackIs(ord: Order, c: Container, table: string, rest: map<string, Cfg>, nodes: map<string, Node>,
                         j: nat)
    requires IsOrder(ord) && j < |c.inner|
  {
    var d := c.inner[j];
    if d.name !in rest || EmptyCfg(rest[d.name]) then InnerBack(c, table, j, nodes) == Ok(None)
    else
      && rest[d.name].Dict? && XlateContainer(ord, d, table, rest[d.name].fields).Ok?
      && var inside := XlateContainer(ord, d, table, rest[d.name].fields).value;
      if inside == map[] then InnerBack(c, table, j, nodes) == Ok(None)
      else InnerBack(c, table, j, nodes) == Wrapped(RevContainer(d, table, inside))
  }

  ghost function Wrapped(r: Result<map<string, Cfg>>): Result<Option<Cfg>> {
    match r
    case Err => Err
    case Ok(m) => Ok(Some(Dict(m)))
  }

  lemma InnerBackIs(ord: Order, c: Container, table: string, config: map<string, Cfg>, nodes: map<string, Node>, j: nat)
    requires IsOrder(ord) && WellFormed(c) && XlateContainer(ord, c, table, config) == Ok(nodes) && j < |c.inner|
    ensures BackIs(ord, c, table, ListRest(table, Active(c), config), nodes, j)
  {
    var rest := ListRest(table, Active(c), config);
    InnerAt(ord, c, table, config, nodes, j);
    if rest != map[] {
      InnerNodesAt(ord, c, table, 0, rest, j);
      BackFrom(ord, c, table, rest, nodes, j, InnerNode(ord, c, table, j, rest).value);
    }
  }

  lemma BackFrom(ord: Order, c: Container, table: string, rest: map<string, Cfg>, nodes: map<string, Node>, j: nat,
                 n: Option<Node>)
    requires IsOrder(ord) && j < |c.inner| && InnerNode(ord, c, table, j, rest) == Ok(n)
             && NodeAt(c.inner[j].name, nodes, n)
    ensures BackIs(ord, c, table, rest, nodes, j)
  {
  }

  // ----- putting the parts back together -----

  // The parts of a table: entries that lists take, inner containers, and leaves.
  ghost predicate Taken(c: Container, table: string, config: map<string, Cfg>, k: string) {
    k in config && Taker(table, Active(c), k, config[k]).Some?
  }

  lemma ThreeParts(c: Container, table: string, config: map<string, Cfg>, k: string)
    ensures var rest := ListRest(table, Active(c), config);
            var last := InnerRest(c, 0, rest);
            && (k in rest <==> k in config && !Taken(c, table, config, k)) && (k in rest ==> rest[k] == config[k])
            && (k in last <==> k in rest && !InnerName(c, k)) && (k in last ==> last[k] == config[k])
  {
    LastIs(c, table, config);
  }

  // When a table translates, every key of it was consumed, and once: by a list, else by the inner
  // container of its name, else by the leaf of its name, which no inner container shares.
  lemma EveryKeyOnce(ord: Order, c: Container, table: string, config: map<string, Cfg>, k: string)
    requires IsOrder(ord) && WellFormed(c) && XlateContainer(ord, c, table, config).Ok? && k in config
    ensures var rest := ListRest(table, Active(c), config);
            var last := InnerRest(c, 0, rest);
            if Taken(c, table, config, k) then k !in rest && k !in last
            else k in rest && (InnerName(c, k) <==> k !in last) && (InnerName(c, k) <==> k !in c.leafs)
  {
    Parts(ord, c, table, config, XlateContainer(ord, c, table, config).value);
    ThreeParts(c, table, config, k);
    LeafKeys(table, c.leafs, InnerRest(c, 0, ListRest(table, Active(c), config)));
    KindsApart(c, k);
  }

  // What comes back for an entry of a list is the entry exactly when it is good.
  lemma TakenBack(ord: Order, c: Container, table: string, config: map<string, Cfg>, k: string)
    requires IsOrder(ord) && WellFormed(c) && Taken(c, table, config, k) && Normal(k)
    requires ApartFromKeys(Taker(table, Active(c), k, config[k]).value, config[k])
    ensures var l := Taker(table, Active(c), k, config[k]).value;
            BackOf(ord, table, l, k, config[k]) == config[k] <==> GoodRow(table, l, k, config[k])
  {
    ActiveGood(c);
    var l := Taker(table, Active(c), k, config[k]).value;
    var i :| 0 <= i < |Active(c)| && Active(c)[i] == l;
    RowRoundTrip(ord, table, l, k, config[k]);
  }

  ghost function TakenMap(c: Container, table: string, config: map<string, Cfg>): map<string, Cfg> {
    map k | k in config && Taken(c, table, config, k) :: config[k]
  }

  ghost function InnerMap(c: Container, rest: map<string, Cfg>): map<string, Cfg> {
    map k | k in rest && InnerName(c, k) :: rest[k]
  }

  // The parts make up the table.
  lemma Together(c: Container, table: string, config: map<string, Cfg>)
    ensures var rest := ListRest(table, Active(c), config);
            TakenMap(c, table, config) + InnerMap(c, rest) + InnerRest(c, 0, rest) == config
  {
    var rest := ListRest(table, Active(c), config);
    var all := TakenMap(c, table, config) + InnerMap(c, rest) + InnerRest(c, 0, rest);
    forall k ensures SameCfg(all, config, k) {
      ThreeParts(c, table, config, k);
    }
    SameMaps(all, config);
  }

  // Good entries come back from the lists.
  lemma ListsPart(ord: Order, c: Container, table: string, config: map<string, Cfg>, nodes: map<string, Node>)
    requires IsOrder(ord) && WellFormed(c) && XlateContainer(ord, c, table, config) == Ok(nodes)
    requires GoodTaken(table, Active(c), config)
    ensures RevLists(table, AllLists(c), nodes) == Ok(TakenMap(c, table, config))
  {
    ActiveGood(c);
    ListNames(ord, c, table, config, nodes);
    OnlyActive(c, table, nodes);
    ListsBack(ord, table, Active(c), config, nodes);
    TakenAll(ord, c, table, config);
  }

  lemma TakenAll(ord: Order, c: Container, table: string, config: map<string, Cfg>)
    requires IsOrder(ord) && WellFormed(c) && GoodTaken(table, Active(c), config)
    ensures ListsBackMap(ord, table, Active(c), config) == TakenMap(c, table, config)
  {
    forall k ensures SameCfg(ListsBackMap(ord, table, Active(c), config), TakenMap(c, table, config), k) {
      if Taken(c, table, config, k) {
        TakenBack(ord, c, table, config, k);
      }
    }
    SameMaps(ListsBackMap(ord, table, Active(c), config), TakenMap(c, table, config));
  }

  // Faithful leaves come back.
  lemma LeafPart(ord: Order, c: Container, table: string, config: map<string, Cfg>, nodes: map<string, Node>)
    requires IsOrder(ord) && WellFormed(c) && XlateContainer(ord, c, table, config) == Ok(nodes)
    ensures LeafsHoldValues(c.leafs, nodes) && AllUntyped(table, c.leafs, LeafValues(c.leafs, nodes))
    ensures var last := InnerRest(c, 0, ListRest(table, Active(c), config));
            UntypedFields(table, c.leafs, LeafValues(c.leafs, nodes)) == last <==> AllFaithful(table, c.leafs, last)
    ensures UntypedFields(table, c.leafs, LeafValues(c.leafs, nodes)).Keys
         == InnerRest(c, 0, ListRest(table, Active(c), config)).Keys
  {
    LeafNodes(ord, c, table, config, nodes);
    FieldsRoundTrip(table, c.leafs, InnerRest(c, 0, ListRest(table, Active(c), config)));
  }

  // Each inner container comes back, or is missing where it was missing.
  ghost predicate InnerReturns(c: Container, table: string, rest: map<string, Cfg>, nodes: map<string, Node>, j: nat)
    requires j < |c.inner|
  {
    InnerBack(c, table, j, nodes) == Ok(if c.inner[j].name in rest then Some(rest[c.inner[j].name]) else None)
  }

  lemma InnersPart(c: Container, table: string, rest: map<string, Cfg>, nodes: map<string, Node>)
    requires WellFormed(c) && forall j :: 0 <= j < |c.inner| ==> InnerReturns(c, table, rest, nodes, j)
    ensures InnersBack(c, table, 0, nodes) == Ok(InnerMap(c, rest))
  {
    forall j | 0 <= j < |c.inner| ensures InnerBack(c, table, j, nodes).Ok? {
      assert InnerReturns(c, table, rest, nodes, j);
    }
    InnersBackOk(c, table, 0, nodes);
    InnersBackNames(c, table, 0, nodes);
    var inner := InnersBack(c, table, 0, nodes).value;
    forall k ensures SameCfg(inner, InnerMap(c, rest), k) {
      if InnerName(c, k) {
        var j :| 0 <= j < |c.inner| && c.inner[j].name == k;
        InnerPartAt(c, table, rest, nodes, j);
      }
    }
    SameMaps(inner, InnerMap(c, rest));
  }

  lemma InnerPartAt(c: Container, table: string, rest: map<string, Cfg>, nodes: map<string, Node>, j: nat)
    requires WellFormed(c) && j < |c.inner| && InnersBack(c, table, 0, nodes).Ok?
             && InnerReturns(c, table, rest, nodes, j)
    ensures SameCfg(InnersBack(c, table, 0, nodes).value, InnerMap(c, rest), c.inner[j].name)
  {
    InnersBackAt(c, table, 0, nodes, j);
    assert InnerName(c, c.inner[j].name);
  }

  lemma Sufficient(ord: Order, c: Container, table: string, config: map<string, Cfg>, nodes: map<string, Node>)
    requires IsOrder(ord) && WellFormed(c) && XlateContainer(ord, c, table, config) == Ok(nodes)
    requires GoodTaken(table, Active(c), config)
    requires forall j :: 0 <= j < |c.inner| ==> InnerReturns(c, table, ListRest(table, Active(c), config), nodes, j)
    requires AllFaithful(table, c.leafs, InnerRest(c, 0, ListRest(table, Active(c), config)))
    ensures RevContainer(c, table, nodes) == Ok(config)
  {
    ListsPart(ord, c, table, config, nodes);
    InnersPart(c, table, ListRest(table, Active(c), config), nodes);
    LeafPart(ord, c, table, config, nodes);
    Together(c, table, config);
  }

  // ----- and the other way -----

  // What comes back from inner containers and leaves was not taken by a list.
  lemma NotTaken(ord: Order, c: Container, table: string, config: map<string, Cfg>, nodes: map<string, Node>, k: string)
    requires IsOrder(ord) && WellFormed(c) && XlateContainer(ord, c, table, config) == Ok(nodes)
    requires InnersBack(c, table, 0, nodes).Ok? && k in InnersBack(c, table, 0, nodes).value
    ensures k in ListRest(table, Active(c), config) && InnerName(c, k)
  {
    InnersBackNames(c, table, 0, nodes);
    var j :| 0 <= j < |c.inner| && c.inner[j].name == k;
    InnersBackAt(c, table, 0, nodes, j);
    InnerBackIs(ord, c, table, config, nodes, j);
  }

  // In what comes back, an entry that a list took is from the lists, an inner container from the
  // inner containers, and a leaf from the leaves.
  lemma FromWhere(ord: Order, c: Container, table: string, config: map<string, Cfg>, nodes: map<string, Node>,
                  k: string)
    requires IsOrder(ord) && WellFormed(c) && XlateContainer(ord, c, table, config) == Ok(nodes)
    requires RevContainer(c, table, nodes) == Ok(config) && k in config
    ensures RevLists(table, AllLists(c), nodes).Ok? && InnersBack(c, table, 0, nodes).Ok?
    ensures Taken(c, table, config, k) ==>
              k in RevLists(table, AllLists(c), nodes).value
              && RevLists(table, AllLists(c), nodes).value[k] == config[k]
    ensures !Taken(c, table, config, k) && k !in RevLists(table, AllLists(c), nodes).value && InnerName(c, k) ==>
              k in InnersBack(c, table, 0, nodes).value && InnersBack(c, table, 0, nodes).value[k] == config[k]
  {
    var inner := InnersBack(c, table, 0, nodes).value;
    ThreeParts(c, table, config, k);
    LeafPart(ord, c, table, config, nodes);
    if k in inner {
      NotTaken(ord, c, table, config, nodes, k);
    }
  }

  // If the table came back, then every key that a list took is normal.
  lemma KeysNormal(ord: Order, c: Container, table: string, config: map<string, Cfg>, nodes: map<string, Node>)
    requires IsOrder(ord) && WellFormed(c) && XlateContainer(ord, c, table, config) == Ok(nodes)
    requires TakenApart(table, Active(c), config) && RevContainer(c, table, nodes) == Ok(config)
    ensures TakenNormal(table, Active(c), config)
  {
    ActiveGood(c);
    ListNames(ord, c, table, config, nodes);
    OnlyActive(c, table, nodes);
    ListsNormal(ord, table, Active(c), config, nodes);
    forall k | k in config && Taker(table, Active(c), k, config[k]).Some? ensures Normal(k) {
      FromWhere(ord, c, table, config, nodes, k);
    }
  }

  // If the table came back, then no entry that a list took has a field with the name of a key.
  lemma NoneRepeats(ord: Order, c: Container, table: string, config: map<string, Cfg>, nodes: map<string, Node>)
    requires IsOrder(ord) && WellFormed(c) && XlateContainer(ord, c, table, config) == Ok(nodes)
    requires RevContainer(c, table, nodes) == Ok(config)
    ensures TakenApart(table, Active(c), config)
  {
    ActiveGood(c);
    ListNames(ord, c, table, config, nodes);
    OnlyActive(c, table, nodes);
    ListsWeight(ord, table, Active(c), config, nodes);
    var back := RevLists(table, AllLists(c), nodes);
    if back.Ok? {
      var taken := TakenBy(table, Active(c), config);
      forall k | k in taken ensures k in back.value && taken[k] == back.value[k] {
        FromWhere(ord, c, table, config, nodes, k);
      }
      WeightPart(taken, back.value);
    }
  }

  // If the table came back, then the entries that lists took are good.
  lemma TakenWereGood(ord: Order, c: Container, table: string, config: map<string, Cfg>, nodes: map<string, Node>)
    requires IsOrder(ord) && WellFormed(c) && XlateContainer(ord, c, table, config) == Ok(nodes)
    requires TakenApart(table, Active(c), config) && RevContainer(c, table, nodes) == Ok(config)
    ensures GoodTaken(table, Active(c), config)
    ensures RevLists(table, AllLists(c), nodes) == Ok(ListsBackMap(ord, table, Active(c), config))
  {
    KeysNormal(ord, c, table, config, nodes);
    ActiveGood(c);
    ListNames(ord, c, table, config, nodes);
    OnlyActive(c, table, nodes);
    ListsBack(ord, table, Active(c), config, nodes);
    forall k | k in config && Taker(table, Active(c), k, config[k]).Some?
      ensures var l := Taker(table, Active(c), k, config[k]).value; NamesList(l.name) && GoodRow(table, l, k, config[k])
    {
      FromWhere(ord, c, table, config, nodes, k);
      TakenBack(ord, c, table, config, k);
    }
  }

  // If the table came back, then each inner container did.
  lemma InnerCameBack(ord: Order, c: Container, table: string, config: map<string, Cfg>, nodes: map<string, Node>,
                      j: nat)
    requires IsOrder(ord) && WellFormed(c) && XlateContainer(ord, c, table, config) == Ok(nodes) && j < |c.inner|
    requires TakenApart(table, Active(c), config) && RevContainer(c, table, nodes) == Ok(config)
    requires c.inner[j].name in ListRest(table, Active(c), config)
    ensures InnerReturns(c, table, ListRest(table, Active(c), config), nodes, j)
  {
    var k := c.inner[j].name;
    assert InnerName(c, k);
    ThreeParts(c, table, config, k);
    TakenWereGood(ord, c, table, config, nodes);
    FromWhere(ord, c, table, config, nodes, k);
    InnersBackAt(c, table, 0, nodes, j);
  }

  // If the table came back, then its leaves are faithful.
  lemma LeavesWereFaithful(ord: Order, c: Container, table: string, config: map<string, Cfg>, nodes: map<string, Node>)
    requires IsOrder(ord) && WellFormed(c) && XlateContainer(ord, c, table, config) == Ok(nodes)
    requires RevContainer(c, table, nodes) == Ok(config)
    ensures AllFaithful(table, c.leafs, InnerRest(c, 0, ListRest(table, Active(c), config)))
  {
    var last := InnerRest(c, 0, ListRest(table, Active(c), config));
    LeafPart(ord, c, table, config, nodes);
    var leaves := UntypedFields(table, c.leafs, LeafValues(c.leafs, nodes));
    forall k ensures SameCfg(leaves, last, k) {
      ThreeParts(c, table, config, k);
    }
    SameMaps(leaves, last);
  }

  // ----- the round trip -----

  lemma {:induction false} NothingBack(c: Container, table: string, ls: seq<ListModel>, i: nat)
    requires i <= |c.inner|
    ensures RevLists(table, ls, map[]) == Ok(map[])
    ensures InnersBack(c, table, i, map[]) == Ok(map[])
    decreases |ls| + |c.inner| - i
  {
    if ls != [] {
      NothingBack(c, table, ls[1..], i);
    }
    if i < |c.inner| {
      NothingBack(c, table, ls, i + 1);
    }
  }

  // From an inner container's own round trip to its place in the outer one.
  lemma InnerRoundTrip(ord: Order, c: Container, table: string, config: map<string, Cfg>, nodes: map<string, Node>,
                       j: nat)
    requires IsOrder(ord) && WellFormed(c) && XlateContainer(ord, c, table, config) == Ok(nodes) && j < |c.inner|
    requires InnerIff(ord, c.inner[j], table, ListRest(table, Active(c), config))
    ensures InnerReturns(c, table, ListRest(table, Active(c), config), nodes, j)
       <==> GoodInner(c.inner[j], table, ListRest(table, Active(c), config))
  {
    var rest := ListRest(table, Active(c), config);
    var d := c.inner[j];
    InnerBackIs(ord, c, table, config, nodes, j);
    NothingBack(d, table, AllLists(d), 0);
  }

  ghost predicate InnerIff(ord: Order, d: Container, table: string, rest: map<string, Cfg>)
    requires IsOrder(ord)
  {
    d.name in rest && rest[d.name].Dict? && XlateContainer(ord, d, table, rest[d.name].fields).Ok? ==>
      (RevContainer(d, table, XlateContainer(ord, d, table, rest[d.name].fields).value) == Ok(rest[d.name].fields)
       <==> Good(d, table, rest[d.name].fields))
  }

  ghost predicate GoodInner(d: Container, table: string, rest: map<string, Cfg>) {
    d.name in rest ==> rest[d.name].Dict? && rest[d.name].fields != map[] && Good(d, table, rest[d.name].fields)
  }

  // A table that translates comes back as it was exactly when it is good: for every well-formed
  // schema, every order of every dict, and every table.
  lemma {:induction false} ContainerRoundTrip(ord: Order, c: Container, table: string, config: map<string, Cfg>)
    requires IsOrder(ord) && WellFormed(c) && XlateContainer(ord, c, table, config).Ok?
    ensures RevContainer(c, table, XlateContainer(ord, c, table, config).value) == Ok(config) <==>
            Good(c, table, config)
    decreases c
  {
    var nodes := XlateContainer(ord, c, table, config).value;
    var rest := ListRest(table, Active(c), config);
    forall j | 0 <= j < |c.inner| ensures InnersMatch(c, table, config, nodes, j) {
      var d := c.inner[j];
      if d.name in rest && rest[d.name].Dict? && XlateContainer(ord, d, table, rest[d.name].fields).Ok? {
        ContainerRoundTrip(ord, d, table, rest[d.name].fields);
      }
      InnerRoundTrip(ord, c, table, config, nodes, j);
    }
    if RevContainer(c, table, nodes) == Ok(config) {
      BackThenGood(ord, c, table, config, nodes);
    }
    if Good(c, table, config) {
      GoodThenBack(ord, c, table, config, nodes);
    }
  }

  lemma BackThenGood(ord: Order, c: Container, table: string, config: map<string, Cfg>, nodes: map<string, Node>)
    requires IsOrder(ord) && WellFormed(c) && XlateContainer(ord, c, table, config) == Ok(nodes)
    requires forall j :: 0 <= j < |c.inner| ==> InnersMatch(c, table, config, nodes, j)
    requires RevContainer(c, table, nodes) == Ok(config)
    ensures Good(c, table, config)
  {
    NoneRepeats(ord, c, table, config, nodes);
    TakenWereGood(ord, c, table, config, nodes);
    LeavesWereFaithful(ord, c, table, config, nodes);
    forall j | 0 <= j < |c.inner| ensures GoodInner(c.inner[j], table, ListRest(table, Active(c), config)) {
      assert InnersMatch(c, table, config, nodes, j);
      if c.inner[j].name in ListRest(table, Active(c), config) {
        InnerCameBack(ord, c, table, config, nodes, j);
      }
    }
  }

  lemma GoodThenBack(ord: Order, c: Container, table: string, config: map<string, Cfg>, nodes: map<string, Node>)
    requires IsOrder(ord) && WellFormed(c) && XlateContainer(ord, c, table, config) == Ok(nodes)
    requires forall j :: 0 <= j < |c.inner| ==> InnersMatch(c, table, config, nodes, j)
    requires Good(c, table, config)
    ensures RevContainer(c, table, nodes) == Ok(config)
  {
    forall j | 0 <= j < |c.inner| ensures InnerReturns(c, table, ListRest(table, Active(c), config), nodes, j) {
      assert InnersMatch(c, table, config, nodes, j);
      assert GoodInner(c.inner[j], table, ListRest(table, Active(c), config));
    }
    Sufficient(ord, c, table, config, nodes);
  }

  // An inner container comes back in its place exactly when it is good.
  ghost predicate InnersMatch(c: Container, table: string, config: map<string, Cfg>, nodes: map<string, Node>, j: nat)
    requires j < |c.inner|
  {
    var rest := ListRest(table, Active(c), config);
    InnerReturns(c, table, rest, nodes, j) <==> GoodInner(c.inner[j], table, rest)
  }
}
