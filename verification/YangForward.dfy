/**
 The forward translation by itself: which tables translate, and where the YANG data holds what
 (src/sonic-yang-mgmt/sonic_yang_ext.py, lines 617-698).
 */
module YangForward {
  import opened Wrappers
  import opened YangRows
  import opened YangTables
  import opened YangContainers
  import opened YangRoundTrip

  // ----- which tables translate -----

  lemma {:induction false} InnerNodesOk(ord: Order, c: Container, table: string, i: nat, config: map<string, Cfg>)
    requires IsOrder(ord) && i <= |c.inner|
    requires forall a, b :: 0 <= a < b < |c.inner| ==> c.inner[a].name != c.inner[b].name
    requires forall j :: i <= j < |c.inner| ==> InnerNode(ord, c, table, j, config).Ok?
    ensures InnerNodes(ord, c, table, i, config).Ok?
    decreases |c.inner| - i
  {
    if i < |c.inner| {
      var rest := config - {c.inner[i].name};
      forall j | i + 1 <= j < |c.inner| ensures InnerNode(ord, c, table, j, rest).Ok? {
        InnerNodeSame(ord, c, table, j, config, rest);
      }
      InnerNodesOk(ord, c, table, i + 1, rest);
    }
  }

  // What the table holds for an inner container is nothing, or a dict that translates.
  ghost predicate InnerFits(ord: Order, d: Container, table: string, config: map<string, Cfg>)
    requires IsOrder(ord)
  {
    d.name in config && !EmptyCfg(config[d.name]) ==>
      config[d.name].Dict? && XlateContainer(ord, d, table, config[d.name].fields).Ok?
  }

  // A table translates exactly when every key that no list takes is that of an inner container,
  // which is empty or translates, or of a leaf that can be typed.
  lemma TranslatesIff(ord: Order, c: Container, table: string, config: map<string, Cfg>)
    requires IsOrder(ord) && WellFormed(c)
    ensures XlateContainer(ord, c, table, config).Ok?
       <==> && (forall j :: 0 <= j < |c.inner| && !Taken(c, table, config, c.inner[j].name) ==>
                              InnerFits(ord, c.inner[j], table, config))
            && forall k :: k in config && !Taken(c, table, config, k) && !InnerName(c, k) ==>
                             CanType(table, c.leafs, k, config[k])
  {
    var rest := ListRest(table, Active(c), config);
    var last := InnerRest(c, 0, rest);
    forall k
      ensures k in rest <==> k in config && !Taken(c, table, config, k)
      ensures k in rest ==> rest[k] == config[k]
      ensures k in last <==> k in config && !Taken(c, table, config, k) && !InnerName(c, k)
      ensures k in last ==> last[k] == config[k]
    {
      ThreeParts(c, table, config, k);
    }
    InnersIff(ord, c, table, rest);
    LeavesIff(table, c.leafs, last, config);
    if rest == map[] {
      NoLeaves(c, table, rest);
    }
  }

  lemma InnersIff(ord: Order, c: Container, table: string, rest: map<string, Cfg>)
    requires IsOrder(ord) && WellFormed(c)
    ensures InnerNodes(ord, c, table, 0, rest).Ok? <==> forall j :: 0 <= j < |c.inner| ==>
                                                                      InnerFits(ord, c.inner[j], table, rest)
  {
    if InnerNodes(ord, c, table, 0, rest).Ok? {
      forall j | 0 <= j < |c.inner| ensures InnerFits(ord, c.inner[j], table, rest) {
        InnerNodesAt(ord, c, table, 0, rest, j);
      }
    }
    if forall j :: 0 <= j < |c.inner| ==> InnerFits(ord, c.inner[j], table, rest) {
      forall j | 0 <= j < |c.inner| ensures InnerNode(ord, c, table, j, rest).Ok? {
        assert InnerFits(ord, c.inner[j], table, rest);
      }
      InnerNodesOk(ord, c, table, 0, rest);
    }
  }

  lemma LeavesIff(table: string, leafs: map<string, Leaf>, last: map<string, Cfg>, config: map<string, Cfg>)
    requires forall k :: k in last ==> k in config && last[k] == config[k]
    ensures AllTyped(table, leafs, last) <==> forall k :: k in last ==> CanType(table, leafs, k, config[k])
  {
  }

  lemma FaithfulFields(table: string, leafs: map<string, Leaf>, m: map<string, Cfg>)
    requires AllFaithful(table, leafs, m)
    ensures AllTyped(table, leafs, m)
  {
    forall k | k in m ensures CanType(table, leafs, k, m[k]) {
      FaithfulTyped(Separator(table, k), leafs[k], m[k]);
    }
  }

  // An entry of canonical values is taken: its key has as many parts as the list has key names, and
  // its fields are faithful.
  lemma FaithfulAccepted(table: string, l: ListModel, pkey: string, v: Cfg)
    requires !IsType1(l) && ExtractKey(pkey, l.keys).Ok? && v.Dict? && AllFaithful(table, l.leafs, v.fields)
    ensures Accepts(table, l, pkey, v)
  {
    FaithfulFields(table, l.leafs, v.fields);
  }

  // A good table always translates.
  lemma {:induction false} GoodTranslates(ord: Order, c: Container, table: string, config: map<string, Cfg>)
    requires IsOrder(ord) && WellFormed(c) && Good(c, table, config)
    ensures XlateContainer(ord, c, table, config).Ok?
    decreases c
  {
    var rest := ListRest(table, Active(c), config);
    forall j | 0 <= j < |c.inner| ensures InnerFits(ord, c.inner[j], table, rest) {
      if c.inner[j].name in rest {
        GoodTranslates(ord, c.inner[j], table, rest[c.inner[j].name].fields);
      }
    }
    InnersIff(ord, c, table, rest);
    FaithfulFields(table, c.leafs, InnerRest(c, 0, rest));
  }

  // A table goes there and comes back as it was exactly when it is good.
  lemma ThereAndBack(ord: Order, c: Container, table: string, config: map<string, Cfg>)
    requires IsOrder(ord) && WellFormed(c)
    ensures Good(c, table, config)
       <==> && XlateContainer(ord, c, table, config).Ok?
            && RevContainer(c, table, XlateContainer(ord, c, table, config).value) == Ok(config)
  {
    if Good(c, table, config) {
      GoodTranslates(ord, c, table, config);
    }
    if XlateContainer(ord, c, table, config).Ok? {
      ContainerRoundTrip(ord, c, table, config);
    }
  }

  // ----- where the YANG data holds what -----

  // A leaf that no list took stands under its name, as the schema types it.
  lemma LeafHolds(ord: Order, c: Container, table: string, config: map<string, Cfg>, nodes: map<string, Node>,
                  k: string)
    requires IsOrder(ord) && WellFormed(c) && XlateContainer(ord, c, table, config) == Ok(nodes)
    requires k in config && k in c.leafs && !Taken(c, table, config, k)
    ensures k in nodes && nodes[k].Value? && Typed(Separator(table, k), c.leafs[k], config[k]) == Ok(nodes[k].y)
  {
    LeafAt(ord, c, table, config, nodes, k);
    ThreeParts(c, table, config, k);
    KindsApart(c, k);
    assert CanType(table, c.leafs, k, config[k]) by {
      var last := InnerRest(c, 0, ListRest(table, Active(c), config));
      assert CanType(table, c.leafs, k, last[k]);
    }
  }

  // An inner container stands under its name with its own translation, empty where it is missing or
  // empty, unless that translation is empty or the lists took everything.
  lemma InnerHolds(ord: Order, c: Container, table: string, config: map<string, Cfg>, nodes: map<string, Node>, j: nat)
    requires IsOrder(ord) && WellFormed(c) && XlateContainer(ord, c, table, config) == Ok(nodes) && j < |c.inner|
    ensures var d, rest := c.inner[j], ListRest(table, Active(c), config);
            if rest == map[] then d.name !in nodes
            else if d.name !in rest || EmptyCfg(rest[d.name]) then d.name in nodes && nodes[d.name] == Inside(map[])
            else
              && rest[d.name].Dict? && XlateContainer(ord, d, table, rest[d.name].fields).Ok?
              && var inside := XlateContainer(ord, d, table, rest[d.name].fields).value;
              if inside == map[] then d.name !in nodes else d.name in nodes && nodes[d.name] == Inside(inside)
  {
    var rest := ListRest(table, Active(c), config);
    InnerAt(ord, c, table, config, nodes, j);
    if rest != map[] {
      InnerNodesAt(ord, c, table, 0, rest, j);
    }
  }

  // The rows of a list stand under its name, one for each entry that it is the first to accept.
  lemma ListHolds(ord: Order, c: Container, table: string, config: map<string, Cfg>, nodes: map<string, Node>, i: nat)
    returns (ks: seq<string>, rows: seq<Row>)
    requires IsOrder(ord) && WellFormed(c) && XlateContainer(ord, c, table, config) == Ok(nodes) && i < |Active(c)|
    ensures OneRowEach(ord, table, Active(c)[i], rows, ks, config)
    ensures forall k :: k in ks <==> k in config && Taker(table, Active(c), k, config[k]) == Some(Active(c)[i])
    ensures var name := Active(c)[i].name;
            if rows == [] then name !in nodes else name in nodes && nodes[name] == Rows(rows)
  {
    ActiveGood(c);
    ks, rows := EachToOne(ord, table, Active(c), config, i);
    ListNames(ord, c, table, config, nodes);
    assert SameAt(Active(c)[i].name, nodes, ListNodes(ord, table, Active(c), config));
  }
}
