/**
 Containers of the ConfigDB to YANG translation: lists first, then inner containers, then leaves,
 and nothing may be left over
 (src/sonic-yang-mgmt/sonic_yang_ext.py, lines 617-698 and 907-962).
 */
module YangContainers {
  import opened Wrappers
  import opened YangRows
  import opened YangTables

  // ----- forwards -----

  predicate EmptyCfg(v: Cfg) {
    match v
    case Text(s) => s == ""
    case Texts(ss) => ss == []
    case Dict(m) => m == map[]
  }

  // What an inner container gives: an empty node when it is missing or empty, none when its
  // translation is empty.
  function InnerNode(ord: Order, c: Container, table: string, i: nat, config: map<string, Cfg>): Result<Option<Node>>
    requires IsOrder(ord) && i < |c.inner|
    decreases c, 0
  {
    var d := c.inner[i];
    if d.name !in config || EmptyCfg(config[d.name]) then Ok(Some(Inside(map[])))
    else if !config[d.name].Dict? then Err
    else
      match XlateContainer(ord, d, table, config[d.name].fields)
      case Err => Err
      case Ok(nodes) => Ok(if nodes == map[] then None else Some(Inside(nodes)))
  }

  function Opt(name: string, n: Option<Node>): map<string, Node> {
    if n.Some? then map[name := n.value] else map[]
  }

  function InnerNodes(ord: Order, c: Container, table: string, i: nat, config: map<string, Cfg>): Result<map<string,
    Node>>
    requires IsOrder(ord) && i <= |c.inner|
    decreases c, 1 + |c.inner| - i
  {
    if i == |c.inner| then Ok(map[])
    else
      match (InnerNode(ord, c, table, i, config), InnerNodes(ord, c, table, i + 1, config - {c.inner[i].name}))
      case (Ok(n), Ok(nodes)) => Ok(Opt(c.inner[i].name, n) + nodes)
      case _ => Err
  }

  function InnerRest(c: Container, i: nat, config: map<string, Cfg>): map<string, Cfg>
    requires i <= |c.inner|
    decreases |c.inner| - i
  {
    if i == |c.inner| then config else InnerRest(c, i + 1, config - {c.inner[i].name})
  }

  function ValueNodes(fields: map<string, Yang>): map<string, Node> {
    map k | k in fields :: Value(fields[k])
  }

  // `_xlateContainer`.
  function XlateContainer(ord: Order, c: Container, table: string, config: map<string, Cfg>): Result<map<string, Node>>
    requires IsOrder(ord)
    decreases c, |c.inner| + 2
  {
    var nodes := ListNodes(ord, table, Active(c), config);
    var rest := ListRest(table, Active(c), config);
    if rest == map[] then Ok(nodes)
    else
      match InnerNodes(ord, c, table, 0, rest)
      case Err => Err
      case Ok(inner) =>
        var last := InnerRest(c, 0, rest);
        if AllTyped(table, c.leafs, last) then Ok(nodes + inner + ValueNodes(TypedFields(table, c.leafs, last)))
        else Err
  }

  // ----- back -----

  function InnerBack(c: Container, table: string, i: nat, nodes: map<string, Node>): Result<Option<Cfg>>
    requires i < |c.inner|
    decreases c, 0
  {
    var d := c.inner[i];
    if d.name !in nodes || Empty(nodes[d.name]) then Ok(None)
    else if !nodes[d.name].Inside? then Err
    else
      match RevContainer(d, table, nodes[d.name].nodes)
      case Err => Err
      case Ok(m) => Ok(Some(Dict(m)))
  }

  function OptCfg(name: string, v: Option<Cfg>): map<string, Cfg> {
    if v.Some? then map[name := v.value] else map[]
  }

  function InnersBack(c: Container, table: string, i: nat, nodes: map<string, Node>): Result<map<string, Cfg>>
    requires i <= |c.inner|
    decreases c, 1 + |c.inner| - i
  {
    if i == |c.inner| then Ok(map[])
    else
      match (InnerBack(c, table, i, nodes), InnersBack(c, table, i + 1, nodes))
      case (Ok(v), Ok(m)) => Ok(OptCfg(c.inner[i].name, v) + m)
      case _ => Err
  }

  // The values among the nodes that are leaves of the schema.
  function LeafValues(leafs: map<string, Leaf>, nodes: map<string, Node>): map<string, Yang> {
    map k | k in nodes && k in leafs && nodes[k].Value? :: nodes[k].y
  }

  predicate LeafsHoldValues(leafs: map<string, Leaf>, nodes: map<string, Node>) {
    forall k :: k in nodes && k in leafs ==> nodes[k].Value?
  }

  // `_revXlateContainer`.
  function RevContainer(c: Container, table: string, nodes: map<string, Node>): Result<map<string, Cfg>>
    decreases c, |c.inner| + 2
  {
    var values := LeafValues(c.leafs, nodes);
    match (RevLists(table, AllLists(c), nodes), InnersBack(c, table, 0, nodes))
    case (Ok(lists), Ok(inner)) =>
      if LeafsHoldValues(c.leafs, nodes) && AllUntyped(table, c.leafs, values)
      then Ok(lists + inner + UntypedFields(table, c.leafs, values)) else Err
    case _ => Err
  }

  // ----- the schema and the condition -----

  predicate InnerName(c: Container, k: string) {
    exists i :: 0 <= i < |c.inner| && c.inner[i].name == k
  }

  // The names in a container are distinct, as YANG demands of siblings, and so are the keys of a list.
  ghost predicate WellFormed(c: Container) {
    && GoodLists(AllLists(c))
    && (forall i :: 0 <= i < |AllLists(c)| ==> AllLists(c)[i].name !in c.leafs && !InnerName(c, AllLists(c)[i].name))
    && (forall i, j :: 0 <= i < j < |c.inner| ==> c.inner[i].name != c.inner[j].name)
    && (forall i :: 0 <= i < |c.inner| ==> c.inner[i].name !in c.leafs && WellFormed(c.inner[i]))
  }

  ghost predicate GoodTaken(table: string, ls: seq<ListModel>, config: map<string, Cfg>) {
    forall k :: k in config ==>
                  var t := Taker(table, ls, k, config[k]);
                  t.Some? ==> NamesList(t.value.name) && GoodRow(table, t.value, k, config[k])
  }

  // Entries that lists take are good, inner containers are not empty, and leaves are faithful.
  ghost predicate Good(c: Container, table: string, config: map<string, Cfg>) {
    && GoodTaken(table, Active(c), config)
    && (forall i :: 0 <= i < |c.inner| ==>
                      var rest := ListRest(table, Active(c), config);
                      c.inner[i].name in rest ==>
                        && rest[c.inner[i].name].Dict?
                        && rest[c.inner[i].name].fields != map[]
                        && Good(c.inner[i], table, rest[c.inner[i].name].fields))
    && AllFaithful(table, c.leafs, InnerRest(c, 0, ListRest(table, Active(c), config)))
  }

  // ----- where the nodes of a container stand -----

  predicate InnerFrom(c: Container, i: nat, k: string) {
    exists j :: i <= j < |c.inner| && c.inner[j].name == k
  }

  lemma {:induction false} InnerRestIs(c: Container, i: nat, config: map<string, Cfg>)
    requires i <= |c.inner|
    ensures InnerRest(c, i, config) == map k | k in config && !InnerFrom(c, i, k) :: config[k]
    decreases |c.inner| - i
  {
    if i < |c.inner| {
      InnerRestIs(c, i + 1, config - {c.inner[i].name});
      forall k ensures InnerFrom(c, i, k) <==> k == c.inner[i].name || InnerFrom(c, i + 1, k) {
        if InnerFrom(c, i, k) && k != c.inner[i].name {
          var j :| i <= j < |c.inner| && c.inner[j].name == k;
          assert i + 1 <= j;
        }
      }
    }
  }

  // A node does not change when other names are dropped from the config.
  lemma InnerNodeSame(ord: Order, c: Container, table: string, i: nat, config: map<string, Cfg>, config': map<string,
                                                                                                              Cfg>)
    requires IsOrder(ord) && i < |c.inner|
    requires c.inner[i].name in config <==> c.inner[i].name in config'
    requires c.inner[i].name in config ==> config[c.inner[i].name] == config'[c.inner[i].name]
    ensures InnerNode(ord, c, table, i, config) == InnerNode(ord, c, table, i, config')
  {
  }

  // Each inner container's node stands under its name.
  ghost predicate NodeAt(name: string, nodes: map<string, Node>, n: Option<Node>) {
    if n.Some? then name in nodes && nodes[name] == n.value else name !in nodes
  }

  lemma {:induction false} InnerNodesAt(ord: Order, c: Container, table: string, i: nat, config: map<string, Cfg>,
                                        j: nat)
    requires IsOrder(ord) && i <= j < |c.inner| && InnerNodes(ord, c, table, i, config).Ok?
    requires forall a, b :: 0 <= a < b < |c.inner| ==> c.inner[a].name != c.inner[b].name
    ensures InnerNode(ord, c, table, j, config).Ok?
    ensures NodeAt(c.inner[j].name, InnerNodes(ord, c, table, i, config).value,
                   InnerNode(ord, c, table, j, config).value)
    decreases |c.inner| - i
  {
    var config' := config - {c.inner[i].name};
    if i < j {
      InnerNodesAt(ord, c, table, i + 1, config', j);
      InnerNodeSame(ord, c, table, j, config, config');
    } else {
      InnerNodeNames(ord, c, table, i + 1, config');
      assert !InnerFrom(c, i + 1, c.inner[i].name);
    }
  }

  lemma {:induction false} InnerNodeNames(ord: Order, c: Container, table: string, i: nat, config: map<string, Cfg>)
    requires IsOrder(ord) && i <= |c.inner|
    ensures var r := InnerNodes(ord, c, table, i, config); r.Ok? ==> forall k :: k in r.value ==> InnerFrom(c, i, k)
    decreases |c.inner| - i
  {
    if i < |c.inner| {
      var config' := config - {c.inner[i].name};
      InnerNodeNames(ord, c, table, i + 1, config');
      assert InnerFrom(c, i, c.inner[i].name);
      forall k | InnerFrom(c, i + 1, k) ensures InnerFrom(c, i, k) {
      }
    }
  }

  // Each inner container comes back under its name.
  ghost predicate CfgAt(name: string, m: map<string, Cfg>, v: Option<Cfg>) {
    if v.Some? then name in m && m[name] == v.value else name !in m
  }

  lemma {:induction false} InnersBackAt(c: Container, table: string, i: nat, nodes: map<string, Node>, j: nat)
    requires i <= j < |c.inner| && InnersBack(c, table, i, nodes).Ok?
    requires forall a, b :: 0 <= a < b < |c.inner| ==> c.inner[a].name != c.inner[b].name
    ensures InnerBack(c, table, j, nodes).Ok?
    ensures CfgAt(c.inner[j].name, InnersBack(c, table, i, nodes).value, InnerBack(c, table, j, nodes).value)
    decreases |c.inner| - i
  {
    if i < j {
      InnersBackAt(c, table, i + 1, nodes, j);
    } else {
      InnersBackNames(c, table, i + 1, nodes);
      assert !InnerFrom(c, i + 1, c.inner[i].name);
    }
  }

  lemma {:induction false} InnersBackNames(c: Container, table: string, i: nat, nodes: map<string, Node>)
    requires i <= |c.inner|
    ensures var r := InnersBack(c, table, i, nodes); r.Ok? ==> forall k :: k in r.value ==> InnerFrom(c, i, k)
    decreases |c.inner| - i
  {
    if i < |c.inner| {
      InnersBackNames(c, table, i + 1, nodes);
      assert InnerFrom(c, i, c.inner[i].name);
      forall k | InnerFrom(c, i + 1, k) ensures InnerFrom(c, i, k) {
      }
    }
  }

  lemma {:induction false} InnersBackOk(c: Container, table: string, i: nat, nodes: map<string, Node>)
    requires i <= |c.inner| && forall j :: i <= j < |c.inner| ==> InnerBack(c, table, j, nodes).Ok?
    ensures InnersBack(c, table, i, nodes).Ok?
    decreases |c.inner| - i
  {
    if i < |c.inner| {
      InnersBackOk(c, table, i + 1, nodes);
    }
  }
}
