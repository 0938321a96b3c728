/**
 The translator object: output that is filled, a copy of the config that keys are deleted from as
 they match, and the stack `elementPath` of the element being worked on
 (src/sonic-yang-mgmt/sonic_yang_ext.py, lines 253-266, 399-433, 488-698 and 741-962). Each method
 is tied to the function it computes; `ok` is false when the source raises.
 */
module YangTranslator {
  import opened Wrappers
  import opened TextOps
  import opened YangRows
  import opened YangTables
  import opened YangContainers

  class Translator {
    var elementPath: seq<string>
    // The order in which the dicts at hand are visited.
    const ord: Order

    constructor (ord: Order)
      ensures elementPath == [] && this.ord == ord
    {
      elementPath := [];
      this.ord := ord;
    }

    // The path is inside a table.
    predicate In(table: string)
      reads this
    {
      elementPath != [] && elementPath[0] == table
    }

    // `_yangConvert` of every element.
    method ConvertEach(kind: Kind, ss: seq<string>) returns (vs: seq<Scalar>, ok: bool)
      ensures ConvertAll(kind, ss) == if ok then Ok(vs) else Err
    {
      vs, ok := [], true;
      for i := 0 to |ss|
        invariant ok && ConvertAll(kind, ss[..i]) == Ok(vs)
      {
        var r := Convert(kind, ss[i]);
        if r.Err? {
          ConvertPrefixErr(kind, ss, i);
          return [], false;
        }
        assert ss[..i + 1] == ss[..i] + [ss[i]];
        ConvertMore(kind, ss[..i], ss[i], vs, r.value);
        vs := vs + [r.value];
      }
      assert ss[..|ss|] == ss;
    }

    // `_findYangTypedValue`: the field is the last element of the path.
    method FindYangTypedValue(value: Cfg, leafs: map<string, Leaf>, ghost table: string, ghost field: string)
      returns (y: Yang, ok: bool)
      requires In(table) && elementPath[|elementPath| - 1] == field
      ensures ok <==> CanType(table, leafs, field, value)
      ensures ok ==> y == Typed(Separator(table, field), leafs[field], value).value
    {
      var key := elementPath[|elementPath| - 1];
      y := One(T(""));
      if key !in leafs {
        return y, false;
      }
      var sep := Separator(elementPath[0], key);
      if leafs[key].isList {
        var pieces := Pieces(sep, value);
        if pieces.None? {
          return y, false;
        }
        var vs;
        vs, ok := ConvertEach(leafs[key].kind, pieces.value);
        y := Many(vs);
      } else if value.Text? {
        var r := Convert(leafs[key].kind, value.s);
        if r.Err? {
          return y, false;
        }
        return One(r.value), true;
      } else {
        return y, false;
      }
    }

    // `_extractKey`.
    method ExtractKeyOf(tableKey: string, keys: seq<string>) returns (keyDict: map<string, Yang>, ok: bool)
      ensures ExtractKey(tableKey, keys) == if ok then Ok(keyDict) else Err
    {
      var value := Split(tableKey, BAR);
      keyDict, ok := map[], |keys| == |value|;
      if !ok {
        return;
      }
      for i := 0 to |keys|
        invariant keyDict == KeyDict(keys[..i], value[..i])
      {
        assert keys[..i + 1][..i] == keys[..i] && value[..i + 1][..i] == value[..i];
        keyDict := keyDict[keys[i] := One(T(Strip(value[i])))];
      }
      assert keys[..|keys|] == keys && value[..|value|] == value;
    }

    // One field of an entry; the path is as before, also on failure.
    method XlateField(table: string, leafs: map<string, Leaf>, vKey: string, v: Cfg) returns (y: Yang, ok: bool)
      requires In(table)
      modifies this
      ensures elementPath == old(elementPath)
      ensures ok <==> CanType(table, leafs, vKey, v)
      ensures ok ==> y == Typed(Separator(table, vKey), leafs[vKey], v).value
    {
      elementPath := elementPath + [vKey];
      y, ok := FindYangTypedValue(v, leafs, table, vKey);
      elementPath := elementPath[..|elementPath| - 1];
    }

    // The fields of an entry, typed, on top of its keys; the path is as before, also on failure.
    method FillFields(table: string, leafs: map<string, Leaf>, m: map<string, Cfg>, keyDict: map<string, Yang>)
      returns (filled: map<string, Yang>, ok: bool)
      requires IsOrder(ord) && In(table)
      modifies this
      ensures elementPath == old(elementPath)
      ensures ok <==> AllTyped(table, leafs, m)
      ensures ok ==> filled == keyDict + TypedFields(table, leafs, m)
    {
      var ks := ord(m);
      assert Listing(ord(m), m);
      filled, ok := keyDict, true;
      for i := 0 to |ks|
        invariant elementPath == old(elementPath) && ok
        invariant AllTypedIn(table, leafs, m, ks[..i]) && filled == keyDict + TypedIn(table, leafs, m, ks[..i])
      {
        var vKey := ks[i];
        assert vKey in ks;
        var y;
        y, ok := XlateField(table, leafs, vKey, m[vKey]);
        if !ok {
          return;
        }
        TypedInMore(table, leafs, m, ks, i, keyDict);
        filled := filled[vKey := y];
      }
      TypedInAll(table, leafs, m, ks);
    }

    // One turn of the loop of `_xlateList`. An entry that fails half-way leaves nothing behind.
    method XlateEntry(table: string, l: ListModel, pkey: string, v: Cfg) returns (row: Row, ok: bool)
      requires IsOrder(ord) && In(table) && !IsType1(l)
      modifies this
      ensures elementPath == old(elementPath)
      ensures XlateRow(ord, table, l, pkey, v) == if ok then Ok(row) else Err
    {
      row := Row(map[], None);
      elementPath := elementPath + [pkey];
      var keyDict;
      keyDict, ok := ExtractKeyOf(pkey, l.keys);
      var items := Items(v);
      if ok && items.Ok? {
        var filled;
        filled, ok := FillFields(table, l.leafs, items.value, keyDict);
        row := Row(filled, None);
      } else {
        ok := false;
      }
      elementPath := elementPath[..|elementPath| - 1];
    }

    // One turn of the loop of `_xlateType1MapList`.
    method XlateType1Entry(table: string, l: ListModel, pkey: string, v: Cfg) returns (row: Row, ok: bool)
      requires IsOrder(ord) && IsType1(l)
      ensures XlateRow(ord, table, l, pkey, v) == if ok then Ok(row) else Err
    {
      row := Row(map[], None);
      var keyDict;
      keyDict, ok := ExtractKeyOf(pkey, l.keys);
      var items := Items(v);
      if !ok || items.Err? || l.inner.None? {
        return row, false;
      }
      var m := items.value;
      var ks := ord(m);
      assert Listing(ord(m), m);
      var pairs: seq<(string, string)> := [];
      for i := 0 to |ks|
        invariant |pairs| == i && ok
        invariant forall j :: 0 <= j < i ==> m[ks[j]].Text? && pairs[j] == (ks[j], m[ks[j]].s)
      {
        assert ks[i] in ks;
        if !m[ks[i]].Text? {
          return row, false;
        }
        pairs := pairs + [(ks[i], m[ks[i]].s)];
      }
      forall k | k in m ensures m[k].Text? {
        var j :| 0 <= j < |ks| && ks[j] == k;
      }
      assert pairs == Pairs(ks, m);
      row := Row(keyDict, Some(pairs));
    }

    method XlateOne(table: string, l: ListModel, pkey: string, v: Cfg) returns (row: Row, ok: bool)
      requires IsOrder(ord) && In(table)
      modifies this
      ensures elementPath == old(elementPath)
      ensures XlateRow(ord, table, l, pkey, v) == if ok then Ok(row) else Err
    {
      if IsType1(l) {
        row, ok := XlateType1Entry(table, l, pkey, v);
      } else {
        row, ok := XlateEntry(table, l, pkey, v);
      }
    }

    // One turn of the loop: the row is appended and the entry deleted, or nothing happens.
    method XlateTurn(table: string, l: ListModel, ks: seq<string>, i: nat, ghost yang0: seq<Row>, yang: seq<Row>,
                     config0: map<string, Cfg>, config: map<string, Cfg>)
      returns (yang': seq<Row>, config': map<string, Cfg>)
      requires IsOrder(ord) && In(table) && i < |ks| && ks[i] in config0 && forall k :: k in ks[..i] ==> k in config0
      requires yang == yang0 + RowsOf(ord, table, l, ks[..i], config0) && config == LeftOf(table, l, ks[..i], config0)
      modifies this
      ensures elementPath == old(elementPath) && forall k :: k in ks[..i + 1] ==> k in config0
      ensures yang' == yang0 + RowsOf(ord, table, l, ks[..i + 1], config0)
              && config' == LeftOf(table, l, ks[..i + 1], config0)
    {
      LeftOfMore(table, l, ks, i, config0);
      RowsOfMore(ord, table, l, ks, i, config0);
      yang', config' := yang, config;
      var row, ok := XlateOne(table, l, ks[i], config0[ks[i]]);
      if ok {
        yang' := yang' + [row];
        config' := config' - {ks[i]};
      }
    }

    // `_xlateList`: rows are appended for the entries that match, which are deleted from the config.
    method XlateList(table: string, l: ListModel, yang: seq<Row>, config: map<string, Cfg>)
      returns (yang': seq<Row>, config': map<string, Cfg>)
      requires IsOrder(ord) && In(table)
      modifies this
      ensures elementPath == old(elementPath)
      ensures yang' == yang + ListRows(ord, table, l, config)
      ensures config' == Left(table, l, config)
    {
      var primaryKeys := ord(config);
      assert Listing(ord(config), config);
      yang', config' := yang, config;
      for i := 0 to |primaryKeys|
        invariant elementPath == old(elementPath)
        invariant forall k :: k in primaryKeys[..i] ==> k in config
        invariant yang' == yang + RowsOf(ord, table, l, primaryKeys[..i], config)
        invariant config' == LeftOf(table, l, primaryKeys[..i], config)
      {
        assert primaryKeys[i] in primaryKeys;
        yang', config' := XlateTurn(table, l, primaryKeys, i, yang, yang', config, config');
      }
      assert primaryKeys[..|primaryKeys|] == primaryKeys;
      LeftOfAll(table, l, primaryKeys, config);
    }

    // The lists of a container, each on what the ones before it left.
    method XlateLists(table: string, ls: seq<ListModel>, config: map<string, Cfg>)
      returns (yang: map<string, Node>, configC: map<string, Cfg>)
      requires IsOrder(ord) && In(table)
      modifies this
      ensures elementPath == old(elementPath)
      ensures yang == ListNodes(ord, table, ls, config) && configC == ListRest(table, ls, config)
    {
      yang, configC := map[], config;
      var i := 0;
      while i < |ls|
        invariant 0 <= i <= |ls| && elementPath == old(elementPath)
        invariant ListNodes(ord, table, ls, config) == yang + ListNodes(ord, table, ls[i..], configC)
        invariant ListRest(table, ls, config) == ListRest(table, ls[i..], configC)
      {
        ListsStep(ord, table, ls, i, configC, yang);
        var rows;
        rows, configC := XlateList(table, ls[i], [], configC);
        if rows != [] {
          yang := yang[ls[i].name := Rows(rows)];
        }
        i := i + 1;
      }
      assert yang + map[] == yang;
    }

    // `_xlateContainerInContainer`.
    method XlateContainerInContainer(c: Container, i: nat, table: string, configC: map<string, Cfg>)
      returns (n: Option<Node>, ok: bool)
      requires IsOrder(ord) && In(table) && i < |c.inner|
      modifies this
      ensures InnerNode(ord, c, table, i, configC) == if ok then Ok(n) else Err
      ensures ok ==> elementPath == old(elementPath)
      decreases c, 0
    {
      var d := c.inner[i];
      if d.name !in configC || EmptyCfg(configC[d.name]) {
        return Some(Inside(map[])), true;
      }
      if !configC[d.name].Dict? {
        return None, false;
      }
      elementPath := elementPath + [d.name];
      var inside;
      inside, ok := XlateTable(d, table, configC[d.name].fields);
      if !ok {
        return None, false;
      }
      elementPath := elementPath[..|elementPath| - 1];
      n := if inside == map[] then None else Some(Inside(inside));
    }

    // The inner containers, each deleted from the config when it is done.
    method XlateInners(c: Container, table: string, config: map<string, Cfg>)
      returns (yang: map<string, Node>, configC: map<string, Cfg>, ok: bool)
      requires IsOrder(ord) && In(table)
      modifies this
      ensures InnerNodes(ord, c, table, 0, config) == if ok then Ok(yang) else Err
      ensures ok ==> elementPath == old(elementPath) && configC == InnerRest(c, 0, config)
      decreases c, 1
    {
      yang, configC, ok := map[], config, true;
      ghost var all := InnerNodes(ord, c, table, 0, config);
      AfterNone(all);
      var i := 0;
      while i < |c.inner|
        invariant 0 <= i <= |c.inner| && ok && elementPath == old(elementPath)
        invariant all == After(yang, InnerNodes(ord, c, table, i, configC))
        invariant InnerRest(c, 0, config) == InnerRest(c, i, configC)
      {
        var n;
        n, ok := XlateContainerInContainer(c, i, table, configC);
        AfterStep(ord, c, table, i, configC, yang);
        if !ok {
          return;
        }
        yang := yang + Opt(c.inner[i].name, n);
        configC := configC - {c.inner[i].name};
        i := i + 1;
      }
      assert yang + map[] == yang;
    }

    // One leaf; on failure the path keeps its name.
    method XlateLeaf(table: string, leafs: map<string, Leaf>, vKey: string, v: Cfg) returns (y: Yang, ok: bool)
      requires In(table)
      modifies this
      ensures ok <==> CanType(table, leafs, vKey, v)
      ensures ok ==> y == Typed(Separator(table, vKey), leafs[vKey], v).value && elementPath == old(elementPath)
    {
      elementPath := elementPath + [vKey];
      y, ok := FindYangTypedValue(v, leafs, table, vKey);
      if ok {
        elementPath := elementPath[..|elementPath| - 1];
      }
    }

    // The leaves of a container; `ok` is false when one does not convert or a key is left over.
    method XlateLeaves(table: string, leafs: map<string, Leaf>, config: map<string, Cfg>)
      returns (yang: map<string, Node>, ok: bool)
      requires IsOrder(ord) && In(table)
      modifies this
      ensures ok <==> AllTyped(table, leafs, config)
      ensures ok ==> elementPath == old(elementPath) && yang == ValueNodes(TypedFields(table, leafs, config))
    {
      var configC := config;
      var ks := ord(config);
      assert Listing(ord(config), config);
      yang, ok := map[], true;
      for i := 0 to |ks|
        invariant elementPath == old(elementPath) && ok
        invariant forall k :: k in ks[..i] && k in leafs ==> k in config && CanType(table, leafs, k, config[k])
        invariant yang == LeavesIn(table, leafs, config, ks[..i])
        invariant configC == LeavesLeft(leafs, config, ks[..i])
      {
        var vKey := ks[i];
        assert vKey in ks;
        if vKey in leafs {
          var y;
          y, ok := XlateLeaf(table, leafs, vKey, config[vKey]);
          if !ok {
            return;
          }
          LeavesMore(table, leafs, config, ks, i);
          yang := yang[vKey := Value(y)];
          configC := configC - {vKey};
        } else {
          LeavesSame(table, leafs, config, ks, i);
        }
      }
      assert ks[..|ks|] == ks;
      ok := configC == map[];
      LeavesAll(table, leafs, config, ks, configC);
    }

    // `_xlateContainer`: lists, inner containers, leaves, and nothing left over.
    method XlateTable(c: Container, table: string, config: map<string, Cfg>) returns (yang: map<string, Node>, ok: bool)
      requires IsOrder(ord) && In(table)
      modifies this
      ensures XlateContainer(ord, c, table, config) == if ok then Ok(yang) else Err
      ensures ok ==> elementPath == old(elementPath)
      decreases c, 2
    {
      var rest;
      yang, rest := XlateLists(table, Active(c), config);
      ok := true;
      if rest != map[] {
        var inner, last;
        inner, last, ok := XlateInners(c, table, rest);
        if !ok {
          return;
        }
        var leaves;
        leaves, ok := XlateLeaves(table, c.leafs, last);
        yang := yang + inner + leaves;
      }
    }

    // ----- back -----

    // `_createKey`.
    method CreateKeyOf(entry: map<string, Yang>, keys: seq<string>) returns (keyV: string, ok: bool)
      ensures CreateKey(entry, keys) == if ok then Ok(keyV) else Err
    {
      keyV, ok := "", true;
      for i := 0 to |keys|
        invariant ok && Barred(entry, keys[..i]) == Ok(keyV)
      {
        var part := KeyPart(entry, keys[i]);
        assert keys[..i + 1][..i] == keys[..i];
        if part.Err? {
          BarredErr(entry, keys, i + 1);
          return "", false;
        }
        keyV := keyV + part.value + [BAR];
      }
      assert keys[..|keys|] == keys;
      keyV := StripBars(keyV);
    }

    // `_revFindYangTypedValue`: the field is the last element of the path.
    method RevFindYangTypedValue(value: Yang, leafs: map<string, Leaf>, ghost table: string, ghost field: string)
      returns (v: Cfg, ok: bool)
      requires In(table) && elementPath[|elementPath| - 1] == field
      ensures ok <==> CanUntype(table, leafs, field, value)
      ensures ok ==> v == Untyped(Separator(table, field), leafs[field], value).value
    {
      var key := elementPath[|elementPath| - 1];
      if key !in leafs {
        return Text(""), false;
      }
      var sep := Separator(elementPath[0], key);
      if leafs[key].isList {
        match value {
          case Many(vs) =>
            var shown := ShowEach(vs);
            return if sep.Some? then Text(Join(shown, sep.value)) else Texts(shown), true;
          case One(T(s)) =>
            return Texts(Chars(s)), true;
          case One(N(_)) =>
            return Text(""), false;
        }
      } else if leafs[key].kind == BOOLEAN {
        return Text(if Truthy(value) then "true" else "false"), true;
      } else if value.One? {
        return Text(ShowScalar(value.v)), true;
      } else {
        return Text(""), false;
      }
    }

    // `_revYangConvert` of every element.
    method ShowEach(vs: seq<Scalar>) returns (shown: seq<string>)
      ensures shown == ShowAll(vs)
    {
      shown := [];
      for i := 0 to |vs|
        invariant |shown| == i && forall j :: 0 <= j < i ==> shown[j] == ShowScalar(vs[j])
      {
        shown := shown + [ShowScalar(vs[i])];
      }
    }

    method RevField(table: string, leafs: map<string, Leaf>, key: string, y: Yang) returns (v: Cfg, ok: bool)
      requires In(table)
      modifies this
      ensures ok <==> CanUntype(table, leafs, key, y)
      ensures ok ==> v == Untyped(Separator(table, key), leafs[key], y).value && elementPath == old(elementPath)
    {
      elementPath := elementPath + [key];
      v, ok := RevFindYangTypedValue(y, leafs, table, key);
      if ok {
        elementPath := elementPath[..|elementPath| - 1];
      }
    }

    // The fields of an entry or a container, in any order.
    method RevFields(table: string, leafs: map<string, Leaf>, fields: map<string, Yang>)
      returns (config: map<string, Cfg>, ok: bool)
      requires In(table)
      modifies this
      ensures ok <==> AllUntyped(table, leafs, fields)
      ensures ok ==> config == UntypedFields(table, leafs, fields) && elementPath == old(elementPath)
    {
      config, ok := map[], true;
      var todo := fields.Keys;
      while todo != {}
        invariant todo <= fields.Keys && elementPath == old(elementPath) && ok
        invariant UntypedBut(table, leafs, fields, todo, config)
        decreases |todo|
      {
        var key :| key in todo;
        var v;
        v, ok := RevField(table, leafs, key, fields[key]);
        if !ok {
          return;
        }
        config := config[key := v];
        todo := todo - {key};
      }
      UntypedDone(table, leafs, fields, config);
    }

    // One turn of the loop of `_revXlateList` or `_revXlateType1MapList`.
    method RevEntry(table: string, l: ListModel, row: Row) returns (pkey: string, v: Cfg, ok: bool)
      requires In(table)
      modifies this
      ensures RevRow(table, l, row) == if ok then Ok((pkey, v)) else Err
      ensures ok ==> elementPath == old(elementPath)
    {
      v := Dict(map[]);
      pkey, ok := CreateKeyOf(row.fields, l.keys);
      if !ok {
        return;
      }
      if IsType1(l) {
        ok := l.inner.Some? && row.pairs.Some?;
        if ok {
          var m := RevPairs(row.pairs.value);
          v := Dict(m);
        }
      } else {
        if row.pairs.Some? {
          ok := false;
          return;
        }
        elementPath := elementPath + [pkey];
        var m;
        m, ok := RevFields(table, l.leafs, WithoutKeys(row.fields, l.keys));
        if ok {
          v := Dict(m);
          elementPath := elementPath[..|elementPath| - 1];
        }
      }
    }

    method RevPairs(ps: seq<(string, string)>) returns (m: map<string, Cfg>)
      ensures m == FromPairs(ps)
    {
      m := map[];
      for i := 0 to |ps|
        invariant m == FromPairs(ps[..i])
      {
        assert ps[..i + 1][..i] == ps[..i];
        m := m[ps[i].0 := Text(ps[i].1)];
      }
      assert ps[..|ps|] == ps;
    }

    // `_revXlateList`.
    method RevXlateList(table: string, l: ListModel, rows: seq<Row>) returns (config: map<string, Cfg>, ok: bool)
      requires In(table)
      modifies this
      ensures RevRows(table, l, rows) == if ok then Ok(config) else Err
      ensures ok ==> elementPath == old(elementPath)
    {
      config, ok := map[], true;
      for i := 0 to |rows|
        invariant ok && elementPath == old(elementPath) && RevRows(table, l, rows[..i]) == Ok(config)
      {
        var pkey, v;
        pkey, v, ok := RevEntry(table, l, rows[i]);
        assert rows[..i + 1][..i] == rows[..i];
        if !ok {
          RevRowsErr(table, l, rows, i + 1);
          return;
        }
        config := config[pkey := v];
      }
      assert rows[..|rows|] == rows;
    }

    // The lists of a container, written one after another.
    method RevListsOf(table: string, ls: seq<ListModel>, nodes: map<string, Node>)
      returns (config: map<string, Cfg>, ok: bool)
      requires In(table)
      modifies this
      ensures RevLists(table, ls, nodes) == if ok then Ok(config) else Err
      ensures ok ==> elementPath == old(elementPath)
      decreases |ls|
    {
      config, ok := map[], true;
      if ls == [] {
        return;
      }
      var l := ls[0];
      if l.name in nodes && !Empty(nodes[l.name]) {
        if !nodes[l.name].Rows? {
          return map[], false;
        }
        if NamesList(l.name) {
          config, ok := RevXlateList(table, l, nodes[l.name].rows);
          if !ok {
            return;
          }
        }
      }
      var later;
      later, ok := RevListsOf(table, ls[1..], nodes);
      config := config + later;
    }

    // `_revXlateContainerInContainer`, for the inner containers from i on.
    method RevInners(c: Container, table: string, i: nat, nodes: map<string, Node>)
      returns (config: map<string, Cfg>, ok: bool)
      requires In(table) && i <= |c.inner|
      modifies this
      ensures InnersBack(c, table, i, nodes) == if ok then Ok(config) else Err
      ensures ok ==> elementPath == old(elementPath)
      decreases c, 1, |c.inner| - i
    {
      config, ok := map[], true;
      if i == |c.inner| {
        return;
      }
      var d := c.inner[i];
      if d.name in nodes && !Empty(nodes[d.name]) {
        if !nodes[d.name].Inside? {
          return map[], false;
        }
        elementPath := elementPath + [d.name];
        var m;
        m, ok := RevTable(d, table, nodes[d.name].nodes);
        if !ok {
          return;
        }
        elementPath := elementPath[..|elementPath| - 1];
        config := map[d.name := Dict(m)];
      }
      var later;
      later, ok := RevInners(c, table, i + 1, nodes);
      config := config + later;
    }

    // `_revXlateContainer`.
    method RevTable(c: Container, table: string, nodes: map<string, Node>) returns (config: map<string, Cfg>, ok: bool)
      requires In(table)
      modifies this
      ensures RevContainer(c, table, nodes) == if ok then Ok(config) else Err
      ensures ok ==> elementPath == old(elementPath)
      decreases c, 2, 0
    {
      config, ok := RevListsOf(table, AllLists(c), nodes);
      if !ok {
        return;
      }
      var inner, leaves;
      inner, ok := RevInners(c, table, 0, nodes);
      if !ok {
        return;
      }
      if k :| k in nodes && k in c.leafs && !nodes[k].Value? {
        return config, false;
      }
      leaves, ok := RevFields(table, c.leafs, LeafValues(c.leafs, nodes));
      config := config + inner + leaves;
    }
  }

  lemma {:induction false} ConvertMore(kind: Kind, ss: seq<string>, s: string, vs: seq<Scalar>, v: Scalar)
    requires ConvertAll(kind, ss) == Ok(vs) && Convert(kind, s) == Ok(v)
    ensures ConvertAll(kind, ss + [s]) == Ok(vs + [v])
  {
    if ss == [] {
      assert (ss + [s])[1..] == [] && (ss + [s])[0] == s;
      assert ConvertAll(kind, (ss + [s])[1..]) == Ok([]);
      assert vs == [] && [v] + [] == vs + [v];
    } else {
      assert (ss + [s])[1..] == ss[1..] + [s] && (ss + [s])[0] == ss[0];
      ConvertMore(kind, ss[1..], s, vs[1..], v);
      assert vs + [v] == [vs[0]] + (vs[1..] + [v]);
    }
  }

  lemma {:induction false} ConvertPrefixErr(kind: Kind, ss: seq<string>, i: nat)
    requires i < |ss| && Convert(kind, ss[i]).Err?
    ensures ConvertAll(kind, ss).Err?
    decreases i
  {
    if i != 0 {
      ConvertPrefixErr(kind, ss[1..], i - 1);
    }
  }

  // ----- what loops have done half-way -----

  predicate AllTypedIn(table: string, leafs: map<string, Leaf>, m: map<string, Cfg>, ks: seq<string>) {
    forall k :: k in ks && k in m ==> CanType(table, leafs, k, m[k])
  }

  function TypedIn(table: string, leafs: map<string, Leaf>, m: map<string, Cfg>, ks: seq<string>): map<string, Yang>
    requires AllTypedIn(table, leafs, m, ks)
  {
    map k | k in ks && k in m :: (assert CanType(table, leafs, k, m[k]); Typed(Separator(table, k), leafs[k],
                                                                               m[k]).value)
  }

  lemma TypedInMore(table: string, leafs: map<string, Leaf>, m: map<string, Cfg>, ks: seq<string>, i: nat,
                    keyDict: map<string, Yang>)
    requires i < |ks| && ks[i] in m && AllTypedIn(table, leafs, m, ks[..i]) && CanType(table, leafs, ks[i], m[ks[i]])
    ensures AllTypedIn(table, leafs, m, ks[..i + 1])
    ensures keyDict + TypedIn(table, leafs, m, ks[..i + 1])
         == (keyDict + TypedIn(table, leafs, m, ks[..i]))[ks[i] := Typed(Separator(table, ks[i]), leafs[ks[i]],
                                                                         m[ks[i]]).value]
  {
    assert ks[..i + 1] == ks[..i] + [ks[i]];
  }

  lemma TypedInAll(table: string, leafs: map<string, Leaf>, m: map<string, Cfg>, ks: seq<string>)
    requires Listing(ks, m) && AllTypedIn(table, leafs, m, ks[..|ks|])
    ensures AllTyped(table, leafs, m) && TypedIn(table, leafs, m, ks[..|ks|]) == TypedFields(table, leafs, m)
  {
    assert ks[..|ks|] == ks;
  }

  // What is left of the config when the names have been tried.
  function LeftOf(table: string, l: ListModel, ks: seq<string>, config: map<string, Cfg>): map<string, Cfg> {
    map k | k in config && !(k in ks && Accepts(table, l, k, config[k])) :: config[k]
  }

  lemma LeftOfMore(table: string, l: ListModel, ks: seq<string>, i: nat, config: map<string, Cfg>)
    requires i < |ks| && ks[i] in config
    ensures var left := LeftOf(table, l, ks[..i], config);
            LeftOf(table, l, ks[..i + 1], config) == if Accepts(table, l, ks[i], config[ks[i]]) then left - {ks[i]}
            else left
  {
    assert ks[..i + 1] == ks[..i] + [ks[i]];
  }

  lemma LeftOfAll(table: string, l: ListModel, ks: seq<string>, config: map<string, Cfg>)
    requires Listing(ks, config)
    ensures LeftOf(table, l, ks, config) == Left(table, l, config)
  {
  }

  lemma RowsOfMore(ord: Order, table: string, l: ListModel, ks: seq<string>, i: nat, config: map<string, Cfg>)
    requires IsOrder(ord) && i < |ks| && ks[i] in config && forall k :: k in ks[..i] ==> k in config
    ensures forall k :: k in ks[..i + 1] ==> k in config
    ensures RowsOf(ord, table, l, ks[..i + 1], config)
         == RowsOf(ord, table, l, ks[..i], config)
            + if Accepts(table, l, ks[i], config[ks[i]]) then [XlateRow(ord, table, l, ks[i], config[ks[i]]).value]
            else []
  {
    assert ks[..i + 1][..i] == ks[..i];
    assert ks[..i + 1] == ks[..i] + [ks[i]];
  }

  lemma ListsStep(ord: Order, table: string, ls: seq<ListModel>, i: nat, config: map<string, Cfg>, done: map<string,
                                                                                                             Node>)
    requires IsOrder(ord) && i < |ls|
    ensures var rows := [] + ListRows(ord, table, ls[i], config);
            done + ListNodes(ord, table, ls[i..], config)
            == (if rows == [] then done else done[ls[i].name := Rows(rows)])
            + ListNodes(ord, table, ls[i + 1..], Left(table, ls[i], config))
    ensures ListRest(table, ls[i..], config) == ListRest(table, ls[i + 1..], Left(table, ls[i], config))
  {
    var rows := ListRows(ord, table, ls[i], config);
    assert [] + rows == rows;
    assert ls[i..][1..] == ls[i + 1..] && ls[i..][0] == ls[i];
    JoinNodes(done, ls[i].name, rows, ListNodes(ord, table, ls[i + 1..], Left(table, ls[i], config)));
  }

  lemma JoinNodes(done: map<string, Node>, name: string, rows: seq<Row>, later: map<string, Node>)
    ensures done + ((if rows == [] then map[] else map[name := Rows(rows)]) + later)
         == (if rows == [] then done else done[name := Rows(rows)]) + later
  {
  }

  function After(done: map<string, Node>, r: Result<map<string, Node>>): Result<map<string, Node>> {
    match r
    case Err => Err
    case Ok(nodes) => Ok(done + nodes)
  }

  lemma AfterNone(r: Result<map<string, Node>>)
    ensures After(map[], r) == r
  {
    assert r.Ok? ==> map[] + r.value == r.value;
  }

  lemma AfterStep(ord: Order, c: Container, table: string, i: nat, config: map<string, Cfg>, done: map<string, Node>)
    requires IsOrder(ord) && i < |c.inner|
    ensures var n := InnerNode(ord, c, table, i, config);
            After(done, InnerNodes(ord, c, table, i, config))
            == if n.Err? then Err else After(done + Opt(c.inner[i].name, n.value),
                                             InnerNodes(ord, c, table, i + 1, config - {c.inner[i].name}))
  {
    var n, later := InnerNode(ord, c, table, i, config), InnerNodes(ord, c, table, i + 1, config - {c.inner[i].name});
    if n.Ok? && later.Ok? {
      assert done + (Opt(c.inner[i].name, n.value) + later.value)
          == (done + Opt(c.inner[i].name, n.value)) + later.value;
    }
  }

  // The leaves among the names, typed.
  function LeavesIn(table: string, leafs: map<string, Leaf>, m: map<string, Cfg>, ks: seq<string>): map<string, Node>
    requires forall k :: k in ks && k in leafs ==> k in m && CanType(table, leafs, k, m[k])
  {
    map k | k in ks && k in leafs :: (assert CanType(table, leafs, k,
                                                     m[k]); Value(Typed(Separator(table, k), leafs[k], m[k]).value))
  }

  // What is left of the config when the names have been looked at.
  function LeavesLeft(leafs: map<string, Leaf>, m: map<string, Cfg>, ks: seq<string>): map<string, Cfg> {
    map k | k in m && !(k in ks && k in leafs) :: m[k]
  }

  lemma LeavesMore(table: string, leafs: map<string, Leaf>, m: map<string, Cfg>, ks: seq<string>, i: nat)
    requires i < |ks| && ks[i] in leafs && ks[i] in m && CanType(table, leafs, ks[i], m[ks[i]])
    requires forall k :: k in ks[..i] && k in leafs ==> k in m && CanType(table, leafs, k, m[k])
    ensures forall k :: k in ks[..i + 1] && k in leafs ==> k in m && CanType(table, leafs, k, m[k])
    ensures LeavesIn(table, leafs, m, ks[..i + 1])
         == LeavesIn(table, leafs, m, ks[..i])[ks[i] := Value(Typed(Separator(table, ks[i]), leafs[ks[i]],
                                                                    m[ks[i]]).value)]
    ensures LeavesLeft(leafs, m, ks[..i + 1]) == LeavesLeft(leafs, m, ks[..i]) - {ks[i]}
  {
    assert ks[..i + 1] == ks[..i] + [ks[i]];
  }

  lemma LeavesSame(table: string, leafs: map<string, Leaf>, m: map<string, Cfg>, ks: seq<string>, i: nat)
    requires i < |ks| && ks[i] !in leafs
    requires forall k :: k in ks[..i] && k in leafs ==> k in m && CanType(table, leafs, k, m[k])
    ensures forall k :: k in ks[..i + 1] && k in leafs ==> k in m && CanType(table, leafs, k, m[k])
    ensures LeavesIn(table, leafs, m, ks[..i + 1]) == LeavesIn(table, leafs, m, ks[..i])
    ensures LeavesLeft(leafs, m, ks[..i + 1]) == LeavesLeft(leafs, m, ks[..i])
  {
    assert ks[..i + 1] == ks[..i] + [ks[i]];
  }

  lemma LeavesAll(table: string, leafs: map<string, Leaf>, m: map<string, Cfg>, ks: seq<string>, left: map<string, Cfg>)
    requires Listing(ks, m) && forall k :: k in ks && k in leafs ==> k in m && CanType(table, leafs, k, m[k])
    requires left == LeavesLeft(leafs, m, ks)
    ensures left == map[] <==> AllTyped(table, leafs, m)
    ensures left == map[] ==> LeavesIn(table, leafs, m, ks) == ValueNodes(TypedFields(table, leafs, m))
  {
    forall k | k in m && k !in leafs ensures k in left {
    }
    if AllTyped(table, leafs, m) {
      forall k | k in m ensures k in leafs {
        assert CanType(table, leafs, k, m[k]);
      }
    }
  }

  lemma {:induction false} BarredErr(entry: map<string, Yang>, keys: seq<string>, i: nat)
    requires i <= |keys| && Barred(entry, keys[..i]).Err?
    ensures Barred(entry, keys).Err?
    decreases |keys| - i
  {
    if i < |keys| {
      assert keys[..i + 1][..i] == keys[..i];
      BarredErr(entry, keys, i + 1);
    } else {
      assert keys[..i] == keys;
    }
  }

  lemma {:induction false} RevRowsErr(table: string, l: ListModel, rows: seq<Row>, i: nat)
    requires i <= |rows| && RevRows(table, l, rows[..i]).Err?
    ensures RevRows(table, l, rows).Err?
    decreases |rows| - i
  {
    if i < |rows| {
      assert rows[..i + 1][..i] == rows[..i];
      RevRowsErr(table, l, rows, i + 1);
    } else {
      assert rows[..i] == rows;
    }
  }

  // The config holds what the fields give, but for those still to do.
  ghost predicate UntypedBut(table: string, leafs: map<string, Leaf>, fields: map<string, Yang>, todo: set<string>,
                             config: map<string, Cfg>) {
    && (forall k :: k in config <==> k in fields && k !in todo)
    && forall k :: k in config && k in fields ==>
                     CanUntype(table, leafs, k, fields[k])
                     && config[k] == Untyped(Separator(table, k), leafs[k], fields[k]).value
  }

  lemma UntypedDone(table: string, leafs: map<string, Leaf>, fields: map<string, Yang>, config: map<string, Cfg>)
    requires UntypedBut(table, leafs, fields, {}, config)
    ensures AllUntyped(table, leafs, fields) && config == UntypedFields(table, leafs, fields)
  {
  }
}
