/**
 Field values and list entries of the ConfigDB to YANG translation, forwards and back
 (src/sonic-yang-mgmt/sonic_yang_ext.py, lines 11-34, 253-266, 399-433, 488-595 and 741-902).
 */
module YangRows {
  import opened Wrappers
  import opened TextOps

  // ConfigDB: texts, lists of texts, and dicts.
  datatype Cfg = Text(s: string) | Texts(ss: seq<string>) | Dict(fields: map<string, Cfg>)

  // YANG: scalars and lists of scalars.
  datatype Scalar = T(s: string) | N(n: int)
  datatype Yang = One(v: Scalar) | Many(vs: seq<Scalar>)

  // A leaf of the schema, with the part of its type that the translator looks at.
  datatype Kind = UINT | BOOLEAN | OTHER
  datatype Leaf = Leaf(kind: Kind, isList: bool)

  // The leaf-lists that are texts with a separator in ConfigDB, by table and field.
  const separators: map<(string, string), char> := map[
                                                     ("MIRROR_SESSION", "src_ip") := ',',
                                                     ("NTP", "src_intf") := ';',
                                                     ("BGP_ALLOWED_PREFIXES", "prefixes_v4") := ',',
                                                     ("BGP_ALLOWED_PREFIXES", "prefixes_v6") := ',',
                                                     ("BUFFER_PORT_EGRESS_PROFILE_LIST", "profile_list") := ',',
                                                     ("BUFFER_PORT_INGRESS_PROFILE_LIST", "profile_list") := ',',
                                                     ("PORT", "adv_speeds") := ',',
                                                     ("PORT", "adv_interface_types") := ','
                                                   ]

  function Separator(table: string, field: string): Option<char> {
    if (table, field) in separators then Some(separators[(table, field)]) else None
  }

  // ----- values -----

  // `_yangConvert`.
  function Convert(kind: Kind, s: string): Result<Scalar> {
    if kind != UINT then Ok(T(s))
    else
      match ParseInt(s)
      case None => Err
      case Some(n) => Ok(N(n))
  }

  function ConvertAll(kind: Kind, ss: seq<string>): Result<seq<Scalar>> {
    if ss == [] then Ok([])
    else
      match (Convert(kind, ss[0]), ConvertAll(kind, ss[1..]))
      case (Ok(v), Ok(vs)) => Ok([v] + vs)
      case _ => Err
  }

  function StripAll(ss: seq<string>): seq<string> {
    seq(|ss|, i requires 0 <= i < |ss| => Strip(ss[i]))
  }

  // Iterating over a text gives its characters.
  function Chars(s: string): seq<string> {
    seq(|s|, i requires 0 <= i < |s| => [s[i]])
  }

  // The elements of a leaf-list value.
  function Pieces(sep: Option<char>, v: Cfg): Option<seq<string>> {
    match v
    case Text(s) => Some(if sep.Some? then StripAll(Split(s, sep.value)) else Chars(s))
    case Texts(ss) => Some(ss)
    case Dict(_) => None
  }

  // `_findYangTypedValue`.
  function Typed(sep: Option<char>, leaf: Leaf, v: Cfg): Result<Yang> {
    if leaf.isList then
      match Pieces(sep, v)
      case None => Err
      case Some(ss) =>
        match ConvertAll(leaf.kind, ss)
        case Err => Err
        case Ok(vs) => Ok(Many(vs))
    else if v.Text? then
      match Convert(leaf.kind, v.s)
      case Err => Err
      case Ok(x) => Ok(One(x))
    else Err
  }

  function ShowScalar(x: Scalar): string {
    match x
    case T(s) => s
    case N(n) => Show(n)
  }

  function ShowAll(xs: seq<Scalar>): seq<string> {
    seq(|xs|, i requires 0 <= i < |xs| => ShowScalar(xs[i]))
  }

  predicate Truthy(y: Yang) {
    match y
    case One(T(s)) => s != ""
    case One(N(n)) => n != 0
    case Many(vs) => vs != []
  }

  // `_revFindYangTypedValue`.
  function Untyped(sep: Option<char>, leaf: Leaf, y: Yang): Result<Cfg> {
    if leaf.isList then
      match y
      case Many(vs) => Ok(if sep.Some? then Text(Join(ShowAll(vs), sep.value)) else Texts(ShowAll(vs)))
      case One(T(s)) => Ok(Texts(Chars(s)))
      case One(N(_)) => Err
    else if leaf.kind == BOOLEAN then Ok(Text(if Truthy(y) then "true" else "false"))
    else
      match y
      case One(x) => Ok(Text(ShowScalar(x)))
      case Many(_) => Err
  }

  // Texts that keep their form through conversion.
  predicate Steady(kind: Kind, s: string) {
    kind == UINT ==> Canonical(s)
  }

  predicate AllSteady(kind: Kind, ss: seq<string>) {
    forall i :: 0 <= i < |ss| ==> Steady(kind, ss[i])
  }

  predicate AllStripped(ss: seq<string>) {
    forall i :: 0 <= i < |ss| ==> Stripped(ss[i])
  }

  // The values that the two conversions together keep.
  predicate Faithful(sep: Option<char>, leaf: Leaf, v: Cfg) {
    if leaf.isList then
      if sep.Some? then v.Text? && AllStripped(Split(v.s, sep.value)) && AllSteady(leaf.kind, Split(v.s, sep.value))
      else v.Texts? && AllSteady(leaf.kind, v.ss)
    else if leaf.kind == BOOLEAN then v == Text("true")
    else v.Text? && Steady(leaf.kind, v.s)
  }

  lemma ConvertShow(kind: Kind, s: string)
    requires Convert(kind, s).Ok?
    ensures var t := ShowScalar(Convert(kind, s).value); if Steady(kind, s) then t == s else |t| < |s|
  {
    if kind == UINT {
      ParseShow(s);
    }
  }

  lemma {:induction false} ConvertAllShow(kind: Kind, ss: seq<string>)
    requires ConvertAll(kind, ss).Ok?
    ensures var xs := ConvertAll(kind, ss).value;
            |xs| == |ss| && forall i :: 0 <= i < |ss| ==> Convert(kind, ss[i]) == Ok(xs[i])
  {
    if ss != [] {
      ConvertAllShow(kind, ss[1..]);
      var xs := ConvertAll(kind, ss[1..]).value;
      forall i | 0 <= i < |ss| ensures Convert(kind, ss[i]) == Ok(ConvertAll(kind, ss).value[i]) {
        assert 0 < i ==> ss[i] == ss[1..][i - 1];
      }
    }
  }

  // What the texts of a list become, there and back.
  lemma ListShow(kind: Kind, ss: seq<string>, xs: seq<Scalar>)
    requires ConvertAll(kind, ss) == Ok(xs)
    ensures |ShowAll(xs)| == |ss|
    ensures forall i :: 0 <= i < |ss| ==> if Steady(kind, ss[i]) then ShowAll(xs)[i] == ss[i]
                          else |ShowAll(xs)[i]| < |ss[i]|
    ensures ShowAll(xs) == ss <==> AllSteady(kind, ss)
  {
    ConvertAllShow(kind, ss);
    forall i | 0 <= i < |ss| ensures if Steady(kind, ss[i]) then ShowAll(xs)[i] == ss[i]
                                     else |ShowAll(xs)[i]| < |ss[i]| {
      assert Convert(kind, ss[i]) == Ok(xs[i]);
      ConvertShow(kind, ss[i]);
    }
  }

  // A text of separated elements comes back exactly when each is stripped and keeps its form.
  lemma SeparatedShow(kind: Kind, s: string, sep: char, xs: seq<Scalar>)
    requires ConvertAll(kind, StripAll(Split(s, sep))) == Ok(xs)
    ensures Join(ShowAll(xs), sep) == s <==> AllStripped(Split(s, sep)) && AllSteady(kind, Split(s, sep))
  {
    var qs := Split(s, sep);
    var ps := StripAll(qs);
    var rs := ShowAll(xs);
    ListShow(kind, ps, xs);
    JoinSplit(s, sep);
    forall i | 0 <= i < |qs|
      ensures if Stripped(qs[i]) && Steady(kind, qs[i]) then rs[i] == qs[i] else |rs[i]| < |qs[i]|
    {
      StripExact(qs[i]);
      assert ps[i] == Strip(qs[i]);
    }
    JoinShrinks(qs, rs, sep);
  }

  // ----- what values become -----

  // A plain leaf of an integer type takes exactly the texts of integers, and holds the number; any
  // other takes every text as it is.
  lemma TypedPlain(sep: Option<char>, leaf: Leaf, s: string)
    requires !leaf.isList
    ensures leaf.kind == UINT ==> (Typed(sep, leaf, Text(s)).Ok? <==> ParseInt(s).Some?)
    ensures leaf.kind == UINT && ParseInt(s).Some? ==> Typed(sep, leaf, Text(s)) == Ok(One(N(ParseInt(s).value)))
    ensures leaf.kind != UINT ==> Typed(sep, leaf, Text(s)) == Ok(One(T(s)))
  {
  }

  // The elements of a leaf-list value: those of a list, the stripped parts of a text that has a
  // separator, and the characters of another text.
  ghost predicate ElementsOf(sep: Option<char>, v: Cfg, ss: seq<string>) {
    match v
    case Texts(xs) => ss == xs
    case Text(s) =>
      if sep.Some? then
        && |ss| == |Split(s, sep.value)| && forall i :: 0 <= i < |ss| ==> ss[i] == Strip(Split(s, sep.value)[i])
      else |ss| == |s| && forall i :: 0 <= i < |ss| ==> ss[i] == [s[i]]
    case Dict(_) => false
  }

  // A leaf-list holds its elements in order, each as a plain leaf would.
  lemma TypedList(sep: Option<char>, leaf: Leaf, v: Cfg, ss: seq<string>)
    requires leaf.isList && ElementsOf(sep, v, ss)
    ensures leaf.kind == UINT ==> (Typed(sep, leaf, v).Ok? <==> forall i :: 0 <= i < |ss| ==> ParseInt(ss[i]).Some?)
    ensures leaf.kind != UINT ==> Typed(sep, leaf, v).Ok?
    ensures Typed(sep, leaf, v).Ok? ==>
              var y := Typed(sep, leaf, v).value;
              && y.Many? && |y.vs| == |ss|
              && forall i :: 0 <= i < |ss| ==>
                               if leaf.kind == UINT then ParseInt(ss[i]).Some? && y.vs[i] == N(ParseInt(ss[i]).value)
                               else y.vs[i] == T(ss[i])
  {
    assert Pieces(sep, v).Some? && Pieces(sep, v).value == ss;
    ConvertAllOk(leaf.kind, ss);
    if ConvertAll(leaf.kind, ss).Ok? {
      ConvertAllShow(leaf.kind, ss);
      forall i | 0 <= i < |ss| ensures Convert(leaf.kind, ss[i]) == Ok(ConvertAll(leaf.kind, ss).value[i]) {
      }
    }
  }

  lemma {:induction false} ConvertAllOk(kind: Kind, ss: seq<string>)
    ensures ConvertAll(kind, ss).Ok? <==> forall i :: 0 <= i < |ss| ==> kind != UINT || ParseInt(ss[i]).Some?
  {
    if ss != [] {
      ConvertAllOk(kind, ss[1..]);
      assert ss == [ss[0]] + ss[1..];
    }
  }

  // A value that comes back also goes there.
  lemma FaithfulTyped(sep: Option<char>, leaf: Leaf, v: Cfg)
    requires Faithful(sep, leaf, v)
    ensures Typed(sep, leaf, v).Ok?
  {
    if leaf.isList {
      var ss := Pieces(sep, v).value;
      forall i | 0 <= i < |ss| ensures leaf.kind != UINT || ParseInt(ss[i]).Some? {
        if v.Text? {
          assert Stripped(Split(v.s, sep.value)[i]) && Steady(leaf.kind, Split(v.s, sep.value)[i]);
          StripExact(Split(v.s, sep.value)[i]);
        }
        if leaf.kind == UINT {
          CanonicalParses(ss[i]);
        }
      }
      ConvertAllOk(leaf.kind, ss);
    } else if leaf.kind == UINT {
      CanonicalParses(v.s);
    }
  }

  // A value comes back as it was exactly when it is faithful.
  lemma ValueRoundTrip(sep: Option<char>, leaf: Leaf, v: Cfg)
    requires Typed(sep, leaf, v).Ok?
    ensures Untyped(sep, leaf, Typed(sep, leaf, v).value) == Ok(v) <==> Faithful(sep, leaf, v)
  {
    if leaf.isList {
      var ss := Pieces(sep, v).value;
      var xs := ConvertAll(leaf.kind, ss).value;
      ListShow(leaf.kind, ss, xs);
      if v.Text? && sep.Some? {
        SeparatedShow(leaf.kind, v.s, sep.value, xs);
      }
    } else {
      ConvertShow(leaf.kind, v.s);
    }
  }

  // What comes back from YANG data: a number in decimal digits or a text for a plain leaf, the truth of
  // the value for a boolean one, and the elements of a leaf-list, joined where a separator is declared.
  lemma UntypedForms(sep: Option<char>, kind: Kind, n: int, s: string, xs: seq<Scalar>)
    ensures kind != BOOLEAN ==> Untyped(sep, Leaf(kind, false), One(N(n))) == Ok(Text(Show(n)))
    ensures kind != BOOLEAN ==> Untyped(sep, Leaf(kind, false), One(T(s))) == Ok(Text(s))
    ensures kind != BOOLEAN ==> Untyped(sep, Leaf(kind, false), Many(xs)) == Err
    ensures Untyped(sep, Leaf(BOOLEAN, false), One(T(s))) == Ok(Text(if s == "" then "false" else "true"))
    ensures Untyped(sep, Leaf(BOOLEAN, false), One(N(n))) == Ok(Text(if n == 0 then "false" else "true"))
    ensures sep == None ==>
              var r := Untyped(sep, Leaf(kind, true), Many(xs));
              && r.Ok? && r.value.Texts? && |r.value.ss| == |xs|
              && forall i :: 0 <= i < |xs| ==> r.value.ss[i] == match xs[i] case T(t) => t case N(m) => Show(m)
    ensures sep.Some? ==>
              Untyped(sep, Leaf(kind, true), Many(xs))
              == Ok(Text(Join(seq(|xs|, i requires 0 <= i < |xs| => match xs[i] case T(t) => t case N(m) => Show(m)),
                              sep.value)))
  {
    assert ShowAll(xs) == seq(|xs|, i requires 0 <= i < |xs| => match xs[i] case T(t) => t case N(m) => Show(m));
  }

  // A boolean leaf stays text on the way there, and any text that is not empty counts as true.
  lemma BooleanExample(sep: Option<char>)
    ensures var leaf := Leaf(BOOLEAN, false);
            Typed(sep, leaf, Text("false")) == Ok(One(T("false")))
            && Untyped(sep, leaf, One(T("false"))) == Ok(Text("true"))
  {
  }

  // ----- keys -----

  const BAR: char := '|'

  predicate DistinctNames(ks: seq<string>) {
    forall i, j :: 0 <= i < j < |ks| ==> ks[i] != ks[j]
  }

  // The dict of key names and stripped parts; a name that occurs twice keeps its last part.
  function KeyDict(keys: seq<string>, parts: seq<string>): map<string, Yang>
    requires |keys| == |parts|
  {
    if keys == [] then map[]
    else
      var n := |keys| - 1;
      KeyDict(keys[..n], parts[..n])[keys[n] := One(T(Strip(parts[n])))]
  }

  // `_extractKey`.
  function ExtractKey(pkey: string, keys: seq<string>): Result<map<string, Yang>> {
    var parts := Split(pkey, BAR);
    if |parts| != |keys| then Err else Ok(KeyDict(keys, parts))
  }

  // The text of one key of an entry; a missing or empty one raises.
  function KeyPart(fields: map<string, Yang>, key: string): Result<string> {
    if key !in fields || !Truthy(fields[key]) then Err
    else
      match fields[key]
      case One(x) => Ok(ShowScalar(x))
      case Many(_) => Err
  }

  // Every part followed by a bar.
  function Barred(fields: map<string, Yang>, keys: seq<string>): Result<string> {
    if keys == [] then Ok("")
    else
      match (Barred(fields, keys[..|keys| - 1]), KeyPart(fields, keys[|keys| - 1]))
      case (Ok(s), Ok(p)) => Ok(s + p + [BAR])
      case _ => Err
  }

  function StripBars(s: string): string {
    if s != "" && s[|s| - 1] == BAR then StripBars(s[..|s| - 1]) else s
  }

  // `_createKey`.
  function CreateKey(fields: map<string, Yang>, keys: seq<string>): Result<string> {
    match Barred(fields, keys)
    case Err => Err
    case Ok(s) => Ok(StripBars(s))
  }

  lemma {:induction false} KeyDictAt(keys: seq<string>, parts: seq<string>)
    requires |keys| == |parts| && DistinctNames(keys)
    ensures forall k :: k in KeyDict(keys, parts) <==> k in keys
    ensures forall i :: 0 <= i < |keys| ==> keys[i] in KeyDict(keys, parts)
                                            && KeyDict(keys, parts)[keys[i]] == One(T(Strip(parts[i])))
  {
    if keys != [] {
      var n := |keys| - 1;
      KeyDictAt(keys[..n], parts[..n]);
      assert keys == keys[..n] + [keys[n]];
      forall i | 0 <= i < |keys| ensures keys[i] in KeyDict(keys, parts)
                                         && KeyDict(keys, parts)[keys[i]] == One(T(Strip(parts[i]))) {
        assert i < n ==> keys[..n][i] == keys[i] && parts[..n][i] == parts[i];
      }
    }
  }

  // The entry holds the stripped parts under its keys.
  ghost predicate HoldsParts(fields: map<string, Yang>, keys: seq<string>, parts: seq<string>) {
    |keys| == |parts| && forall i :: 0 <= i < |keys| ==> keys[i] in fields && fields[keys[i]] == One(T(parts[i]))
  }

  predicate NoneEmpty(ps: seq<string>) {
    forall i :: 0 <= i < |ps| ==> ps[i] != ""
  }

  lemma {:induction false} JoinMore(ps: seq<string>, p: string)
    requires ps != []
    ensures Join(ps + [p], BAR) == Join(ps, BAR) + [BAR] + p
  {
    assert (ps + [p])[1..] == ps[1..] + [p];
    if |ps| > 1 {
      JoinMore(ps[1..], p);
      assert ps[0] + ([BAR] + (Join(ps[1..], BAR) + [BAR] + p)) == ps[0] + ([BAR] + Join(ps[1..], BAR)) + [BAR] + p;
    } else {
      assert ps[1..] + [p] == [p];
      assert ps[0] + ([BAR] + p) == ps[0] + [BAR] + p;
    }
  }

  lemma {:induction false} BarredParts(fields: map<string, Yang>, keys: seq<string>, parts: seq<string>)
    requires HoldsParts(fields, keys, parts) && keys != []
    ensures Barred(fields, keys) == if NoneEmpty(parts) then Ok(Join(parts, BAR) + [BAR]) else Err
  {
    var n := |keys| - 1;
    var front := parts[..n];
    assert parts == front + [parts[n]];
    assert fields[keys[n]] == One(T(parts[n]));
    if n == 0 {
      assert NoneEmpty(parts) <==> parts[0] != "";
      assert Barred(fields, keys[..n]) == Ok("");
      assert "" + parts[0] == parts[0] == Join(parts, BAR);
    } else {
      assert HoldsParts(fields, keys[..n], front);
      BarredParts(fields, keys[..n], front);
      assert NoneEmpty(parts) <==> NoneEmpty(front) && parts[n] != "";
      JoinMore(front, parts[n]);
      assert Join(front, BAR) + [BAR] + parts[n] + [BAR] == Join(parts, BAR) + [BAR];
    }
  }

  lemma {:induction false} JoinEnds(ps: seq<string>)
    requires ps != [] && NoneEmpty(ps) && Free(ps, BAR)
    ensures var j := Join(ps, BAR); j != "" && j[|j| - 1] != BAR
  {
    if |ps| > 1 {
      assert NoneEmpty(ps[1..]) && Free(ps[1..], BAR);
      JoinEnds(ps[1..]);
    } else {
      assert ps[0] != "" && BAR !in ps[0];
    }
  }

  // The key that comes back is the stripped parts joined; it is raised if one is empty.
  lemma CreatedKey(fields: map<string, Yang>, keys: seq<string>, parts: seq<string>)
    requires HoldsParts(fields, keys, parts) && keys != [] && Free(parts, BAR)
    ensures CreateKey(fields, keys) == if NoneEmpty(parts) then Ok(Join(parts, BAR)) else Err
  {
    BarredParts(fields, keys, parts);
    if NoneEmpty(parts) {
      JoinEnds(parts);
      var s := Join(parts, BAR) + [BAR];
      assert s[..|s| - 1] == Join(parts, BAR);
      assert StripBars(Join(parts, BAR)) == Join(parts, BAR);
      assert s[|s| - 1] == BAR && StripBars(s) == StripBars(s[..|s| - 1]);
    }
  }

  // A key all of whose parts are stripped and not empty.
  predicate Normal(pkey: string) {
    AllStripped(Split(pkey, BAR)) && NoneEmpty(Split(pkey, BAR))
  }

  // A key comes back as it was exactly when it is normal; and what comes back is always normal.
  lemma KeyRoundTrip(pkey: string, keys: seq<string>, fields: map<string, Yang>)
    requires DistinctNames(keys) && ExtractKey(pkey, keys).Ok?
    requires forall k :: k in keys ==> k in fields && k in ExtractKey(pkey, keys).value
                                       && fields[k] == ExtractKey(pkey, keys).value[k]
    ensures CreateKey(fields, keys) == Ok(pkey) <==> Normal(pkey)
    ensures CreateKey(fields, keys).Ok? ==> Normal(CreateKey(fields, keys).value)
    ensures CreateKey(fields, keys).Ok? <==> NoneEmpty(StripAll(Split(pkey, BAR)))
  {
    var parts := Split(pkey, BAR);
    var ps := StripAll(parts);
    KeyDictAt(keys, parts);
    SplitFree(pkey, BAR);
    JoinSplit(pkey, BAR);
    forall i | 0 <= i < |parts|
      ensures BAR !in ps[i] && Stripped(ps[i]) && (if Stripped(parts[i]) then ps[i] == parts[i]
                                                   else |ps[i]| < |parts[i]|)
    {
      assert BAR !in parts[i];
      StripKeepsOut(parts[i], BAR);
      StripExact(parts[i]);
    }
    forall i | 0 <= i < |keys| ensures keys[i] in fields && fields[keys[i]] == One(T(ps[i])) {
      assert keys[i] in keys;
    }
    CreatedKey(fields, keys, ps);
    JoinShrinks(parts, ps, BAR);
    SplitJoin(ps, BAR);
  }

  // ----- list entries -----

  // The inner list of a Type 1 list: its name, its key, and its other leaf.
  datatype Inner = Inner(name: string, key: string, val: string)

  datatype ListModel = ListModel(name: string, keys: seq<string>, leafs: map<string, Leaf>, inner: Option<Inner>)

  const type1Lists: seq<string> := [
    "DSCP_TO_TC_MAP_LIST", "DOT1P_TO_TC_MAP_LIST", "TC_TO_PRIORITY_GROUP_MAP_LIST", "TC_TO_QUEUE_MAP_LIST",
    "MAP_PFC_PRIORITY_TO_QUEUE_LIST", "PFC_PRIORITY_TO_PRIORITY_GROUP_MAP_LIST", "DSCP_TO_FC_MAP_LIST",
    "EXP_TO_FC_MAP_LIST", "CABLE_LENGTH_LIST"
  ]

  predicate IsType1(l: ListModel) {
    l.name in type1Lists
  }

  // An entry of a YANG list, with the key and value texts of its inner list.
  datatype Row = Row(fields: map<string, Yang>, pairs: Option<seq<(string, string)>>)

  // The order of a dict.
  type Order = map<string, Cfg> -> seq<string>

  ghost predicate Listing(ks: seq<string>, m: map<string, Cfg>) {
    DistinctNames(ks) && forall k :: k in ks <==> k in m
  }

  ghost predicate IsOrder(ord: Order) {
    forall m :: Listing(ord(m), m)
  }

  // What a loop over the value visits: nothing in an empty text or list, and the characters or
  // elements of others cannot be looked up.
  function Items(v: Cfg): Result<map<string, Cfg>> {
    match v
    case Dict(m) => Ok(m)
    case Text(s) => if s == "" then Ok(map[]) else Err
    case Texts(ss) => if ss == [] then Ok(map[]) else Err
  }

  predicate CanType(table: string, leafs: map<string, Leaf>, k: string, v: Cfg) {
    k in leafs && Typed(Separator(table, k), leafs[k], v).Ok?
  }

  predicate AllTyped(table: string, leafs: map<string, Leaf>, m: map<string, Cfg>) {
    forall k :: k in m ==> CanType(table, leafs, k, m[k])
  }

  function TypedFields(table: string, leafs: map<string, Leaf>, m: map<string, Cfg>): (r: map<string, Yang>)
    requires AllTyped(table, leafs, m)
    ensures r.Keys == m.Keys
  {
    map k | k in m :: (assert CanType(table, leafs, k, m[k]); Typed(Separator(table, k), leafs[k], m[k]).value)
  }

  predicate AllText(m: map<string, Cfg>) {
    forall k :: k in m ==> m[k].Text?
  }

  function Pairs(ks: seq<string>, m: map<string, Cfg>): seq<(string, string)>
    requires AllText(m) && forall k :: k in ks ==> k in m
  {
    seq(|ks|, i requires 0 <= i < |ks| => (assert ks[i] in ks; (ks[i], m[ks[i]].s)))
  }

  function FromPairs(ps: seq<(string, string)>): map<string, Cfg> {
    if ps == [] then map[] else FromPairs(ps[..|ps| - 1])[ps[|ps| - 1].0 := Text(ps[|ps| - 1].1)]
  }

  // Whether a list takes an entry.
  predicate Accepts(table: string, l: ListModel, pkey: string, v: Cfg) {
    && ExtractKey(pkey, l.keys).Ok? && Items(v).Ok?
    && if IsType1(l) then l.inner.Some? && AllText(Items(v).value) else AllTyped(table, l.leafs, Items(v).value)
  }

  // One entry of `_xlateList` or `_xlateType1MapList`.
  function XlateRow(ord: Order, table: string, l: ListModel, pkey: string, v: Cfg): (r: Result<Row>)
    requires IsOrder(ord)
    ensures r.Ok? <==> Accepts(table, l, pkey, v)
  {
    match (ExtractKey(pkey, l.keys), Items(v))
    case (Ok(keyDict), Ok(m)) =>
      if IsType1(l) then
        if l.inner.Some? && AllText(m) then assert Listing(ord(m), m); Ok(Row(keyDict, Some(Pairs(ord(m), m)))) else Err
      else if AllTyped(table, l.leafs, m) then Ok(Row(keyDict + TypedFields(table, l.leafs, m), None))
      else Err
    case _ => Err
  }

  predicate CanUntype(table: string, leafs: map<string, Leaf>, k: string, y: Yang) {
    k in leafs && Untyped(Separator(table, k), leafs[k], y).Ok?
  }

  predicate AllUntyped(table: string, leafs: map<string, Leaf>, fields: map<string, Yang>) {
    forall k :: k in fields ==> CanUntype(table, leafs, k, fields[k])
  }

  function UntypedFields(table: string, leafs: map<string, Leaf>, fields: map<string, Yang>): (r: map<string, Cfg>)
    requires AllUntyped(table, leafs, fields)
    ensures r.Keys == fields.Keys
  {
    map k | k in fields :: (assert CanUntype(table, leafs, k, fields[k]); Untyped(Separator(table, k), leafs[k],
                                                                                  fields[k]).value)
  }

  function WithoutKeys(fields: map<string, Yang>, keys: seq<string>): map<string, Yang> {
    map k | k in fields && k !in keys :: fields[k]
  }

  // One entry of `_revXlateList` or `_revXlateType1MapList`.
  function RevRow(table: string, l: ListModel, row: Row): Result<(string, Cfg)> {
    match CreateKey(row.fields, l.keys)
    case Err => Err
    case Ok(pkey) =>
      if IsType1(l) then
        if l.inner.Some? && row.pairs.Some? then Ok((pkey, Dict(FromPairs(row.pairs.value)))) else Err
      else
        var rest := WithoutKeys(row.fields, l.keys);
        if row.pairs.None? && AllUntyped(table, l.leafs, rest)
        then Ok((pkey, Dict(UntypedFields(table, l.leafs, rest)))) else Err
  }

  predicate AllFaithful(table: string, leafs: map<string, Leaf>, m: map<string, Cfg>) {
    forall k :: k in m ==> k in leafs && Faithful(Separator(table, k), leafs[k], m[k])
  }

  // No field of the entry has the name of a key.
  predicate ApartFromKeys(l: ListModel, v: Cfg) {
    !IsType1(l) && v.Dict? ==> forall k :: k in v.fields ==> k !in l.keys
  }

  predicate GoodRow(table: string, l: ListModel, pkey: string, v: Cfg) {
    v.Dict? && Normal(pkey) && ApartFromKeys(l, v) && (IsType1(l) || AllFaithful(table, l.leafs, v.fields))
  }

  // A list takes exactly the entries whose keys have as many parts as it has key names, and whose
  // fields it can type; a Type 1 list those whose fields are texts.
  lemma AcceptsIff(table: string, l: ListModel, pkey: string, v: Cfg)
    ensures Accepts(table, l, pkey, v)
       <==> && |Split(pkey, BAR)| == |l.keys| && (v.Dict? || v == Text("") || v == Texts([]))
            && (if IsType1(l) then l.inner.Some? && (v.Dict? ==> forall k :: k in v.fields ==> v.fields[k].Text?)
                else v.Dict? ==> forall k :: k in v.fields ==> CanType(table, l.leafs, k, v.fields[k]))
  {
  }

  // The row of an entry holds the stripped parts of the key under the key names, every field as its
  // leaf types it, and nothing else; a Type 1 row holds the fields as pairs, in the order of the dict.
  lemma RowHolds(ord: Order, table: string, l: ListModel, pkey: string, v: Cfg)
    requires IsOrder(ord) && DistinctNames(l.keys) && Accepts(table, l, pkey, v)
    ensures var row, m := XlateRow(ord, table, l, pkey, v).value, Items(v).value;
            && (forall i :: 0 <= i < |l.keys| && (IsType1(l) || l.keys[i] !in m) ==>
                              l.keys[i] in row.fields && row.fields[l.keys[i]] == One(T(Strip(Split(pkey, BAR)[i]))))
            && (forall k :: k in row.fields <==> k in l.keys || (!IsType1(l) && k in m))
            && (!IsType1(l) ==>
                  row.pairs.None? && forall k :: k in m ==> k in l.leafs
                                                            && Typed(Separator(table, k), l.leafs[k], m[k])
                                                               == Ok(row.fields[k]))
            && (IsType1(l) ==>
                  && row.pairs.Some? && |row.pairs.value| == |ord(m)|
                  && forall i :: 0 <= i < |ord(m)| ==>
                                   ord(m)[i] in m && m[ord(m)[i]] == Text(row.pairs.value[i].1)
                                   && row.pairs.value[i].0 == ord(m)[i])
  {
    var m := Items(v).value;
    KeyDictAt(l.keys, Split(pkey, BAR));
    if IsType1(l) {
      assert Listing(ord(m), m);
      forall i | 0 <= i < |ord(m)| ensures ord(m)[i] in m {
        assert ord(m)[i] in ord(m);
      }
    } else {
      forall k | k in m ensures CanType(table, l.leafs, k, m[k]) {
      }
    }
  }

  lemma {:induction false} PairsBack(ks: seq<string>, m: map<string, Cfg>)
    requires AllText(m) && DistinctNames(ks) && forall k :: k in ks ==> k in m
    ensures FromPairs(Pairs(ks, m)) == map k | k in ks :: m[k]
  {
    if ks != [] {
      var n := |ks| - 1;
      assert ks == ks[..n] + [ks[n]];
      PairsBack(ks[..n], m);
      assert Pairs(ks, m)[..n] == Pairs(ks[..n], m);
    }
  }

  lemma PairsRoundTrip(ks: seq<string>, m: map<string, Cfg>)
    requires AllText(m) && Listing(ks, m)
    ensures FromPairs(Pairs(ks, m)) == m
  {
    PairsBack(ks, m);
    assert (map k | k in ks :: m[k]) == m;
  }

  // Fields come back as they were exactly when all are faithful.
  lemma FieldsRoundTrip(table: string, leafs: map<string, Leaf>, m: map<string, Cfg>)
    requires AllTyped(table, leafs, m)
    ensures var fields := TypedFields(table, leafs, m);
            AllUntyped(table, leafs, fields) && (UntypedFields(table, leafs, fields) == m <==>
                                                 AllFaithful(table, leafs, m))
  {
    var fields := TypedFields(table, leafs, m);
    forall k | k in m
      ensures k in leafs && CanUntype(table, leafs, k, fields[k])
      ensures Untyped(Separator(table, k), leafs[k], fields[k]) == Ok(m[k]) <==>
              Faithful(Separator(table, k), leafs[k], m[k])
    {
      assert CanType(table, leafs, k, m[k]);
      ValueRoundTrip(Separator(table, k), leafs[k], m[k]);
    }
    var back := UntypedFields(table, leafs, fields);
    forall k | k in m ensures back[k] == m[k] <==> Faithful(Separator(table, k), leafs[k], m[k]) {
      assert CanUntype(table, leafs, k, fields[k]);
    }
  }

  lemma SplitFields(keyDict: map<string, Yang>, typed: map<string, Yang>, keys: seq<string>)
    requires (forall k :: k in keyDict <==> k in keys) && forall k :: k in typed ==> k !in keys
    ensures WithoutKeys(keyDict + typed, keys) == typed
    ensures forall k :: k in keys ==> k in keyDict + typed && (keyDict + typed)[k] == keyDict[k]
  {
  }

  // An entry comes back as it was exactly when it is good.
  lemma RowRoundTrip(ord: Order, table: string, l: ListModel, pkey: string, v: Cfg)
    requires IsOrder(ord) && DistinctNames(l.keys) && XlateRow(ord, table, l, pkey, v).Ok?
    ensures RevRow(table, l, XlateRow(ord, table, l, pkey, v).value) == Ok((pkey, v)) <==> GoodRow(table, l, pkey, v)
    ensures var r := RevRow(table, l, XlateRow(ord, table, l, pkey, v).value);
            ApartFromKeys(l, v) ==> (r.Ok? ==> Normal(r.value.0)) && (Normal(pkey) ==> r.Ok? && r.value.0 == pkey)
  {
    KeyDictAt(l.keys, Split(pkey, BAR));
    if IsType1(l) {
      var m := Items(v).value;
      KeyRoundTrip(pkey, l.keys, ExtractKey(pkey, l.keys).value);
      assert Listing(ord(m), m);
      PairsRoundTrip(ord(m), m);
    } else if ApartFromKeys(l, v) {
      PlainRow(ord, table, l, pkey, v);
    } else {
      var k :| k in v.fields && k in l.keys;
      var row := XlateRow(ord, table, l, pkey, v).value;
      assert k !in WithoutKeys(row.fields, l.keys);
    }
  }

  // An entry of a plain list without a field that has the name of a key.
  lemma PlainRow(ord: Order, table: string, l: ListModel, pkey: string, v: Cfg)
    requires IsOrder(ord) && DistinctNames(l.keys) && XlateRow(ord, table, l, pkey, v).Ok?
    requires !IsType1(l) && ApartFromKeys(l, v)
    ensures var r := RevRow(table, l, XlateRow(ord, table, l, pkey, v).value);
            && (r == Ok((pkey, v)) <==> GoodRow(table, l, pkey, v))
            && (r.Ok? ==> Normal(r.value.0)) && (Normal(pkey) ==> r.Ok? && r.value.0 == pkey)
  {
    var m := Items(v).value;
    var keyDict := ExtractKey(pkey, l.keys).value;
    var typed := TypedFields(table, l.leafs, m);
    KeyDictAt(l.keys, Split(pkey, BAR));
    SplitFields(keyDict, typed, l.keys);
    KeyRoundTrip(pkey, l.keys, keyDict + typed);
    FieldsRoundTrip(table, l.leafs, m);
  }
}
