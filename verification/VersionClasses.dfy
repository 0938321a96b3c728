/**
 The classes `Component` and `VersionModule`, whose methods change dictionaries and component
 lists in place (scripts/versions_manager.py, lines 18-271).
 */
module VersionClasses {
  import opened VersionLookup
  import opened VersionAdjust
  import Expand = VersionExpand
  import Sub = VersionSubtract

  class Component {
    var versions: Versions
    const ctype: string
    var dist: Scope
    var arch: Scope

    constructor (versions: Versions, ctype: string, dist: Scope, arch: Scope)
      ensures Value() == Comp(Key(ctype, dist, arch), versions)
    {
      this.versions, this.ctype, this.dist, this.arch := versions, ctype, dist, arch;
    }

    function GetKey(): Key
      reads this
    {
      Key(ctype, dist, arch)
    }

    ghost function Value(): Comp
      reads this
    {
      Comp(GetKey(), versions)
    }

    method Clone() returns (c: Component)
      ensures fresh(c) && c.Value() == Value()
    {
      c := new Component(versions, ctype, dist, arch);
    }

    method Merge(others: Versions, overwritten: bool)
      modifies this`versions
      ensures versions == if overwritten then old(versions) + others else others + old(versions)
    {
      var todo := others.Keys;
      while todo != {}
        invariant todo <= others.Keys
        invariant versions.Keys == old(versions).Keys + (others.Keys - todo)
        invariant forall p :: p in versions ==>
                                versions[p] == if p in others && p !in todo
                                                  && (overwritten || p !in old(versions))
                                then others[p] else old(versions)[p]
        decreases todo
      {
        var p :| p in todo;
        if overwritten || p !in versions {
          versions := versions[p := others[p]];
        }
        todo := todo - {p};
      }
    }

    method Subtract(others: Versions)
      modifies this`versions
      ensures versions == Minus(old(versions), others)
    {
      var todo := others.Keys;
      while todo != {}
        invariant todo <= others.Keys
        invariant versions.Keys <= old(versions).Keys
        invariant forall p :: p in old(versions) ==>
                                (p in versions <==> !(p in others && p !in todo && others[p] == old(versions)[p]))
        invariant forall p :: p in versions ==> versions[p] == old(versions)[p]
        decreases todo
      {
        var p :| p in todo;
        if p in versions && versions[p] == others[p] {
          versions := versions - {p};
        }
        todo := todo - {p};
      }
    }

    method CleanInfo(cleanDist: bool, cleanArch: bool, force: bool)
      modifies this`dist, this`arch
      ensures dist == if cleanDist && (force || ctype != "deb") then All else old(dist)
      ensures arch == if cleanArch then All else old(arch)
      ensures GetKey() == Expand.CleanKey(old(GetKey()), cleanDist, cleanArch, force)
    {
      if cleanDist {
        if force || ctype != "deb" {
          dist := All;
        }
      }
      if cleanArch {
        arch := All;
      }
    }
  }

  // The components `cs` have the values `v`.
  ghost predicate Shows(cs: seq<Component>, v: seq<Comp>)
    reads cs
  {
    |cs| == |v| && forall i :: 0 <= i < |cs| ==> cs[i].Value() == v[i]
  }

  ghost predicate Distinct(cs: seq<Component>) {
    forall i, j :: 0 <= i < j < |cs| ==> cs[i] != cs[j]
  }

  // The components `cs` belong to the set `repr`.
  ghost predicate In(cs: seq<Component>, repr: set<Component>) {
    forall i :: 0 <= i < |cs| ==> cs[i] in repr
  }

  // ----- sorting -----

  // `sorted(cs, key = get_order_keys)`
  method SortComponents(cs: seq<Component>, ghost v: seq<Comp>) returns (r: seq<Component>)
    requires Shows(cs, v)
    ensures Shows(r, Sort(v)) && multiset(r) == multiset(cs)
  {
    r := [];
    var i := |cs|;
    while i > 0
      invariant 0 <= i <= |cs|
      invariant Shows(r, Sort(v[i..])) && multiset(r) == multiset(cs[i..])
    {
      i := i - 1;
      assert v[i..][1..] == v[i + 1..];
      assert cs[i..] == [cs[i]] + cs[i + 1..];
      r := InsertComponent(cs[i], r, Sort(v[i + 1..]));
    }
    assert v[0..] == v && cs[0..] == cs;
  }

  method InsertComponent(c: Component, cs: seq<Component>, ghost v: seq<Comp>) returns (r: seq<Component>)
    requires Shows(cs, v)
    ensures Shows(r, Insert(c.Value(), v)) && multiset(r) == multiset{c} + multiset(cs)
    decreases |cs|
  {
    if cs == [] || !KeyLess(cs[0].GetKey(), c.GetKey()) {
      r := [c] + cs;
    } else {
      r := InsertComponent(c, cs[1..], v[1..]);
      assert cs == [cs[0]] + cs[1..];
      ShowsAppend([cs[0]], [v[0]], r, Insert(c.Value(), v[1..]));
      r := [cs[0]] + r;
    }
  }

  lemma {:induction false} DistinctCount(cs: seq<Component>)
    ensures Distinct(cs) <==> forall c :: multiset(cs)[c] <= 1
  {
    if cs == [] {
    } else {
      var init, last := cs[..|cs| - 1], cs[|cs| - 1];
      DistinctCount(init);
      assert cs == init + [last];
      assert forall c :: multiset(cs)[c] == multiset(init)[c] + if c == last then 1 else 0;
      assert last in init <==> multiset(init)[last] > 0;
    }
  }

  lemma SameObjects(cs: seq<Component>, ds: seq<Component>, repr: set<Component>)
    requires multiset(cs) == multiset(ds) && Distinct(ds) && In(ds, repr)
    ensures Distinct(cs) && In(cs, repr)
  {
    DistinctCount(cs);
    DistinctCount(ds);
    forall i | 0 <= i < |cs|
      ensures cs[i] in repr
    {
      assert cs[i] in multiset(cs);
      assert cs[i] in ds;
    }
  }

  // ----- adjusting -----

  // Merges, in order, the versions of the first `n` components that `k` inherits from.
  method InheritedFrom(cs: seq<Component>, n: nat, k: Key, ghost v: seq<Comp>) returns (r: Versions)
    requires n <= |cs| && Shows(cs, v)
    ensures r == Inherited(v[..n], k)
  {
    r := map[];
    for j := 0 to n
      invariant r == Inherited(v[..j], k)
    {
      assert v[..j + 1][..j] == v[..j];
      if Inheritable(k, cs[j].GetKey()) {
        r := r + cs[j].versions;
      }
    }
  }

  // Subtracts from the component at `i`; the other components of the list stay as they are.
  method SubtractAt(cs: seq<Component>, i: nat, others: Versions, ghost v: seq<Comp>)
    requires i < |cs| && Shows(cs, v) && Distinct(cs)
    modifies cs[i]
    ensures Shows(cs, v[i := v[i].(versions := Minus(v[i].versions, others))])
  {
    cs[i].Subtract(others);
  }

  // The components that still list something.
  lemma NonEmptyNext(v: seq<Comp>, i: nat)
    requires i < |v|
    ensures NonEmpty(v[..i + 1]) == NonEmpty(v[..i]) + if v[i].versions != map[] then [v[i]] else []
  {
    assert v[..i + 1] == v[..i] + [v[i]];
    NonEmptySnoc(v[..i], v[i]);
  }

  method CollectNonEmpty(cs: seq<Component>, ghost v: seq<Comp>, ghost repr: set<Component>) returns (r: seq<Component>)
    requires Shows(cs, v) && Distinct(cs) && In(cs, repr)
    ensures Shows(r, NonEmpty(v)) && Distinct(r) && In(r, repr)
  {
    r := [];
    for i := 0 to |cs|
      invariant Shows(r, NonEmpty(v[..i])) && Distinct(r) && In(r, repr)
      invariant forall j, k :: 0 <= j < |r| && i <= k < |cs| ==> r[j] != cs[k]
    {
      NonEmptyNext(v, i);
      if cs[i].versions != map[] {
        r := r + [cs[i]];
      }
    }
    assert v[..|cs|] == v;
  }

  // Every component of a sorted list drops what it inherits.
  method AdjustInPlace(cs: seq<Component>, ghost v0: seq<Comp>, ghost repr: set<Component>)
    requires Shows(cs, v0) && Distinct(cs) && In(cs, repr)
    modifies repr
    ensures Shows(cs, AdjustLoop([], v0))
  {
    ghost var v := v0;
    for i := 0 to |cs|
      invariant Shows(cs, v)
      invariant AdjustLoop(v[..i], v0[i..]) == AdjustLoop([], v0) && v[i..] == v0[i..]
    {
      var inherited := InheritedFrom(cs, i, cs[i].GetKey(), v);
      SubtractAt(cs, i, inherited, v);
      v := AdjustNext(v0, v, i);
    }
    assert v[..|cs|] == v;
  }

  lemma AdjustNext(s: seq<Comp>, v: seq<Comp>, i: nat) returns (v': seq<Comp>)
    requires i < |s| == |v| && v[i..] == s[i..]
    ensures v' == v[i := v[i].(versions := Minus(v[i].versions, Inherited(v[..i], v[i].key)))]
    ensures AdjustLoop(v'[..i + 1], s[i + 1..]) == AdjustLoop(v[..i], s[i..]) && v'[i + 1..] == s[i + 1..]
  {
    v' := v[i := v[i].(versions := Minus(v[i].versions, Inherited(v[..i], v[i].key)))];
    assert v[i] == s[i..][0] == s[i];
    assert s[i..][1..] == s[i + 1..];
    assert v'[..i + 1] == v[..i] + [v'[i]];
    assert v'[i + 1..] == v[i..][1..];
  }

  // `_adjust_components_for_ctype`
  method AdjustComponents(g: seq<Component>, ghost v: seq<Comp>, ghost repr: set<Component>) returns (r: seq<Component>)
    requires Shows(g, v) && Distinct(g) && In(g, repr)
    modifies repr
    ensures Shows(r, AdjustGroup(v)) && Distinct(r) && In(r, repr)
  {
    var cs := SortComponents(g, v);
    SameObjects(cs, g, repr);
    AdjustInPlace(cs, Sort(v), repr);
    r := CollectNonEmpty(cs, AdjustLoop([], Sort(v)), repr);
  }

  // ----- one ctype at a time -----

  method CtypesOf(cs: seq<Component>, ghost v: seq<Comp>) returns (ts: seq<string>)
    requires Shows(cs, v)
    ensures ts == Ctypes(v) && forall i, j :: 0 <= i < j < |ts| ==> ts[i] != ts[j]
  {
    ts := [];
    for i := 0 to |cs|
      invariant ts == Ctypes(v[..i])
    {
      assert v[..i + 1][..i] == v[..i];
      if cs[i].ctype !in ts {
        ts := ts + [cs[i].ctype];
      }
    }
    assert v[..|cs|] == v;
    CtypesMembers(v);
  }

  // The components of one ctype, in order, and the set of them.
  method SelectCtype(cs: seq<Component>, t: string, ghost v: seq<Comp>, ghost repr: set<Component>)
    returns (g: seq<Component>)
    requires Shows(cs, v) && Distinct(cs) && In(cs, repr)
    ensures Shows(g, Group(v, t)) && Distinct(g) && In(g, OfCtype(repr, t))
  {
    g := [];
    for i := 0 to |cs|
      invariant Shows(g, Group(v[..i], t)) && Distinct(g) && In(g, OfCtype(repr, t))
      invariant forall j, k :: 0 <= j < |g| && i <= k < |cs| ==> g[j] != cs[k]
    {
      assert v[..i + 1][..i] == v[..i];
      if cs[i].ctype == t {
        g := g + [cs[i]];
      }
    }
    assert v[..|cs|] == v;
  }

  ghost function OfCtype(repr: set<Component>, t: string): set<Component> {
    set c | c in repr && c.ctype == t
  }

  // The ctypes of the components are among `ts`.
  ghost predicate TypesIn(cs: seq<Component>, ts: seq<string>) {
    forall i :: 0 <= i < |cs| ==> cs[i].ctype in ts
  }

  // `v` is `v0`, except that components of the ctypes `ts` may list something else.
  ghost predicate ChangedOnly(v0: seq<Comp>, v: seq<Comp>, ts: seq<string>) {
    && |v| == |v0|
    && forall j :: 0 <= j < |v| ==>
                     v[j].key.ctype == v0[j].key.ctype && (v0[j].key.ctype !in ts ==> v[j] == v0[j])
  }

  lemma {:induction false} SameGroup(v0: seq<Comp>, v: seq<Comp>, ts: seq<string>, t: string)
    requires ChangedOnly(v0, v, ts) && t !in ts
    ensures Group(v, t) == Group(v0, t)
  {
    if v == [] {
    } else {
      SameGroup(v0[..|v| - 1], v[..|v| - 1], ts, t);
    }
  }

  ghost function Snapshot(cs: seq<Component>): (v: seq<Comp>)
    reads cs
    ensures Shows(cs, v)
  {
    if cs == [] then [] else Snapshot(cs[..|cs| - 1]) + [cs[|cs| - 1].Value()]
  }

  lemma ValuesOf(cs: seq<Component>) returns (v: seq<Comp>)
    ensures Shows(cs, v)
  {
    v := Snapshot(cs);
  }

  // Adjusts the components of one ctype; the components of other ctypes stay as they are.
  method AdjustCtype(all: seq<Component>, t: string, ghost r: seq<Component>, ghost v0: seq<Comp>, ghost v: seq<Comp>,
                     ghost u: seq<Comp>, ghost ts: seq<string>, ghost repr: set<Component>)
    returns (part: seq<Component>, ghost v': seq<Comp>)
    requires Shows(all, v) && Distinct(all) && In(all, repr) && ChangedOnly(v0, v, ts) && t !in ts
    requires Shows(r, u) && TypesIn(r, ts)
    modifies OfCtype(repr, t)
    ensures Shows(r, u)
    ensures Shows(all, v') && ChangedOnly(v0, v', ts + [t])
    ensures Shows(part, AdjustGroup(Group(v0, t))) && Distinct(part) && In(part, OfCtype(repr, t))
  {
    var g := SelectCtype(all, t, v, repr);
    SameGroup(v0, v, ts, t);
    part := AdjustComponents(g, Group(v0, t), OfCtype(repr, t));
    v' := ValuesOf(all);
  }

  // Lists of components with different ctypes have no object in common.
  lemma AppendPart(r: seq<Component>, part: seq<Component>, ts: seq<string>, t: string, repr: set<Component>)
    requires Distinct(r) && In(r, repr) && TypesIn(r, ts)
    requires Distinct(part) && In(part, OfCtype(repr, t)) && t !in ts
    ensures Distinct(r + part) && In(r + part, repr) && TypesIn(r + part, ts + [t])
  {
  }

  lemma ShowsAppend(r: seq<Component>, u: seq<Comp>, part: seq<Component>, w: seq<Comp>)
    requires Shows(r, u) && Shows(part, w)
    ensures Shows(r + part, u + w)
  {
  }

  lemma EachNext(v0: seq<Comp>, ts: seq<string>, i: nat)
    requires i < |ts|
    ensures ts[..i + 1] == ts[..i] + [ts[i]]
    ensures AdjustEach(v0, ts[..i + 1]) == AdjustEach(v0, ts[..i]) + AdjustGroup(Group(v0, ts[i]))
  {
    assert ts[..i + 1][..i] == ts[..i];
  }

  // Adjusts the components of one more ctype, and appends what is left of them to `r`.
  method AdjustMore(all: seq<Component>, r: seq<Component>, t: string, ghost v0: seq<Comp>, ghost v: seq<Comp>,
                    ghost u: seq<Comp>, ghost ts: seq<string>, ghost repr: set<Component>)
    returns (r': seq<Component>, ghost v': seq<Comp>)
    requires Shows(all, v) && Distinct(all) && In(all, repr) && ChangedOnly(v0, v, ts) && t !in ts
    requires Shows(r, u) && Distinct(r) && In(r, repr) && TypesIn(r, ts)
    modifies repr
    ensures Shows(all, v') && ChangedOnly(v0, v', ts + [t])
    ensures Shows(r', u + AdjustGroup(Group(v0, t))) && Distinct(r') && In(r', repr) && TypesIn(r', ts + [t])
  {
    var part;
    part, v' := AdjustCtype(all, t, r, v0, v, u, ts, repr);
    ShowsAppend(r, u, part, AdjustGroup(Group(v0, t)));
    AppendPart(r, part, ts, t, repr);
    r' := r + part;
  }

  // Adjusts the components ctype by ctype.
  method AdjustAll(all: seq<Component>, ghost v0: seq<Comp>, ghost repr: set<Component>) returns (r: seq<Component>)
    requires Shows(all, v0) && Distinct(all) && In(all, repr)
    modifies repr
    ensures Shows(r, Adjust(v0)) && Distinct(r) && In(r, repr)
  {
    var ts := CtypesOf(all, v0);
    ghost var v := v0;
    r := [];
    for i := 0 to |ts|
      invariant Shows(all, v) && ChangedOnly(v0, v, ts[..i])
      invariant Shows(r, AdjustEach(v0, ts[..i])) && Distinct(r) && In(r, repr) && TypesIn(r, ts[..i])
    {
      EachNext(v0, ts, i);
      r, v := AdjustMore(all, r, ts[i], v0, v, AdjustEach(v0, ts[..i]), ts[..i], repr);
    }
    assert ts[..|ts|] == ts;
  }

  // ----- overwriting -----

  // Merges into the component at `i`; the other components of the list stay as they are.
  method MergeAt(cs: seq<Component>, i: nat, others: Versions, ghost v: seq<Comp>)
    requires i < |cs| && Shows(cs, v) && Distinct(cs)
    modifies cs[i]
    ensures Shows(cs, v[i := v[i].(versions := v[i].versions + others)])
  {
    cs[i].Merge(others, true);
  }

  // The values once the first `j` components have been merged into.
  ghost function Merging(v: seq<Comp>, j: nat, m: Comp, allDist: bool, allArch: bool): seq<Comp>
    requires j <= |v|
  {
    Expand.MergeInto(v[..j], m, allDist, allArch) + v[j..]
  }

  lemma MergeNext(v: seq<Comp>, j: nat, m: Comp, allDist: bool, allArch: bool)
    requires j < |v|
    ensures |Merging(v, j, m, allDist, allArch)| == |v| && Merging(v, j, m, allDist, allArch)[j] == v[j]
    ensures Merging(v, j + 1, m, allDist, allArch) ==
            if Expand.Overwritable(v[j].key, m.key, allDist, allArch)
            then Merging(v, j, m, allDist, allArch)[j := v[j].(versions := v[j].versions + m.versions)]
            else Merging(v, j, m, allDist, allArch)
  {
    MergeLength(v[..j], m, allDist, allArch);
    assert v[..j + 1][..j] == v[..j];
    assert v[j..] == [v[j]] + v[j + 1..];
  }

  lemma MergeEnds(v: seq<Comp>, m: Comp, allDist: bool, allArch: bool)
    ensures Merging(v, 0, m, allDist, allArch) == v
    ensures Merging(v, |v|, m, allDist, allArch) == Expand.MergeInto(v, m, allDist, allArch)
  {
    assert v[..|v|] == v && v[|v|..] == [] && v[0..] == v;
  }

  lemma {:induction false} MergeLength(v: seq<Comp>, m: Comp, allDist: bool, allArch: bool)
    ensures |Expand.MergeInto(v, m, allDist, allArch)| == |v|
  {
    if v == [] {
    } else {
      MergeLength(v[..|v| - 1], m, allDist, allArch);
    }
  }

  lemma {:induction false} MergeNothing(v: seq<Comp>, m: Comp, allDist: bool, allArch: bool)
    requires !Expand.HasMatch(v, m, allDist, allArch)
    ensures Expand.MergeInto(v, m, allDist, allArch) == v
  {
    if v == [] {
    } else {
      MergeNothing(v[..|v| - 1], m, allDist, allArch);
      assert v == v[..|v| - 1] + [v[|v| - 1]];
    }
  }

  // Merges `m` into the component at `j`, if it overwrites that one.
  method MergeIfMatching(all: seq<Component>, j: nat, m: Comp, allDist: bool, allArch: bool, ghost w: seq<Comp>)
    returns (hit: bool, ghost w': seq<Comp>)
    requires j < |all| && Shows(all, w) && Distinct(all)
    modifies all[j]
    ensures Shows(all, w')
    ensures hit == Expand.Overwritable(w[j].key, m.key, allDist, allArch)
    ensures w' == if hit then w[j := w[j].(versions := w[j].versions + m.versions)] else w
  {
    hit, w' := false, w;
    if Expand.Overwritable(all[j].GetKey(), m.key, allDist, allArch) {
      MergeAt(all, j, m.versions, w);
      hit, w' := true, w[j := w[j].(versions := w[j].versions + m.versions)];
    }
  }

  // Whether `m` overwrites any of the components.
  method MatchesAny(all: seq<Component>, m: Comp, allDist: bool, allArch: bool, ghost v: seq<Comp>)
    returns (found: bool)
    requires Shows(all, v)
    ensures found == Expand.HasMatch(v, m, allDist, allArch)
  {
    found := false;
    for j := 0 to |all|
      invariant found == Expand.HasMatch(v[..j], m, allDist, allArch)
    {
      assert v[..j + 1][..j] == v[..j];
      found := found || Expand.Overwritable(all[j].GetKey(), m.key, allDist, allArch);
    }
    assert v[..|all|] == v;
  }

  // Merges the versions of `m` into every component it overwrites.
  method MergeMatching(all: seq<Component>, m: Comp, allDist: bool, allArch: bool,
                       ghost v: seq<Comp>, ghost repr: set<Component>)
    requires Shows(all, v) && Distinct(all) && In(all, repr)
    modifies repr
    ensures Shows(all, Expand.MergeInto(v, m, allDist, allArch))
  {
    MergeEnds(v, m, allDist, allArch);
    ghost var now := v;
    for j := 0 to |all|
      invariant now == Merging(v, j, m, allDist, allArch) && Shows(all, now)
    {
      now := MergeOne(all, j, m, allDist, allArch, v, now);
    }
  }

  // One turn of the inner loop of `overwrite`.
  method MergeOne(all: seq<Component>, j: nat, m: Comp, allDist: bool, allArch: bool, ghost v: seq<Comp>,
                  ghost now: seq<Comp>)
    returns (ghost next: seq<Comp>)
    requires j < |all| == |v| && now == Merging(v, j, m, allDist, allArch) && Shows(all, now) && Distinct(all)
    modifies all[j]
    ensures next == Merging(v, j + 1, m, allDist, allArch) && Shows(all, next)
  {
    MergeNext(v, j, m, allDist, allArch);
    var hit, w := MergeIfMatching(all, j, m, allDist, allArch, now);
    next := w;
  }

  ghost predicate Apart(cs: seq<Component>, repr: set<Component>) {
    forall i :: 0 <= i < |cs| ==> cs[i] !in repr
  }

  // Merges `m` into the components it overwrites, or appends a copy of `m` if there is none.
  method OverwriteStep(all: seq<Component>, todo: seq<Component>, i: nat, allDist: bool, allArch: bool,
                       ghost v: seq<Comp>, ghost s: seq<Comp>, ghost repr: set<Component>)
    returns (r: seq<Component>, ghost repr': set<Component>)
    requires Shows(all, v) && Distinct(all) && In(all, repr)
    requires i < |todo| && Shows(todo, s) && Apart(todo, repr)
    modifies repr
    ensures Shows(r, Expand.OverwriteOne(v, s[i], allDist, allArch)) && Distinct(r) && In(r, repr')
    ensures Shows(todo, s) && Apart(todo, repr')
    ensures repr <= repr' && fresh(repr' - repr)
  {
    var m := todo[i];
    ghost var mv := s[i];
    var merged := MatchesAny(all, Comp(m.GetKey(), m.versions), allDist, allArch, v);
    MergeMatching(all, Comp(m.GetKey(), m.versions), allDist, allArch, v, repr);
    r, repr' := all, repr;
    if !merged {
      MergeNothing(v, mv, allDist, allArch);
      assert allocated(repr);
      var tmp := CleanCopy(m, allDist, allArch);
      r, repr' := Push(all, tmp, v, tmp.Value(), repr);
    }
  }

  method CleanCopy(m: Component, allDist: bool, allArch: bool) returns (c: Component)
    ensures fresh(c) && c.Value() == Comp(Expand.CleanKey(m.GetKey(), allDist, allArch, false), m.versions)
  {
    c := m.Clone();
    c.CleanInfo(allDist, allArch, false);
  }

  // The loop of `overwrite`, from the general components of `over` to the detailed ones.
  method OverwriteAll(cs: seq<Component>, over: seq<Component>, allDist: bool, allArch: bool,
                      ghost v: seq<Comp>, ghost w: seq<Comp>, ghost repr: set<Component>)
    returns (r: seq<Component>, ghost repr': set<Component>)
    requires Shows(cs, v) && Distinct(cs) && In(cs, repr) && Shows(over, w) && Apart(over, repr)
    modifies repr
    ensures Shows(r, Expand.OverwriteLoop(v, Sort(w), allDist, allArch)) && Distinct(r) && In(r, repr')
    ensures repr <= repr' && fresh(repr' - repr)
  {
    var todo := SortComponents(over, w);
    SameApart(todo, over, repr);
    ghost var s, u := Sort(w), v;
    r, repr' := cs, repr;
    for i := 0 to |todo|
      invariant Shows(todo, s) && Shows(r, u) && Distinct(r) && In(r, repr') && Apart(todo, repr')
      invariant Expand.OverwriteLoop(u, s[i..], allDist, allArch) == Expand.OverwriteLoop(v, s, allDist, allArch)
      invariant repr <= repr' && fresh(repr' - repr)
    {
      assert s[i..][1..] == s[i + 1..];
      r, repr' := OverwriteStep(r, todo, i, allDist, allArch, u, s, repr');
      u := Expand.OverwriteOne(u, s[i], allDist, allArch);
    }
  }

  lemma SameApart(cs: seq<Component>, ds: seq<Component>, repr: set<Component>)
    requires multiset(cs) == multiset(ds) && Apart(ds, repr)
    ensures Apart(cs, repr)
  {
    forall i | 0 <= i < |cs|
      ensures cs[i] !in repr
    {
      assert cs[i] in multiset(cs);
      assert cs[i] in ds;
    }
  }

  predicate Wanted(t: string, ctypes: seq<string>, excluded: seq<string>) {
    t !in excluded && (ctypes == [] || t in ctypes)
  }

  function Selected(v: seq<Comp>, ctypes: seq<string>, excluded: seq<string>): seq<Comp> {
    if v == [] then []
    else
      var c := v[|v| - 1];
      Selected(v[..|v| - 1], ctypes, excluded) + if Wanted(c.key.ctype, ctypes, excluded) then [c] else []
  }

  lemma {:induction false} AllSelected(v: seq<Comp>)
    ensures Selected(v, [], []) == v
  {
    if v != [] {
      AllSelected(v[..|v| - 1]);
      assert v == v[..|v| - 1] + [v[|v| - 1]];
    }
  }

  // Part by part, exactly the components of the types asked for and not excluded are selected.
  lemma {:induction false} SelectedParts(v: seq<Comp>, w: seq<Comp>, c: Comp, ctypes: seq<string>,
                                         excluded: seq<string>)
    ensures Selected(v + w, ctypes, excluded) == Selected(v, ctypes, excluded) + Selected(w, ctypes, excluded)
    ensures Selected([c], ctypes, excluded)
         == if c.key.ctype in excluded || (0 < |ctypes| && c.key.ctype !in ctypes) then [] else [c]
  {
    assert [c][..0] == [];
    if w == [] {
      assert v + w == v;
    } else {
      SelectedParts(v, w[..|w| - 1], c, ctypes, excluded);
      assert (v + w)[..|v + w| - 1] == v + w[..|w| - 1];
    }
  }

  lemma SelectedNext(v: seq<Comp>, i: nat, ctypes: seq<string>, excluded: seq<string>)
    requires i < |v|
    ensures Selected(v[..i + 1], ctypes, excluded)
         == Selected(v[..i], ctypes, excluded) + if Wanted(v[i].key.ctype, ctypes, excluded) then [v[i]] else []
  {
    assert v[..i + 1][..i] == v[..i];
  }

  method CloneSelected(cs: seq<Component>, ctypes: seq<string>, excluded: seq<string>, ghost v: seq<Comp>)
    returns (r: seq<Component>, ghost repr: set<Component>)
    requires Shows(cs, v)
    ensures Shows(r, Selected(v, ctypes, excluded)) && Distinct(r) && In(r, repr) && fresh(repr)
  {
    r, repr := [], {};
    for i := 0 to |cs|
      invariant Shows(r, Selected(v[..i], ctypes, excluded)) && Distinct(r) && In(r, repr) && fresh(repr)
    {
      SelectedNext(v, i, ctypes, excluded);
      if cs[i].ctype in excluded {
        continue;
      }
      if |ctypes| > 0 && cs[i].ctype !in ctypes {
        continue;
      }
      var c := cs[i].Clone();
      r, repr := Push(r, c, Selected(v[..i], ctypes, excluded), c.Value(), repr);
    }
    assert v[..|cs|] == v;
  }

  // ----- the config module -----

  // `_get_config_for_ctype`
  method ConfigComponent(cs: seq<Component>, t: string, dist: Scope, arch: Scope, ghost v: seq<Comp>,
                         ghost repr: set<Component>)
    returns (c: Component)
    requires Shows(cs, v) && Distinct(cs) && In(cs, repr)
    ensures fresh(c) && c.Value() == Comp(Key(t, dist, arch), Expand.ConfigGroup(Group(v, t), Key(t, dist, arch)))
  {
    var g := SelectCtype(cs, t, v, repr);
    ghost var sv := Sort(Group(v, t));
    var sorted := SortComponents(g, Group(v, t));
    var versions := InheritedFrom(sorted, |sorted|, Key(t, dist, arch), sv);
    assert sv[..|sorted|] == sv;
    c := new Component(versions, t, dist, arch);
  }

  method ConfigComponents(cs: seq<Component>, dist: Scope, arch: Scope, ghost v: seq<Comp>, ghost repr: set<Component>)
    returns (r: seq<Component>, ghost repr': set<Component>)
    requires Shows(cs, v) && Distinct(cs) && In(cs, repr)
    ensures Shows(r, Expand.ConfigEach(v, Ctypes(v), dist, arch)) && Distinct(r) && In(r, repr') && fresh(repr')
  {
    var ts := CtypesOf(cs, v);
    r, repr' := [], {};
    for i := 0 to |ts|
      invariant Shows(r, Expand.ConfigEach(v, ts[..i], dist, arch)) && Distinct(r) && In(r, repr') && fresh(repr')
    {
      ConfigNext(v, ts, i, dist, arch);
      var c := ConfigComponent(cs, ts[i], dist, arch, v, repr);
      r, repr' := Push(r, c, Expand.ConfigEach(v, ts[..i], dist, arch), c.Value(), repr');
    }
    assert ts[..|ts|] == ts;
  }

  lemma ConfigNext(v: seq<Comp>, ts: seq<string>, i: nat, dist: Scope, arch: Scope)
    requires i < |ts|
    ensures Expand.ConfigEach(v, ts[..i + 1], dist, arch)
         == Expand.ConfigEach(v, ts[..i], dist, arch)
            + [Comp(Key(ts[i], dist, arch), Expand.ConfigGroup(Group(v, ts[i]), Key(ts[i], dist, arch)))]
  {
    assert ts[..i + 1][..i] == ts[..i];
  }

  // One more component at the end of a list of distinct ones.
  method Push(r: seq<Component>, c: Component, ghost u: seq<Comp>, ghost w: Comp, ghost repr: set<Component>)
    returns (r': seq<Component>, ghost repr': set<Component>)
    requires Shows(r, u) && Distinct(r) && In(r, repr) && c !in repr && c.Value() == w
    ensures r' == r + [c] && repr' == repr + {c}
    ensures Shows(r', u + [w]) && Distinct(r') && In(r', repr')
  {
    r', repr' := r + [c], repr + {c};
  }

  class VersionModule {
    var components: seq<Component>
    // The values of the components, and the set of them.
    ghost var value: seq<Comp>
    ghost var repr: set<Component>

    ghost predicate Valid()
      reads this, components
    {
      Shows(components, value) && Distinct(components) && In(components, repr)
    }

    constructor (components: seq<Component>, ghost value: seq<Comp>, ghost repr: set<Component>)
      requires Shows(components, value) && Distinct(components) && In(components, repr)
      ensures Valid() && this.components == components && this.value == value && this.repr == repr
    {
      this.components, this.value, this.repr := components, value, repr;
    }

    // `clone`: the components of the types asked for and not excluded; an empty list asks for all.
    method Clone(ctypes: seq<string>, excluded: seq<string>) returns (m: VersionModule)
      requires Valid()
      ensures fresh(m) && m.Valid() && fresh(m.repr) && m.value == Selected(value, ctypes, excluded)
    {
      var cs;
      ghost var r;
      cs, r := CloneSelected(components, ctypes, excluded, value);
      m := new VersionModule(cs, Selected(value, ctypes, excluded), r);
    }

    // `adjust`
    method Adjust()
      requires Valid()
      modifies this, repr
      ensures Valid() && repr == old(repr)
      ensures value == VersionAdjust.Adjust(old(value))
    {
      components := AdjustAll(components, value, repr);
      value := VersionAdjust.Adjust(value);
    }

    // `overwrite`
    method Overwrite(module_: VersionModule, allDist: bool, allArch: bool)
      requires Valid() && module_.Valid() && this != module_ && Apart(module_.components, repr)
      modifies this, repr
      ensures Valid() && fresh(repr - old(repr))
      ensures value == Expand.Overwrite(old(value), module_.value, allDist, allArch)
      ensures module_.Valid()
    {
      var cs;
      ghost var r;
      cs, r := OverwriteAll(components, module_.components, allDist, allArch, value, module_.value, repr);
      components, repr, value := cs, repr + r, Expand.OverwriteLoop(value, Sort(module_.value), allDist, allArch);
      Adjust();
    }

    // `_get_config_module`
    method GetConfigModule(defaults: VersionModule, dist: Scope, arch: Scope) returns (m: VersionModule)
      requires Valid() && defaults.Valid()
      ensures fresh(m) && m.Valid() && fresh(m.repr)
      ensures m.value == Expand.ConfigModule(defaults.value, value, dist, arch)
    {
      var laid := defaults.Clone([], []);
      AllSelected(defaults.value);
      laid.Overwrite(this, false, false);
      var cs;
      ghost var r;
      cs, r := ConfigComponents(laid.components, dist, arch, laid.value, laid.repr);
      m := new VersionModule(cs, Expand.ConfigModule(defaults.value, value, dist, arch), r);
    }

    // The versions the config module lists for `t`: those of its first component of that ctype.
    method VersionsFor(t: string, ghost d: seq<Comp>, ghost s: seq<Comp>, ghost k: Key) returns (r: Versions)
      requires Valid() && k.ctype == t && value == Expand.ConfigModule(d, s, k.dist, k.arch)
      ensures r == Expand.Config(d, s, k)
    {
      r := map[];
      ConfigGroupOf(d, s, k);
      var g := SelectCtype(components, t, value, repr);
      if |g| > 0 {
        r := g[0].versions;
      }
    }

    // `subtract`
    method Subtract(defaults: VersionModule)
      requires Valid() && defaults.Valid() && this != defaults
      modifies this
      ensures Valid() && fresh(repr)
      ensures value == Sub.Subtract(defaults.value, old(value))
      ensures defaults.Valid() && defaults.value == old(defaults.value)
    {
      var result;
      ghost var r;
      result, r := SubtractClones(components, defaults, value);
      components, repr, value := result, r, Sub.Subtract(defaults.value, value);
    }
  }

  // The config module has one component for each ctype of the modules it is made of.
  lemma ConfigGroupOf(d: seq<Comp>, s: seq<Comp>, k: Key)
    ensures var g := Group(Expand.ConfigModule(d, s, k.dist, k.arch), k.ctype);
            if g == [] then Expand.Config(d, s, k) == map[] else g[0] == Comp(k, Expand.Config(d, s, k))
  {
    var o := Expand.Overwrite(d, s, false, false);
    CtypesMembers(o);
    ConfigEachGroup(o, Ctypes(o), k);
    if k.ctype !in Ctypes(o) {
      EmptyGroup(o, k.ctype);
    }
  }

  lemma {:induction false} ConfigEachGroup(o: seq<Comp>, ts: seq<string>, k: Key)
    requires forall i, j :: 0 <= i < j < |ts| ==> ts[i] != ts[j]
    ensures Group(Expand.ConfigEach(o, ts, k.dist, k.arch), k.ctype) ==
            if k.ctype in ts then [Comp(k, Expand.ConfigGroup(Group(o, k.ctype), k))] else []
  {
    if ts == [] {
    } else {
      var init, t := ts[..|ts| - 1], ts[|ts| - 1];
      ConfigEachGroup(o, init, k);
      var before := Expand.ConfigEach(o, init, k.dist, k.arch);
      var c := Comp(Key(t, k.dist, k.arch), Expand.ConfigGroup(Group(o, t), Key(t, k.dist, k.arch)));
      GroupSnoc(before, c, k.ctype);
      if t == k.ctype {
        assert k.ctype !in init && k.ctype in ts;
      } else {
        assert k.ctype in ts <==> k.ctype in init;
      }
    }
  }

  lemma GroupSnoc(cs: seq<Comp>, c: Comp, t: string)
    ensures Group(cs + [c], t) == if c.key.ctype == t then Group(cs, t) + [c] else Group(cs, t)
  {
    assert (cs + [c])[..|cs|] == cs;
  }

  // Every component of a sorted list drops what the default module, and the components before it,
  // already say.
  method SubtractInPlace(cs: seq<Component>, defaults: VersionModule, ghost v0: seq<Comp>, ghost repr: set<Component>)
    requires Shows(cs, v0) && Distinct(cs) && In(cs, repr) && defaults.Valid() && Apart(defaults.components, repr)
    modifies repr
    ensures Shows(cs, Sub.SubtractLoop(defaults.value, [], v0))
  {
    ghost var v := v0;
    for i := 0 to |cs|
      invariant Shows(cs, v) && defaults.Valid()
      invariant Sub.SubtractLoop(defaults.value, v[..i], v0[i..]) == Sub.SubtractLoop(defaults.value, [], v0)
                && v[i..] == v0[i..]
    {
      v := SubtractOne(cs, i, defaults, v0, v, repr);
    }
    assert v[..|cs|] == v;
  }

  // Subtracts from one component what the ones before it and the defaults expand to at its key.
  method SubtractOne(cs: seq<Component>, i: nat, defaults: VersionModule, ghost v0: seq<Comp>, ghost v: seq<Comp>,
                     ghost repr: set<Component>)
    returns (ghost v': seq<Comp>)
    requires Shows(cs, v) && Distinct(cs) && In(cs, repr) && defaults.Valid() && Apart(defaults.components, repr)
    requires i < |v0| == |v| && v[i..] == v0[i..]
    modifies repr
    ensures Shows(cs, v') && defaults.Valid()
    ensures |v'| == |v| && Sub.SubtractLoop(defaults.value, v'[..i + 1], v0[i + 1..])
                           == Sub.SubtractLoop(defaults.value, v[..i], v0[i..])
    ensures v'[i + 1..] == v0[i + 1..]
  {
    var base := new VersionModule(cs[..i], v[..i], repr);
    var config := base.GetConfigModule(defaults, cs[i].dist, cs[i].arch);
    var versions := config.VersionsFor(cs[i].ctype, defaults.value, v[..i], v[i].key);
    SubtractAt(cs, i, versions, v);
    v' := SubtractNext(defaults.value, v0, v, i);
  }

  lemma SubtractNext(d: seq<Comp>, s: seq<Comp>, v: seq<Comp>, i: nat) returns (v': seq<Comp>)
    requires i < |s| == |v| && v[i..] == s[i..]
    ensures v' == v[i := v[i].(versions := Minus(v[i].versions, Expand.Config(d, v[..i], v[i].key)))]
    ensures Sub.SubtractLoop(d, v'[..i + 1], s[i + 1..]) == Sub.SubtractLoop(d, v[..i], s[i..])
            && v'[i + 1..] == s[i + 1..]
  {
    v' := v[i := v[i].(versions := Minus(v[i].versions, Expand.Config(d, v[..i], v[i].key)))];
    assert v[i] == s[i..][0] == s[i];
    assert s[i..][1..] == s[i + 1..];
    assert v'[..i + 1] == v[..i] + [v'[i]];
    assert v'[i + 1..] == v[i..][1..];
  }

  // Subtracts from the components of one ctype, and appends what is left of them to `r`.
  method SubtractMore(all: seq<Component>, r: seq<Component>, t: string, defaults: VersionModule, ghost v0: seq<Comp>,
                      ghost v: seq<Comp>, ghost u: seq<Comp>, ghost ts: seq<string>, ghost repr: set<Component>)
    returns (r': seq<Component>, ghost v': seq<Comp>)
    requires Shows(all, v) && Distinct(all) && In(all, repr) && ChangedOnly(v0, v, ts) && t !in ts
    requires Shows(r, u) && Distinct(r) && In(r, repr) && TypesIn(r, ts)
    requires defaults.Valid() && Apart(defaults.components, repr)
    modifies repr
    ensures Shows(all, v') && ChangedOnly(v0, v', ts + [t]) && defaults.Valid()
    ensures Shows(r', u + Sub.SubtractGroup(defaults.value, Group(v0, t)))
    ensures Distinct(r') && In(r', repr) && TypesIn(r', ts + [t])
  {
    var part;
    part, v' := SubtractCtype(all, t, defaults, r, v0, v, u, ts, repr);
    ShowsAppend(r, u, part, Sub.SubtractGroup(defaults.value, Group(v0, t)));
    AppendPart(r, part, ts, t, repr);
    r' := r + part;
  }

  method SubtractCtype(all: seq<Component>, t: string, defaults: VersionModule, ghost r: seq<Component>,
                       ghost v0: seq<Comp>,
                       ghost v: seq<Comp>, ghost u: seq<Comp>, ghost ts: seq<string>, ghost repr: set<Component>)
    returns (part: seq<Component>, ghost v': seq<Comp>)
    requires Shows(all, v) && Distinct(all) && In(all, repr) && ChangedOnly(v0, v, ts) && t !in ts
    requires defaults.Valid() && Apart(defaults.components, repr) && Shows(r, u) && TypesIn(r, ts)
    modifies OfCtype(repr, t)
    ensures Shows(r, u)
    ensures Shows(all, v') && ChangedOnly(v0, v', ts + [t]) && defaults.Valid()
    ensures Shows(part, Sub.SubtractGroup(defaults.value, Group(v0, t))) && Distinct(part) && In(part, OfCtype(repr, t))
  {
    var g := SelectCtype(all, t, v, repr);
    SameGroup(v0, v, ts, t);
    part := SubtractComponents(g, defaults, Group(v0, t), OfCtype(repr, t));
    v' := ValuesOf(all);
  }

  method SubtractComponents(g: seq<Component>, defaults: VersionModule, ghost v: seq<Comp>, ghost repr: set<Component>)
    returns (r: seq<Component>)
    requires Shows(g, v) && Distinct(g) && In(g, repr) && defaults.Valid() && Apart(defaults.components, repr)
    modifies repr
    ensures Shows(r, Sub.SubtractGroup(defaults.value, v)) && Distinct(r) && In(r, repr)
  {
    var cs := SortComponents(g, v);
    SameObjects(cs, g, repr);
    SubtractInPlace(cs, defaults, Sort(v), repr);
    r := CollectNonEmpty(cs, Sub.SubtractLoop(defaults.value, [], Sort(v)), repr);
  }

  method SubtractAll(all: seq<Component>, defaults: VersionModule, ghost v0: seq<Comp>, ghost repr: set<Component>)
    returns (r: seq<Component>)
    requires Shows(all, v0) && Distinct(all) && In(all, repr)
    requires defaults.Valid() && Apart(defaults.components, repr)
    modifies repr
    ensures Shows(r, Sub.Subtract(defaults.value, v0)) && Distinct(r) && In(r, repr)
  {
    var ts := CtypesOf(all, v0);
    ghost var v := v0;
    r := [];
    for i := 0 to |ts|
      invariant Shows(all, v) && ChangedOnly(v0, v, ts[..i]) && defaults.Valid()
      invariant Shows(r, Sub.SubtractEach(defaults.value, v0, ts[..i])) && Distinct(r) && In(r, repr)
                && TypesIn(r, ts[..i])
    {
      SubtractEachNext(defaults.value, v0, ts, i);
      r, v := SubtractMore(all, r, ts[i], defaults, v0, v, Sub.SubtractEach(defaults.value, v0, ts[..i]), ts[..i],
                           repr);
    }
    assert ts[..|ts|] == ts;
  }

  // Subtracts from clones, which leaves the components as they are.
  method SubtractClones(cs: seq<Component>, defaults: VersionModule, ghost v: seq<Comp>)
    returns (r: seq<Component>, ghost repr: set<Component>)
    requires Shows(cs, v) && defaults.Valid()
    ensures Shows(r, Sub.Subtract(defaults.value, v)) && Distinct(r) && In(r, repr) && fresh(repr) && defaults.Valid()
  {
    var all;
    AllSelected(v);
    all, repr := CloneSelected(cs, [], [], v);
    r := SubtractAll(all, defaults, v, repr);
  }

  lemma SubtractEachNext(d: seq<Comp>, v0: seq<Comp>, ts: seq<string>, i: nat)
    requires i < |ts|
    ensures ts[..i + 1] == ts[..i] + [ts[i]]
    ensures Sub.SubtractEach(d, v0, ts[..i + 1]) == Sub.SubtractEach(d, v0, ts[..i])
                                                    + Sub.SubtractGroup(d, Group(v0, ts[i]))
  {
    assert ts[..i + 1][..i] == ts[..i];
  }
}
