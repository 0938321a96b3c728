/**
 Components of a version module as values: what the order keys are, how a list of components is
 searched, and what sorting does to a search (scripts/versions_manager.py).
 */
module VersionLookup {

  import opened Wrappers

  type Versions = map<string, string>

  // A distribution or an architecture; `All` is the string 'all'.
  datatype Scope = All | Only(name: string)

  datatype Key = Key(ctype: string, dist: Scope, arch: Scope)

  datatype Comp = Comp(key: Key, versions: Versions)

  // ----- the order of components -----

  predicate StringLess(s: string, t: string) {
    if s == [] || t == [] then s == [] && t != []
    else s[0] < t[0] || (s[0] == t[0] && StringLess(s[1..], t[1..]))
  }

  // An `All` scope sorts as the empty string.
  predicate ScopeLess(s: Scope, t: Scope) {
    match (s, t)
    case (_, All) => false
    case (All, Only(_)) => true
    case (Only(x), Only(y)) => StringLess(x, y)
  }

  predicate KeyLess(k: Key, l: Key) {
    if k.ctype != l.ctype then StringLess(k.ctype, l.ctype)
    else if k.dist != l.dist then ScopeLess(k.dist, l.dist)
    else ScopeLess(k.arch, l.arch)
  }

  lemma {:induction false} StringLessTotal(s: string, t: string)
    ensures s == t || StringLess(s, t) || StringLess(t, s)
    ensures !(StringLess(s, t) && StringLess(t, s)) && !StringLess(s, s)
  {
    if s == [] || t == [] {
      if s != [] {
        StringLessTotal(s[1..], s[1..]);
      }
    } else {
      StringLessTotal(s[1..], t[1..]);
      StringLessTotal(s[1..], s[1..]);
      assert s == [s[0]] + s[1..] && t == [t[0]] + t[1..];
    }
  }

  lemma {:induction false} StringLessTransitive(s: string, t: string, u: string)
    requires StringLess(s, t) && StringLess(t, u)
    ensures StringLess(s, u)
  {
    if s == [] || t == [] || u == [] {
    } else if s[0] == t[0] == u[0] {
      StringLessTransitive(s[1..], t[1..], u[1..]);
    }
  }

  lemma KeyLessTotal(k: Key, l: Key)
    ensures k == l || KeyLess(k, l) || KeyLess(l, k)
    ensures !(KeyLess(k, l) && KeyLess(l, k)) && !KeyLess(k, k)
  {
    StringLessTotal(k.ctype, l.ctype);
    ScopeLessTotal(k.dist, l.dist);
    ScopeLessTotal(k.arch, l.arch);
    ScopeLessTotal(k.arch, k.arch);
  }

  lemma ScopeLessTotal(s: Scope, t: Scope)
    ensures s == t || ScopeLess(s, t) || ScopeLess(t, s)
    ensures !(ScopeLess(s, t) && ScopeLess(t, s)) && !ScopeLess(s, s)
  {
    if s.Only? && t.Only? {
      StringLessTotal(s.name, t.name);
    }
    if s.Only? {
      StringLessTotal(s.name, s.name);
    }
  }

  lemma ScopeLessTransitive(s: Scope, t: Scope, u: Scope)
    requires ScopeLess(s, t) && ScopeLess(t, u)
    ensures ScopeLess(s, u)
  {
    if s.Only? {
      StringLessTransitive(s.name, t.name, u.name);
    }
  }

  lemma KeyLessTransitive(k: Key, l: Key, m: Key)
    requires KeyLess(k, l) && KeyLess(l, m)
    ensures KeyLess(k, m)
  {
    StringLessTotal(k.ctype, l.ctype);
    ScopeLessTotal(k.dist, l.dist);
    if k.ctype != l.ctype {
      if l.ctype != m.ctype {
        StringLessTransitive(k.ctype, l.ctype, m.ctype);
      }
      StringLessTotal(k.ctype, m.ctype);
    } else if l.ctype != m.ctype {
    } else if k.dist != l.dist {
      if l.dist != m.dist {
        ScopeLessTransitive(k.dist, l.dist, m.dist);
      }
    } else if l.dist != m.dist {
    } else {
      ScopeLessTransitive(k.arch, l.arch, m.arch);
    }
  }

  // ----- sorting -----

  function Insert(c: Comp, cs: seq<Comp>): seq<Comp> {
    if cs == [] || !KeyLess(cs[0].key, c.key) then [c] + cs else [cs[0]] + Insert(c, cs[1..])
  }

  // `sorted` with the order keys; it is stable.
  function Sort(cs: seq<Comp>): seq<Comp> {
    if cs == [] then [] else Insert(cs[0], Sort(cs[1..]))
  }

  // No component has a smaller key than one before it.
  ghost predicate Sorted(cs: seq<Comp>) {
    forall i, j :: 0 <= i < j < |cs| ==> !KeyLess(cs[j].key, cs[i].key)
  }

  lemma {:induction false} InsertSorted(c: Comp, cs: seq<Comp>)
    requires Sorted(cs)
    ensures Sorted(Insert(c, cs)) && multiset(Insert(c, cs)) == multiset(cs) + multiset{c}
  {
    if cs == [] {
    } else if !KeyLess(cs[0].key, c.key) {
      forall j | 0 <= j < |cs|
        ensures !KeyLess(cs[j].key, c.key)
      {
        if KeyLess(cs[j].key, c.key) {
          KeyLessTotal(cs[0].key, cs[j].key);
          if cs[0].key != cs[j].key {
            KeyLessTransitive(cs[0].key, cs[j].key, c.key);
          }
        }
      }
    } else {
      var rest := cs[1..];
      InsertSorted(c, rest);
      assert cs == [cs[0]] + rest;
      forall j | 0 <= j < |Insert(c, rest)|
        ensures !KeyLess(Insert(c, rest)[j].key, cs[0].key)
      {
        var x := Insert(c, rest)[j];
        assert x in multiset(Insert(c, rest));
        assert x in rest || x == c;
        KeyLessTotal(cs[0].key, c.key);
      }
    }
  }

  lemma {:induction false} SortSorted(cs: seq<Comp>)
    ensures Sorted(Sort(cs)) && multiset(Sort(cs)) == multiset(cs)
  {
    if cs == [] {
    } else {
      SortSorted(cs[1..]);
      InsertSorted(cs[0], Sort(cs[1..]));
      assert cs == [cs[0]] + cs[1..];
    }
  }

  // Sorting a sorted list changes nothing.
  lemma {:induction false} SortIdempotent(cs: seq<Comp>)
    requires Sorted(cs)
    ensures Sort(cs) == cs
  {
    if cs == [] {
    } else {
      SortIdempotent(cs[1..]);
      assert cs == [cs[0]] + cs[1..];
      assert |cs| > 1 ==> !KeyLess(cs[1].key, cs[0].key);
    }
  }

  // ----- looking a package up -----

  // The version of package `p` in the last component that has a key in `ks` and lists `p`.
  ghost function Look(cs: seq<Comp>, ks: set<Key>, p: string): Option<string> {
    if cs == [] then None
    else Look(cs[1..], ks, p).Or(if cs[0].key in ks then Get(cs[0].versions, p) else None)
  }

  function Get(m: Versions, p: string): Option<string> {
    if p in m then Some(m[p]) else None
  }

  lemma {:induction false} LookAppend(cs: seq<Comp>, ds: seq<Comp>, ks: set<Key>, p: string)
    ensures Look(cs + ds, ks, p) == Look(ds, ks, p).Or(Look(cs, ks, p))
  {
    if cs == [] {
      assert cs + ds == ds;
    } else {
      LookAppend(cs[1..], ds, ks, p);
      assert (cs + ds)[1..] == cs[1..] + ds;
    }
  }

  lemma LookSnoc(cs: seq<Comp>, c: Comp, ks: set<Key>, p: string)
    ensures Look(cs + [c], ks, p) == (if c.key in ks then Get(c.versions, p) else None).Or(Look(cs, ks, p))
  {
    LookAppend(cs, [c], ks, p);
    assert [c][1..] == [];
  }

  // Only the components with a key in the set matter.
  lemma {:induction false} LookNone(cs: seq<Comp>, ks: set<Key>, p: string)
    requires forall c :: c in cs ==> c.key !in ks
    ensures Look(cs, ks, p) == None
  {
    if cs == [] {
    } else {
      LookNone(cs[1..], ks, p);
    }
  }

  lemma {:induction false} LookInsert(c: Comp, cs: seq<Comp>, k: Key, p: string)
    ensures Look(Insert(c, cs), {k}, p) == Look([c] + cs, {k}, p)
  {
    assert ([c] + cs)[1..] == cs;
    if cs == [] || !KeyLess(cs[0].key, c.key) {
    } else {
      LookInsert(c, cs[1..], k, p);
      assert ([c] + cs[1..])[1..] == cs[1..];
      assert ([cs[0]] + Insert(c, cs[1..]))[1..] == Insert(c, cs[1..]);
      KeyLessTotal(cs[0].key, c.key);
    }
  }

  // Sorting is stable, so it does not change what one key holds.
  lemma {:induction false} LookSort(cs: seq<Comp>, k: Key, p: string)
    ensures Look(Sort(cs), {k}, p) == Look(cs, {k}, p)
  {
    if cs == [] {
    } else {
      LookSort(cs[1..], k, p);
      LookInsert(cs[0], Sort(cs[1..]), k, p);
      assert ([cs[0]] + Sort(cs[1..]))[1..] == Sort(cs[1..]);
    }
  }

  // In a sorted list the larger keys win over the smaller ones.
  lemma {:induction false} LookUnion(cs: seq<Comp>, ks: set<Key>, ls: set<Key>, p: string)
    requires Sorted(cs)
    requires forall k, l :: k in ks && l in ls ==> KeyLess(k, l)
    ensures Look(cs, ks + ls, p) == Look(cs, ls, p).Or(Look(cs, ks, p))
  {
    if cs == [] {
    } else {
      var c, rest := cs[0], cs[1..];
      LookUnion(rest, ks, ls, p);
      KeyLessTotal(c.key, c.key);
      if c.key in ls {
        forall d | d in rest
          ensures d.key !in ks
        {
          var j :| 0 <= j < |rest| && rest[j] == d;
          assert !KeyLess(cs[j + 1].key, cs[0].key);
        }
        LookNone(rest, ks, p);
      }
    }
  }

  // ----- inheritance -----

  // The components a key inherits from (`check_inheritable`), itself included.
  function Bases(k: Key): set<Key> {
    {Key(k.ctype, All, All), Key(k.ctype, All, k.arch), Key(k.ctype, k.dist, All), k}
  }

  predicate Inheritable(k: Key, base: Key) {
    && k.ctype == base.ctype
    && (k.dist == base.dist || base.dist == All)
    && (k.arch == base.arch || base.arch == All)
  }

  lemma BasesAreInheritable(k: Key, base: Key)
    ensures Inheritable(k, base) <==> base in Bases(k)
  {
  }

  // What the components say at `k`: the most specific component wins, and a distribution is more
  // specific than an architecture.
  ghost function Effective(cs: seq<Comp>, k: Key, p: string): Option<string> {
    Look(cs, {k}, p)
    .Or(Look(cs, {Key(k.ctype, k.dist, All)}, p))
    .Or(Look(cs, {Key(k.ctype, All, k.arch)}, p))
    .Or(Look(cs, {Key(k.ctype, All, All)}, p))
  }

  lemma LookBases(cs: seq<Comp>, k: Key, p: string)
    requires Sorted(cs)
    ensures Look(cs, Bases(k), p) == Effective(cs, k, p)
  {
    var a, b, c := Key(k.ctype, All, All), Key(k.ctype, All, k.arch), Key(k.ctype, k.dist, All);
    if k.dist.Only? && k.arch.Only? {
      LookUnion(cs, {a, b, c}, {k}, p);
      assert {a, b, c} + {k} == Bases(k);
      LookUnion(cs, {a, b}, {c}, p);
      assert {a, b} + {c} == {a, b, c};
      LookUnion(cs, {a}, {b}, p);
      assert {a} + {b} == {a, b};
    } else if k != a {
      LookUnion(cs, {a}, {k}, p);
      assert {a} + {k} == Bases(k);
    } else {
      assert {k} == Bases(k);
    }
  }
}
