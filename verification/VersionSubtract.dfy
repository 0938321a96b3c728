/**
 `subtract`: a module drops whatever the default module, or a more general component of its own,
 already says; reading it back over the same default module gives the same versions
 (scripts/versions_manager.py, lines 218-235).
 */
module VersionSubtract {
  import opened Wrappers
  import opened VersionLookup
  import opened VersionAdjust
  import opened VersionExpand

  function SubtractLoop(d: seq<Comp>, done: seq<Comp>, todo: seq<Comp>): seq<Comp>
    decreases |todo|
  {
    if todo == [] then done
    else
      var c := todo[0];
      SubtractLoop(d, done + [c.(versions := Minus(c.versions, Config(d, done, c.key)))], todo[1..])
  }

  function SubtractEach(d: seq<Comp>, s: seq<Comp>, ts: seq<string>): seq<Comp> {
    if ts == [] then []
    else SubtractEach(d, s, ts[..|ts| - 1]) + SubtractGroup(d, Group(s, ts[|ts| - 1]))
  }

  function SubtractGroup(d: seq<Comp>, g: seq<Comp>): seq<Comp> {
    NonEmpty(SubtractLoop(d, [], Sort(g)))
  }

  // `subtract` of the default module `d` from the module `s`
  function Subtract(d: seq<Comp>, s: seq<Comp>): seq<Comp> {
    SubtractEach(d, s, Ctypes(s))
  }

  // What `k` would mean if the module itself listed nothing for exactly `k`.
  ghost function Below(d: seq<Comp>, s: seq<Comp>, k: Key, p: string): Option<string> {
    var general := (if k == Key(k.ctype, All, All) then None else Look(s, {Key(k.ctype, All, All)}, p))
                   .Or(Look(d, {Key(k.ctype, All, All)}, p));
    var byArch := (if k == Key(k.ctype, All, k.arch) then None else Look(s, {Key(k.ctype, All, k.arch)}, p))
                  .Or(Look(d, {Key(k.ctype, All, k.arch)}, p)).Or(general);
    var byDist := Key(k.ctype, k.dist, All);
    var masked :=
      && k.dist.Only? && k.arch.Only? && Look(d, {k}, p) == None && Both(d, s, byDist, p).Some?
      && (if Look(s, {byDist}, p).Some? then Look(s, {byDist}, p) == general else Agree(d, byDist, p, general))
      && byArch != general;
    if masked then byArch
    else Look(d, {k}, p).Or((if k == byDist then None else Look(s, {byDist}, p)).Or(Look(d, {byDist}, p))).Or(byArch)
  }

  lemma MeaningBelow(d: seq<Comp>, s: seq<Comp>, k: Key, p: string)
    ensures Meaning(d, s, k, p) == Look(s, {k}, p).Or(Below(d, s, k, p))
  {
  }

  // What the loop leaves of the key `k`: nothing if all its components repeat what is below,
  // and otherwise the version they ended up with.
  ghost predicate Left(d: seq<Comp>, seen: seq<Comp>, done: seq<Comp>, k: Key, p: string) {
    Look(done, {k}, p) == if Agree(seen, k, p, Below(d, done, k, p)) then None else Look(seen, {k}, p)
  }

  lemma LeftStep(d: seq<Comp>, seen: seq<Comp>, done: seq<Comp>, c: Comp, c': Comp, k: Key, p: string)
    requires Left(d, seen, done, k, p) && CanFollow(seen, c) && CanFollow(done, c) && c'.key == c.key
    requires Get(c'.versions, p) == if Get(c.versions, p) == Meaning(d, done, c.key, p) then None
                                    else Get(c.versions, p)
    ensures Left(d, seen + [c], done + [c'], k, p)
  {
    SnocAt(seen, c, k, p);
    SnocAt(done, c', k, p);
    MeaningBelow(d, done, c.key, p);
    AgreeSnoc(seen, c, k, p, Below(d, done, k, p));
    AgreeLook(seen, k, p, Below(d, done, k, p));
    if c.key != k && c.key in Bases(k) {
      LaterAbsent(seen, c, k, p);
      LaterAbsent(done, c, k, p);
    }
  }

  lemma {:induction false} LeftLoop(d: seq<Comp>, seen: seq<Comp>, done: seq<Comp>, todo: seq<Comp>, k: Key, p: string)
    requires SameKeys(seen, done) && Sorted(seen + todo) && Left(d, seen, done, k, p)
    ensures Left(d, seen + todo, SubtractLoop(d, done, todo), k, p)
    decreases |todo|
  {
    if todo == [] {
      assert seen + todo == seen;
    } else {
      var c := todo[0];
      var c' := c.(versions := Minus(c.versions, Config(d, done, c.key)));
      LeftNext(d, seen, done, todo, c', k, p);
      assert seen + [c] + todo[1..] == seen + todo;
      LeftLoop(d, seen + [c], done + [c'], todo[1..], k, p);
    }
  }

  // One turn of the loop.
  lemma LeftNext(d: seq<Comp>, seen: seq<Comp>, done: seq<Comp>, todo: seq<Comp>, c': Comp, k: Key, p: string)
    requires SameKeys(seen, done) && Sorted(seen + todo) && Left(d, seen, done, k, p) && todo != []
    requires c' == todo[0].(versions := Minus(todo[0].versions, Config(d, done, todo[0].key)))
    ensures SameKeys(seen + [todo[0]], done + [c']) && Left(d, seen + [todo[0]], done + [c'], k, p)
  {
    NextFollows(seen, done, todo);
    ConfigMeaning(d, done, todo[0].key, p);
    LeftStep(d, seen, done, todo[0], c', k, p);
  }

  lemma {:induction false} SubtractKeys(d: seq<Comp>, seen: seq<Comp>, done: seq<Comp>, todo: seq<Comp>)
    requires SameKeys(seen, done)
    ensures SameKeys(seen + todo, SubtractLoop(d, done, todo))
    decreases |todo|
  {
    if todo == [] {
      assert seen + todo == seen;
    } else {
      var c := todo[0];
      assert seen + [c] + todo[1..] == seen + todo;
      SubtractKeys(d, seen + [c], done + [c.(versions := Minus(c.versions, Config(d, done, c.key)))], todo[1..]);
    }
  }

  // ----- the whole module -----

  lemma {:induction false} EachLook(d: seq<Comp>, s: seq<Comp>, ts: seq<string>, k: Key, p: string)
    requires forall i, j :: 0 <= i < j < |ts| ==> ts[i] != ts[j]
    ensures Look(SubtractEach(d, s, ts), {k}, p) == if k.ctype in ts
                                                    then Look(SubtractGroup(d, Group(s, k.ctype)), {k}, p) else None
  {
    if ts == [] {
    } else {
      var init, t := ts[..|ts| - 1], ts[|ts| - 1];
      EachLook(d, s, init, k, p);
      LookAppend(SubtractEach(d, s, init), SubtractGroup(d, Group(s, t)), {k}, p);
      assert k.ctype in ts <==> k.ctype in init || k.ctype == t;
      assert t !in init;
      if k.ctype != t {
        OtherType(d, s, t, k, p);
      }
    }
  }

  lemma OtherType(d: seq<Comp>, s: seq<Comp>, t: string, k: Key, p: string)
    requires k.ctype != t
    ensures Look(SubtractGroup(d, Group(s, t)), {k}, p) == None
  {
    var r := SubtractLoop(d, [], Sort(Group(s, t)));
    forall c | c in r ensures c.key !in {k} {
      OneType(d, s, t, c);
    }
    LookNone(r, {k}, p);
    NonEmptyLook(r, {k}, p);
  }

  // The loop over the group of a type leaves components of that type.
  lemma OneType(d: seq<Comp>, s: seq<Comp>, t: string, c: Comp)
    requires c in SubtractLoop(d, [], Sort(Group(s, t)))
    ensures c.key.ctype == t
  {
    var g := Sort(Group(s, t));
    var r := SubtractLoop(d, [], g);
    SubtractKeys(d, [], [], g);
    assert [] + g == g;
    var i :| 0 <= i < |r| && r[i] == c;
    assert g[i] in g;
    SortMembers(Group(s, t));
    GroupMembers(s, t);
  }

  lemma SubtractLook(d: seq<Comp>, s: seq<Comp>, k: Key, p: string)
    ensures Look(Subtract(d, s), {k}, p) == Look(SubtractLoop(d, [], Sort(Group(s, k.ctype))), {k}, p)
  {
    CtypesMembers(s);
    EachLook(d, s, Ctypes(s), k, p);
    NonEmptyLook(SubtractLoop(d, [], Sort(Group(s, k.ctype))), {k}, p);
    if k.ctype !in Ctypes(s) {
      EmptyGroup(s, k.ctype);
    }
  }

  lemma GroupAgree(s: seq<Comp>, k: Key, p: string, v: Option<string>)
    ensures Agree(Sort(Group(s, k.ctype)), k, p, v) <==> Agree(s, k, p, v)
  {
    SortMembers(Group(s, k.ctype));
    GroupMembers(s, k.ctype);
  }

  lemma LeftGroup(d: seq<Comp>, g: seq<Comp>, k: Key, p: string)
    requires Sorted(g)
    ensures Left(d, g, SubtractLoop(d, [], g), k, p)
  {
    assert [] + g == g;
    LeftLoop(d, [], [], g, k, p);
  }

  lemma SameLeft(d: seq<Comp>, g: seq<Comp>, r: seq<Comp>, s: seq<Comp>, r': seq<Comp>, k: Key, p: string)
    requires Left(d, g, r, k, p)
    requires Look(g, {k}, p) == Look(s, {k}, p) && Look(r, {k}, p) == Look(r', {k}, p)
    requires Below(d, r, k, p) == Below(d, r', k, p)
    requires Agree(g, k, p, Below(d, r, k, p)) <==> Agree(s, k, p, Below(d, r, k, p))
    ensures Left(d, s, r', k, p)
  {
  }

  lemma SubtractBelow(d: seq<Comp>, s: seq<Comp>, k: Key, p: string)
    ensures Below(d, SubtractLoop(d, [], Sort(Group(s, k.ctype))), k, p) == Below(d, Subtract(d, s), k, p)
  {
    var r := SubtractLoop(d, [], Sort(Group(s, k.ctype)));
    var r' := Subtract(d, s);
    SubtractLook(d, s, Key(k.ctype, All, All), p);
    SubtractLook(d, s, Key(k.ctype, All, k.arch), p);
    SubtractLook(d, s, Key(k.ctype, k.dist, All), p);
    SameBelow(d, r, r', k, p);
  }

  lemma SortedGroupLook(s: seq<Comp>, k: Key, p: string)
    ensures Look(Sort(Group(s, k.ctype)), {k}, p) == Look(s, {k}, p)
  {
    LookSort(Group(s, k.ctype), k, p);
    GroupLook(s, k, p);
  }

  // `Left` of the whole module.
  lemma SubtractLeft(d: seq<Comp>, s: seq<Comp>, k: Key, p: string)
    ensures Left(d, s, Subtract(d, s), k, p)
  {
    var g := Sort(Group(s, k.ctype));
    var r := SubtractLoop(d, [], g);
    assert Sorted(g) by {
      SortSorted(Group(s, k.ctype));
    }
    LeftGroup(d, g, k, p);
    SubtractBelow(d, s, k, p);
    SortedGroupLook(s, k, p);
    SubtractLook(d, s, k, p);
    GroupAgree(s, k, p, Below(d, r, k, p));
    SameLeft(d, g, r, s, Subtract(d, s), k, p);
  }

  lemma SameBelow(d: seq<Comp>, s: seq<Comp>, r: seq<Comp>, k: Key, p: string)
    requires Look(s, {Key(k.ctype, All, All)}, p) == Look(r, {Key(k.ctype, All, All)}, p)
    requires Look(s, {Key(k.ctype, All, k.arch)}, p) == Look(r, {Key(k.ctype, All, k.arch)}, p)
    requires Look(s, {Key(k.ctype, k.dist, All)}, p) == Look(r, {Key(k.ctype, k.dist, All)}, p)
    ensures Below(d, s, k, p) == Below(d, r, k, p)
  {
  }

  // ----- compressing keeps the meaning -----

  // The only case in which it does not: the default module lists `p` twice for the same
  // distribution with different versions, the last one repeats the general version, and so do all
  // the module's components for that distribution, while the architecture's version differs.
  ghost predicate Lossy(d: seq<Comp>, s: seq<Comp>, k: Key, p: string) {
    var general := Both(d, s, Key(k.ctype, All, All), p);
    var byDist := Key(k.ctype, k.dist, All);
    && k.dist.Only? && k.arch.Only?
    && Both(d, s, k, p) == None
    && Look(s, {byDist}, p).Some? && Look(s, {byDist}, p) == Look(d, {byDist}, p) == general
    && Agree(s, byDist, p, general) && !Agree(d, byDist, p, general)
    && Both(d, s, Key(k.ctype, All, k.arch), p).Or(general) != general
  }

  // The keys less specific than `k` keep their meaning.
  lemma GeneralKept(d: seq<Comp>, s: seq<Comp>, r: seq<Comp>, k: Key, p: string)
    requires Left(d, s, r, k, p) && Left(d, s, r, Key(k.ctype, All, All), p)
    requires k.dist == All || k.arch == All
    ensures Meaning(d, r, k, p) == Meaning(d, s, k, p)
  {
    var a := Key(k.ctype, All, All);
    AgreeLook(s, a, p, Below(d, r, a, p));
    AgreeLook(s, k, p, Below(d, r, k, p));
  }

  lemma LeftMeaning(d: seq<Comp>, s: seq<Comp>, r: seq<Comp>, k: Key, p: string)
    requires Left(d, s, r, k, p) && Left(d, s, r, Key(k.ctype, k.dist, All), p)
    requires Left(d, s, r, Key(k.ctype, All, k.arch), p) && Left(d, s, r, Key(k.ctype, All, All), p)
    ensures Meaning(d, r, k, p) == Meaning(d, s, k, p) <==> !Lossy(d, s, k, p)
  {
    var a, b, c := Key(k.ctype, All, All), Key(k.ctype, All, k.arch), Key(k.ctype, k.dist, All);
    GeneralKept(d, s, r, a, p);
    GeneralKept(d, s, r, b, p);
    GeneralKept(d, s, r, c, p);
    if k.dist == All || k.arch == All {
      GeneralKept(d, s, r, k, p);
    } else {
      AgreeLook(s, k, p, Below(d, r, k, p));
      AgreeLook(s, c, p, Below(d, r, c, p));
      AgreeLook(d, c, p, Both(d, s, a, p));
    }
  }

  // After `subtract` the module means the same over the default module, for every key and
  // package, except in the `Lossy` case.
  lemma SubtractKeepsMeaning(d: seq<Comp>, s: seq<Comp>, k: Key, p: string)
    ensures Get(Config(d, Subtract(d, s), k), p) == Get(Config(d, s, k), p) <==> !Lossy(d, s, k, p)
  {
    ConfigMeaning(d, s, k, p);
    ConfigMeaning(d, Subtract(d, s), k, p);
    SubtractLeft(d, s, k, p);
    SubtractLeft(d, s, Key(k.ctype, k.dist, All), p);
    SubtractLeft(d, s, Key(k.ctype, All, k.arch), p);
    SubtractLeft(d, s, Key(k.ctype, All, All), p);
    LeftMeaning(d, s, Subtract(d, s), k, p);
  }

  // No two components of the module have the same key.
  ghost predicate UniqueKeys(d: seq<Comp>) {
    forall i, j :: 0 <= i < j < |d| ==> d[i].key != d[j].key
  }

  lemma {:induction false} UniqueAgree(d: seq<Comp>, k: Key, p: string)
    requires UniqueKeys(d)
    ensures Agree(d, k, p, Look(d, {k}, p))
  {
    if d == [] {
    } else {
      UniqueAgree(d[1..], k, p);
      if d[0].key == k {
        LookNone(d[1..], {k}, p);
      }
      assert d == [d[0]] + d[1..];
    }
  }

  // Over a default module without duplicate keys, `subtract` loses nothing at all.
  lemma SubtractIsLossless(d: seq<Comp>, s: seq<Comp>, k: Key)
    requires UniqueKeys(d)
    ensures Config(d, Subtract(d, s), k) == Config(d, s, k)
  {
    forall p
      ensures Get(Config(d, Subtract(d, s), k), p) == Get(Config(d, s, k), p)
    {
      SubtractKeepsMeaning(d, s, k, p);
      UniqueAgree(d, Key(k.ctype, k.dist, All), p);
    }
    SameVersions(Config(d, Subtract(d, s), k), Config(d, s, k));
  }

  // ----- examples -----

  lemma LookOf(c: Comp, rest: seq<Comp>, ks: set<Key>, p: string)
    ensures Look([c] + rest, ks, p) == Look(rest, ks, p).Or(if c.key in ks then Get(c.versions, p) else None)
  {
    assert ([c] + rest)[1..] == rest;
  }

  lemma LookThree(a: Comp, b: Comp, c: Comp, l: Key, p: string)
    ensures Look([a, b, c], {l}, p) ==
            (if c.key == l then Get(c.versions, p) else None)
            .Or(if b.key == l then Get(b.versions, p) else None).Or(if a.key == l then Get(a.versions, p) else None)
  {
    assert [a, b, c] == [a] + ([b] + ([c] + []));
    LookOf(a, [b] + ([c] + []), {l}, p);
    LookOf(b, [c] + [], {l}, p);
    LookOf(c, [], {l}, p);
  }

  lemma LookTwo(a: Comp, b: Comp, l: Key, p: string)
    ensures Look([a, b], {l}, p) ==
            (if b.key == l then Get(b.versions, p) else None).Or(if a.key == l then Get(a.versions, p) else None)
  {
    assert [a, b] == [a] + ([b] + []);
    LookOf(a, [b] + [], {l}, p);
    LookOf(b, [], {l}, p);
  }

  // The smallest diamond: `adjust` changes the version at (dist, arch) from `x` to `y`.
  lemma DiamondExample(t: string, dist: string, arch: string, p: string, x: string, y: string)
    requires x != y
    ensures var k := Key(t, Only(dist), Only(arch));
            var cs := [Comp(Key(t, All, All), map[p := x]), Comp(Key(t, All, Only(arch)), map[p := y]),
                       Comp(Key(t, Only(dist), All), map[p := x])];
            Effective(cs, k, p) == Some(x) && Effective(Adjust(cs), k, p) == Some(y)
  {
    var k := Key(t, Only(dist), Only(arch));
    var a, b, c := Comp(Key(t, All, All), map[p := x]), Comp(Key(t, All, Only(arch)), map[p := y]),
                   Comp(Key(t, Only(dist), All), map[p := x]);
    forall l
      ensures Look([a, b, c], {l}, p) == if l == c.key || l == a.key then Some(x) else if l == b.key then Some(y)
                                         else None
    {
      LookThree(a, b, c, l, p);
    }
    AdjustMeaning([a, b, c], k, p);
  }

  // A default module that lists a distribution twice can lose a version.
  lemma LossyExample(t: string, dist: string, arch: string, p: string, x: string, y: string, z: string)
    requires x != y && x != z
    ensures var k := Key(t, Only(dist), Only(arch));
            var d := [Comp(Key(t, Only(dist), All), map[p := z]), Comp(Key(t, Only(dist), All), map[p := x])];
            var s := [Comp(Key(t, All, All), map[p := x]), Comp(Key(t, All, Only(arch)), map[p := y]),
                      Comp(Key(t, Only(dist), All), map[p := x])];
            !UniqueKeys(d) && Get(Config(d, Subtract(d, s), k), p) != Get(Config(d, s, k), p)
  {
    var k := Key(t, Only(dist), Only(arch));
    var a, b, c := Comp(Key(t, All, All), map[p := x]), Comp(Key(t, All, Only(arch)), map[p := y]),
                   Comp(Key(t, Only(dist), All), map[p := x]);
    var e := Comp(Key(t, Only(dist), All), map[p := z]);
    var d, s := [e, c], [a, b, c];
    forall l
      ensures Look(s, {l}, p) == if l == c.key || l == a.key then Some(x) else if l == b.key then Some(y) else None
      ensures Look(d, {l}, p) == if l == c.key then Some(x) else None
    {
      LookThree(a, b, c, l, p);
      LookTwo(e, c, l, p);
    }
    assert Lossy(d, s, k, p) by {
      assert e in d && p in e.versions;
    }
    assert d[0].key == d[1].key;
    SubtractKeepsMeaning(d, s, k, p);
  }
}
