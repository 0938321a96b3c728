/**
 `overwrite` with its flags: a component is merged into every component of its scope, where the flag
 for all distributions, or for all architectures, widens the scope to the general ones
 (scripts/versions_manager.py, lines 96-103, 142-147 and 161-175).
 */
module VersionOverwrite {
  import opened Wrappers
  import opened VersionLookup
  import opened VersionAdjust
  import opened VersionExpand

  function Scopes(s: Scope, forAll: bool): set<Scope> {
    if forAll then {s, All} else {s}
  }

  // The key lies in the scope of `m`.
  predicate Covered(k: Key, m: Key, allDist: bool, allArch: bool) {
    k.ctype == m.ctype && k.dist in Scopes(m.dist, allDist) && k.arch in Scopes(m.arch, allArch)
  }

  predicate AnyCovered(cs: seq<Comp>, m: Key, allDist: bool, allArch: bool) {
    exists i :: 0 <= i < |cs| && Covered(cs[i].key, m, allDist, allArch)
  }

  // The key under which a component is added when it can be merged into none.
  function AddedKey(m: Key, allDist: bool, allArch: bool): Key {
    Key(m.ctype, if allDist && m.ctype != "deb" then All else m.dist, if allArch then All else m.arch)
  }

  // ----- one component -----

  // What a component holds after `m` was merged in.
  function Taking(c: Comp, m: Comp, allDist: bool, allArch: bool): Comp {
    if Covered(c.key, m.key, allDist, allArch) then Comp(c.key, c.versions + m.versions) else c
  }

  lemma {:induction false} MergeIntoAt(cs: seq<Comp>, m: Comp, allDist: bool, allArch: bool)
    ensures var r := MergeInto(cs, m, allDist, allArch);
            |r| == |cs| && forall i :: 0 <= i < |cs| ==> r[i] == Taking(cs[i], m, allDist, allArch)
  {
    if cs != [] {
      MergeIntoAt(cs[..|cs| - 1], m, allDist, allArch);
    }
  }

  lemma {:induction false} HasMatchIff(cs: seq<Comp>, m: Comp, allDist: bool, allArch: bool)
    ensures HasMatch(cs, m, allDist, allArch) <==> AnyCovered(cs, m.key, allDist, allArch)
  {
    if cs != [] {
      var front := cs[..|cs| - 1];
      HasMatchIff(front, m, allDist, allArch);
      if AnyCovered(front, m.key, allDist, allArch) {
        var i :| 0 <= i < |front| && Covered(front[i].key, m.key, allDist, allArch);
        assert Covered(cs[i].key, m.key, allDist, allArch);
      }
      if AnyCovered(cs, m.key, allDist, allArch) {
        var i :| 0 <= i < |cs| && Covered(cs[i].key, m.key, allDist, allArch);
        assert i < |cs| - 1 ==> Covered(front[i].key, m.key, allDist, allArch);
      }
    }
  }

  // Whatever the flags, the components in scope take the versions of `m` and the others stay; only
  // when there is none in scope, `m` is added, under a key made general as the flags say.
  lemma OverwriteOneAt(cs: seq<Comp>, m: Comp, allDist: bool, allArch: bool)
    ensures var r := OverwriteOne(cs, m, allDist, allArch);
            && |r| == (if AnyCovered(cs, m.key, allDist, allArch) then |cs| else |cs| + 1)
            && (forall i :: 0 <= i < |cs| ==> r[i] == Taking(cs[i], m, allDist, allArch))
            && (|cs| < |r| ==> r[|cs|] == Comp(AddedKey(m.key, allDist, allArch), m.versions))
  {
    HasMatchIff(cs, m, allDist, allArch);
    MergeIntoAt(cs, m, allDist, allArch);
    if !AnyCovered(cs, m.key, allDist, allArch) {
      forall i | 0 <= i < |cs| ensures Taking(cs[i], m, allDist, allArch) == cs[i] {
        assert !Covered(cs[i].key, m.key, allDist, allArch);
      }
    }
  }

  // ----- the loop -----

  // The version of `p` in the last component of which the key is in scope.
  function LastOver(todo: seq<Comp>, k: Key, p: string, allDist: bool, allArch: bool): Option<string>
    decreases |todo|
  {
    if todo == [] then None
    else
      LastOver(todo[1..], k, p, allDist, allArch).Or(
        if Covered(k, todo[0].key, allDist, allArch) then Get(todo[0].versions, p) else None)
  }

  // After the loop every component that was there lists, for each package, the version of the last
  // overwriting component of its scope that has one, and else its own.
  lemma {:induction false} OverwriteLoopAt(cs: seq<Comp>, todo: seq<Comp>, allDist: bool, allArch: bool, i: nat,
                                           p: string)
    requires i < |cs|
    ensures var r := OverwriteLoop(cs, todo, allDist, allArch);
            && |cs| <= |r| && r[i].key == cs[i].key
            && Get(r[i].versions, p) == LastOver(todo, cs[i].key, p, allDist, allArch).Or(Get(cs[i].versions, p))
    decreases |todo|
  {
    if todo != [] {
      OverwriteOneAt(cs, todo[0], allDist, allArch);
      OverwriteLoopAt(OverwriteOne(cs, todo[0], allDist, allArch), todo[1..], allDist, allArch, i, p);
    }
  }

  // ----- both flags: the overwriting module decides -----

  // The package has one version in all components that the key inherits from, and is in some.
  ghost predicate Settled(cs: seq<Comp>, k: Key, p: string, v: string) {
    && (forall i :: 0 <= i < |cs| && Gives(cs[i], k, p) ==> cs[i].versions[p] == v)
    && exists i :: 0 <= i < |cs| && Gives(cs[i], k, p)
  }

  // The key inherits the package from the component.
  ghost predicate Gives(c: Comp, k: Key, p: string) {
    c.key in Bases(k) && p in c.versions
  }

  lemma {:induction false} OneVersion(cs: seq<Comp>, l: Key, p: string, v: string)
    requires forall i :: 0 <= i < |cs| && cs[i].key == l && p in cs[i].versions ==> cs[i].versions[p] == v
    ensures Look(cs, {l}, p) in {None, Some(v)}
    ensures (exists i :: 0 <= i < |cs| && cs[i].key == l && p in cs[i].versions) ==> Look(cs, {l}, p) == Some(v)
  {
    if cs != [] {
      assert forall i :: 0 <= i < |cs| - 1 ==> cs[1..][i] == cs[i + 1];
      OneVersion(cs[1..], l, p, v);
      if i :| 0 < i < |cs| && cs[i].key == l && p in cs[i].versions {
        assert cs[1..][i - 1] == cs[i];
      }
    }
  }

  lemma SettledMeaning(cs: seq<Comp>, k: Key, p: string, v: string)
    requires Settled(cs, k, p, v)
    ensures Effective(cs, k, p) == Some(v) && !Masked(cs, k, p)
  {
    assert forall i :: 0 <= i < |cs| && cs[i].key in Bases(k) && p in cs[i].versions ==> Gives(cs[i], k, p);
    OneVersion(cs, k, p, v);
    OneVersion(cs, Key(k.ctype, k.dist, All), p, v);
    OneVersion(cs, Key(k.ctype, All, k.arch), p, v);
    OneVersion(cs, Key(k.ctype, All, All), p, v);
    AgreeLook(cs, Key(k.ctype, k.dist, All), p, Look(cs, {Key(k.ctype, All, All)}, p));
  }

  lemma SettledByOne(cs: seq<Comp>, m: Comp, p: string)
    requires p in m.versions
    ensures Settled(OverwriteOne(cs, m, true, true), m.key, p, m.versions[p])
  {
    var r := OverwriteOne(cs, m, true, true);
    OverwriteOneAt(cs, m, true, true);
    if AnyCovered(cs, m.key, true, true) {
      var i :| 0 <= i < |cs| && Covered(cs[i].key, m.key, true, true);
      assert Gives(r[i], m.key, p);
    } else {
      assert Gives(r[|cs|], m.key, p);
    }
  }

  lemma TakingSettled(b: Comp, c: Comp, allDist: bool, allArch: bool, k: Key, p: string, v: string)
    requires Gives(b, k, p) ==> b.versions[p] == v
    requires c.key.ctype == k.ctype && p in c.versions ==> c.versions[p] == v
    ensures Gives(b, k, p) ==> Gives(Taking(b, c, allDist, allArch), k, p)
    ensures Gives(Taking(b, c, allDist, allArch), k, p) ==> Taking(b, c, allDist, allArch).versions[p] == v
  {
  }

  // Components that list no other version of the package do not unsettle it.
  lemma StaysSettled(cs: seq<Comp>, c: Comp, allDist: bool, allArch: bool, k: Key, p: string, v: string)
    requires Settled(cs, k, p, v) && (c.key.ctype == k.ctype && p in c.versions ==> c.versions[p] == v)
    ensures Settled(OverwriteOne(cs, c, allDist, allArch), k, p, v)
  {
    var r := OverwriteOne(cs, c, allDist, allArch);
    OverwriteOneAt(cs, c, allDist, allArch);
    var i :| 0 <= i < |cs| && Gives(cs[i], k, p);
    TakingSettled(cs[i], c, allDist, allArch, k, p, v);
    assert Gives(r[i], k, p);
    forall j | 0 <= j < |r| && Gives(r[j], k, p) ensures r[j].versions[p] == v {
      if j < |cs| {
        TakingSettled(cs[j], c, allDist, allArch, k, p, v);
      }
    }
  }

  ghost predicate OneVersionIn(cs: seq<Comp>, t: string, p: string, v: string) {
    forall i :: 0 <= i < |cs| && cs[i].key.ctype == t && p in cs[i].versions ==> cs[i].versions[p] == v
  }

  lemma {:induction false} LoopKeepsSettled(cs: seq<Comp>, todo: seq<Comp>, allDist: bool, allArch: bool, k: Key,
                                            p: string,
                                            v: string)
    requires Settled(cs, k, p, v) && OneVersionIn(todo, k.ctype, p, v)
    ensures Settled(OverwriteLoop(cs, todo, allDist, allArch), k, p, v)
    decreases |todo|
  {
    if todo != [] {
      StaysSettled(cs, todo[0], allDist, allArch, k, p, v);
      LoopKeepsSettled(OverwriteOne(cs, todo[0], allDist, allArch), todo[1..], allDist, allArch, k, p, v);
    }
  }

  lemma {:induction false} LoopSettles(cs: seq<Comp>, todo: seq<Comp>, i: nat, p: string)
    requires i < |todo| && p in todo[i].versions && OneVersionIn(todo, todo[i].key.ctype, p, todo[i].versions[p])
    ensures Settled(OverwriteLoop(cs, todo, true, true), todo[i].key, p, todo[i].versions[p])
    decreases |todo|
  {
    var next := OverwriteOne(cs, todo[0], true, true);
    if i == 0 {
      SettledByOne(cs, todo[0], p);
      LoopKeepsSettled(next, todo[1..], true, true, todo[0].key, p, todo[0].versions[p]);
    } else {
      LoopSettles(next, todo[1..], i - 1, p);
    }
  }

  // Freezing: overwritten for all distributions and architectures, and adjusted, a module gives every
  // package the version of the overwriting module at the key that lists it, whatever it held, as
  // long as the overwriting module lists one version of the package for the type.
  lemma FrozenVersion(cs: seq<Comp>, over: seq<Comp>, m: Comp, p: string)
    requires m in over && p in m.versions && OneVersionIn(over, m.key.ctype, p, m.versions[p])
    ensures Effective(Overwrite(cs, over, true, true), m.key, p) == Some(m.versions[p])
  {
    var todo, v := Sort(over), m.versions[p];
    SortMembers(over);
    var i :| 0 <= i < |todo| && todo[i] == m;
    forall j | 0 <= j < |todo| && todo[j].key.ctype == m.key.ctype && p in todo[j].versions
      ensures todo[j].versions[p] == v
    {
      assert todo[j] in todo;
      var n :| 0 <= n < |over| && over[n] == todo[j];
    }
    LoopSettles(cs, todo, i, p);
    var o := OverwriteLoop(cs, todo, true, true);
    SettledMeaning(o, m.key, p, v);
    AdjustMeaning(o, m.key, p);
  }

  // ----- one flag alone -----

  lemma {:induction false} MergedLook(cs: seq<Comp>, m: Comp, allDist: bool, allArch: bool, l: Key, p: string)
    requires p in m.versions
    ensures Look(MergeInto(cs, m, allDist, allArch), {l}, p)
         == if Covered(l, m.key, allDist, allArch) && HasKey(cs, l) then Some(m.versions[p]) else Look(cs, {l}, p)
  {
    if cs != [] {
      var front, c := cs[..|cs| - 1], cs[|cs| - 1];
      MergedLook(front, m, allDist, allArch, l, p);
      MergeIntoAt(cs, m, allDist, allArch);
      var r := MergeInto(cs, m, allDist, allArch);
      LookSnoc(front, c, {l}, p);
      LookSnoc(MergeInto(front, m, allDist, allArch), r[|cs| - 1], {l}, p);
      assert cs == front + [c] && r == MergeInto(front, m, allDist, allArch) + [r[|cs| - 1]];
      assert HasKey(cs, l) <==> HasKey(front, l) || c.key == l;
      if !HasKey(front, l) {
        LookNone(front, {l}, p);
      }
    }
  }

  predicate HasKey(cs: seq<Comp>, l: Key) {
    exists c :: c in cs && c.key == l
  }

  // What one step of overwriting leaves at a key, for a package that `m` lists.
  lemma StepLook(cs: seq<Comp>, m: Comp, allDist: bool, allArch: bool, l: Key, p: string)
    requires p in m.versions
    ensures Look(OverwriteOne(cs, m, allDist, allArch), {l}, p)
         == if AnyCovered(cs, m.key, allDist, allArch)
            then (if Covered(l, m.key, allDist, allArch)
                     && HasKey(cs, l) then Some(m.versions[p]) else Look(cs, {l}, p))
            else (if l == AddedKey(m.key, allDist, allArch) then Some(m.versions[p]) else Look(cs, {l}, p))
  {
    HasMatchIff(cs, m, allDist, allArch);
    OverwriteOneAt(cs, m, allDist, allArch);
    if AnyCovered(cs, m.key, allDist, allArch) {
      MergedLook(cs, m, allDist, allArch, l, p);
    } else {
      var added := Comp(AddedKey(m.key, allDist, allArch), m.versions);
      LookSnoc(cs, added, {l}, p);
      assert OverwriteOne(cs, m, allDist, allArch) == cs + [added];
    }
  }

  // The version went to the general distribution, below an entry for the distribution itself.
  ghost predicate Hidden(cs: seq<Comp>, m: Comp, p: string)
    requires p in m.versions
  {
    && m.key.dist.Only? && m.key.arch.Only? && !HasKey(cs, m.key)
    && (m.key.ctype == "deb" ==> HasKey(cs, Key(m.key.ctype, All, m.key.arch)))
    && Look(cs, {Key(m.key.ctype, m.key.dist, All)}, p) !in {None, Some(m.versions[p])}
  }

  // One step makes the version of `m` the effective one at its key, with every flag but one: for all
  // distributions and not all architectures, it does so exactly when the version is not hidden.
  lemma StepTakes(cs: seq<Comp>, m: Comp, allDist: bool, allArch: bool, p: string)
    requires p in m.versions
    ensures Effective(OverwriteOne(cs, m, allDist, allArch), m.key, p) == Some(m.versions[p])
       <==> !(allDist && !allArch && Hidden(cs, m, p))
  {
    var k := m.key;
    StepLook(cs, m, allDist, allArch, k, p);
    StepLook(cs, m, allDist, allArch, Key(k.ctype, k.dist, All), p);
    StepLook(cs, m, allDist, allArch, Key(k.ctype, All, k.arch), p);
    StepLook(cs, m, allDist, allArch, Key(k.ctype, All, All), p);
    AnyOfFour(cs, k, allDist, allArch);
    NoKeyNoLook(cs, k, p);
    NoKeyNoLook(cs, Key(k.ctype, k.dist, All), p);
    NoKeyNoLook(cs, Key(k.ctype, All, k.arch), p);
    NoKeyNoLook(cs, Key(k.ctype, All, All), p);
  }

  lemma NoKeyNoLook(cs: seq<Comp>, l: Key, p: string)
    ensures !HasKey(cs, l) ==> Look(cs, {l}, p) == None
  {
    if !HasKey(cs, l) {
      LookNone(cs, {l}, p);
    }
  }

  lemma AnyOfFour(cs: seq<Comp>, k: Key, allDist: bool, allArch: bool)
    ensures AnyCovered(cs, k, allDist, allArch)
       <==> || HasKey(cs, k) || (allArch && HasKey(cs, Key(k.ctype, k.dist, All)))
            || (allDist && HasKey(cs, Key(k.ctype, All, k.arch)))
            || (allDist && allArch && HasKey(cs, Key(k.ctype, All, All)))
  {
    if AnyCovered(cs, k, allDist, allArch) {
      var i :| 0 <= i < |cs| && Covered(cs[i].key, k, allDist, allArch);
      assert cs[i] in cs;
    }
    forall l | Covered(l, k, allDist, allArch) && HasKey(cs, l) ensures AnyCovered(cs, k, allDist, allArch) {
      var c :| c in cs && c.key == l;
      var i :| 0 <= i < |cs| && cs[i] == c;
      assert Covered(cs[i].key, k, allDist, allArch);
    }
    assert Covered(k, k, allDist, allArch);
    assert allArch ==> Covered(Key(k.ctype, k.dist, All), k, allDist, allArch);
    assert allDist ==> Covered(Key(k.ctype, All, k.arch), k, allDist, allArch);
    assert allDist && allArch ==> Covered(Key(k.ctype, All, All), k, allDist, allArch);
  }

  // For all distributions, but not all architectures: the new version goes to (all, arch), and the
  // old one at (dist, all) stays in force.
  lemma HiddenExample()
    ensures var d, a := Only("buster"), Only("amd64");
            var cs, m := [Comp(Key("py", d, All), map["p" := "1"])], Comp(Key("py", d, a), map["p" := "2"]);
            Effective(OverwriteOne(cs, m, true, false), m.key, "p") == Some("1")
  {
    var d, a := Only("buster"), Only("amd64");
    var k := Key("py", d, a);
    var cs, m := [Comp(Key("py", d, All), map["p" := "1"])], Comp(k, map["p" := "2"]);
    assert cs[1..] == [];
    StepLook(cs, m, true, false, k, "p");
    StepLook(cs, m, true, false, Key("py", d, All), "p");
    assert !Covered(cs[0].key, k, true, false);
  }
}
