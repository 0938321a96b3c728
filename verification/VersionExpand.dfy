/**
 `overwrite` and `_get_config_module`: a module is laid over a default module, and the result is
 read at one distribution and architecture (scripts/versions_manager.py, lines 161-216).
 */
module VersionExpand {
  import opened Wrappers
  import opened VersionLookup
  import opened VersionAdjust

  // `check_overwritable`: `k` can be overwritten by `over`.
  predicate Overwritable(k: Key, over: Key, allDist: bool, allArch: bool) {
    && k.ctype == over.ctype
    && (k.dist == over.dist || (allDist && k.dist == All))
    && (k.arch == over.arch || (allArch && k.arch == All))
  }

  // `clean_info`
  function CleanKey(k: Key, cleanDist: bool, cleanArch: bool, force: bool): Key {
    Key(k.ctype, if cleanDist && (force || k.ctype != "deb") then All else k.dist, if cleanArch then All else k.arch)
  }

  predicate HasMatch(cs: seq<Comp>, over: Comp, allDist: bool, allArch: bool) {
    cs != [] && (Overwritable(cs[|cs| - 1].key, over.key, allDist, allArch)
                 || HasMatch(cs[..|cs| - 1], over, allDist, allArch))
  }

  function MergeInto(cs: seq<Comp>, over: Comp, allDist: bool, allArch: bool): seq<Comp> {
    if cs == [] then []
    else
      var c := cs[|cs| - 1];
      MergeInto(cs[..|cs| - 1], over, allDist, allArch)
      + [if Overwritable(c.key, over.key, allDist, allArch) then c.(versions := c.versions + over.versions) else c]
  }

  function OverwriteOne(cs: seq<Comp>, over: Comp, allDist: bool, allArch: bool): seq<Comp> {
    if HasMatch(cs, over, allDist, allArch) then MergeInto(cs, over, allDist, allArch)
    else cs + [over.(key := CleanKey(over.key, allDist, allArch, false))]
  }

  function OverwriteLoop(cs: seq<Comp>, todo: seq<Comp>, allDist: bool, allArch: bool): seq<Comp>
    decreases |todo|
  {
    if todo == [] then cs
    else OverwriteLoop(OverwriteOne(cs, todo[0], allDist, allArch), todo[1..], allDist, allArch)
  }

  // `overwrite`
  function Overwrite(cs: seq<Comp>, over: seq<Comp>, allDist: bool, allArch: bool): seq<Comp> {
    Adjust(OverwriteLoop(cs, Sort(over), allDist, allArch))
  }

  // `_get_config_for_ctype`
  function ConfigGroup(g: seq<Comp>, k: Key): Versions {
    Inherited(Sort(g), k)
  }

  function ConfigEach(cs: seq<Comp>, ts: seq<string>, dist: Scope, arch: Scope): seq<Comp> {
    if ts == [] then []
    else
      var t := ts[|ts| - 1];
      ConfigEach(cs, ts[..|ts| - 1], dist, arch) + [Comp(Key(t, dist, arch),
                                                         ConfigGroup(Group(cs, t), Key(t, dist, arch)))]
  }

  // `_get_config_module` of the module `s` over the default module `d`
  function ConfigModule(d: seq<Comp>, s: seq<Comp>, dist: Scope, arch: Scope): seq<Comp> {
    var o := Overwrite(d, s, false, false);
    ConfigEach(o, Ctypes(o), dist, arch)
  }

  // The versions of one ctype in the config module.
  function Config(d: seq<Comp>, s: seq<Comp>, k: Key): Versions {
    ConfigGroup(Group(Overwrite(d, s, false, false), k.ctype), k)
  }

  // ----- what the config module holds -----

  lemma {:induction false} ConfigEachLook(cs: seq<Comp>, ts: seq<string>, k: Key, p: string)
    requires forall i, j :: 0 <= i < j < |ts| ==> ts[i] != ts[j]
    ensures Look(ConfigEach(cs, ts, k.dist, k.arch), {k}, p) ==
            if k.ctype in ts then Get(ConfigGroup(Group(cs, k.ctype), k), p) else None
  {
    if ts == [] {
    } else {
      var init, t := ts[..|ts| - 1], ts[|ts| - 1];
      ConfigEachLook(cs, init, k, p);
      var l := Key(t, k.dist, k.arch);
      LookSnoc(ConfigEach(cs, init, k.dist, k.arch), Comp(l, ConfigGroup(Group(cs, t), l)), {k}, p);
      assert ts == init + [t];
    }
  }

  // The config module lists, for each ctype, exactly the versions of `Config`.
  lemma ConfigModuleLook(d: seq<Comp>, s: seq<Comp>, k: Key, p: string)
    ensures Look(ConfigModule(d, s, k.dist, k.arch), {k}, p) == Get(Config(d, s, k), p)
  {
    var o := Overwrite(d, s, false, false);
    CtypesMembers(o);
    ConfigEachLook(o, Ctypes(o), k, p);
    if k.ctype !in Ctypes(o) {
      EmptyGroup(o, k.ctype);
    }
  }

  lemma ConfigIsEffective(cs: seq<Comp>, k: Key, p: string)
    ensures Get(ConfigGroup(Group(cs, k.ctype), k), p) == Effective(cs, k, p)
  {
    var g := Sort(Group(cs, k.ctype));
    SortSorted(Group(cs, k.ctype));
    InheritedIsLook(g, k, p);
    LookBases(g, k, p);
    GroupSameAt(cs, k, p);
    SameAdjusted(g, cs, k, p);
  }

  // ----- what overwriting does to a key -----

  lemma {:induction false} MergeIntoLook(cs: seq<Comp>, over: Comp, k: Key, p: string)
    ensures k != over.key ==> Look(MergeInto(cs, over, false, false), {k}, p) == Look(cs, {k}, p)
    ensures k == over.key && p !in over.versions ==> Look(MergeInto(cs, over, false, false), {k}, p) == Look(cs, {k}, p)
    ensures k == over.key && p in over.versions && HasMatch(cs, over, false, false) ==>
              Look(MergeInto(cs, over, false, false), {k}, p) == Some(over.versions[p])
  {
    if cs == [] {
    } else {
      var init, c := cs[..|cs| - 1], cs[|cs| - 1];
      MergeIntoLook(init, over, k, p);
      assert cs == init + [c];
      LookSnoc(init, c, {k}, p);
      var c' := if c.key == over.key then c.(versions := c.versions + over.versions) else c;
      LookSnoc(MergeInto(init, over, false, false), c', {k}, p);
    }
  }

  lemma OverwriteOneLook(cs: seq<Comp>, over: Comp, k: Key, p: string)
    ensures Look(OverwriteOne(cs, over, false, false), {k}, p) ==
            (if over.key == k then Get(over.versions, p) else None).Or(Look(cs, {k}, p))
  {
    if HasMatch(cs, over, false, false) {
      MergeIntoLook(cs, over, k, p);
    } else {
      LookSnoc(cs, over, {k}, p);
    }
  }

  lemma {:induction false} OverwriteLook(cs: seq<Comp>, todo: seq<Comp>, k: Key, p: string)
    ensures Look(OverwriteLoop(cs, todo, false, false), {k}, p) == Look(todo, {k}, p).Or(Look(cs, {k}, p))
    decreases |todo|
  {
    if todo == [] {
    } else {
      OverwriteLook(OverwriteOne(cs, todo[0], false, false), todo[1..], k, p);
      OverwriteOneLook(cs, todo[0], k, p);
    }
  }

  lemma {:induction false} Match(cs: seq<Comp>, over: Comp) returns (m: Comp)
    requires HasMatch(cs, over, false, false)
    ensures m in cs && m.key == over.key
  {
    if cs[|cs| - 1].key == over.key {
      m := cs[|cs| - 1];
    } else {
      m := Match(cs[..|cs| - 1], over);
    }
  }

  lemma {:induction false} MergeIntoMembers(cs: seq<Comp>, over: Comp)
    ensures forall e :: e in MergeInto(cs, over, false, false) <==>
                        exists c :: c in cs && e == if c.key == over.key
                                                    then c.(versions := c.versions + over.versions) else c
  {
    if cs == [] {
    } else {
      var init, c := cs[..|cs| - 1], cs[|cs| - 1];
      MergeIntoMembers(init, over);
      assert cs == init + [c];
    }
  }

  lemma OverwriteOneAgree(cs: seq<Comp>, over: Comp, k: Key, p: string, v: Option<string>)
    ensures Agree(OverwriteOne(cs, over, false, false), k, p, v) <==>
            if over.key == k && p in over.versions then Some(over.versions[p]) == v else Agree(cs, k, p, v)
  {
    if HasMatch(cs, over, false, false) {
      MergeIntoMembers(cs, over);
      var r := MergeInto(cs, over, false, false);
      forall c | c in cs
        ensures (if c.key == over.key then c.(versions := c.versions + over.versions) else c) in r
      {
      }
      var m := Match(cs, over);
      assert m.(versions := m.versions + over.versions) in r;
    } else {
      NoMatch(cs, over);
      AgreeSnoc(cs, over, k, p, v);
    }
  }

  lemma {:induction false} NoMatch(cs: seq<Comp>, over: Comp)
    requires !HasMatch(cs, over, false, false)
    ensures forall c :: c in cs ==> c.key != over.key
  {
    if cs == [] {
    } else {
      NoMatch(cs[..|cs| - 1], over);
      assert cs == cs[..|cs| - 1] + [cs[|cs| - 1]];
    }
  }

  lemma {:induction false} OverwriteAgree(cs: seq<Comp>, todo: seq<Comp>, k: Key, p: string, v: Option<string>)
    ensures Agree(OverwriteLoop(cs, todo, false, false), k, p, v) <==>
            if Look(todo, {k}, p).Some? then Look(todo, {k}, p) == v else Agree(cs, k, p, v)
    decreases |todo|
  {
    if todo == [] {
    } else {
      OverwriteAgree(OverwriteOne(cs, todo[0], false, false), todo[1..], k, p, v);
      OverwriteOneAgree(cs, todo[0], k, p, v);
    }
  }

  // ----- the meaning of a module over a default module -----

  // What the module `s` over the default module `d` lists for exactly the key `k`.
  ghost function Both(d: seq<Comp>, s: seq<Comp>, k: Key, p: string): Option<string> {
    Look(s, {k}, p).Or(Look(d, {k}, p))
  }

  // The diamond of `Masked`, for a module over a default module.
  ghost predicate MaskedOver(d: seq<Comp>, s: seq<Comp>, k: Key, p: string) {
    var general := Both(d, s, Key(k.ctype, All, All), p);
    var byDist := Key(k.ctype, k.dist, All);
    && k.dist.Only? && k.arch.Only?
    && Both(d, s, k, p) == None
    && Both(d, s, byDist, p).Some?
    && (if Look(s, {byDist}, p).Some? then Look(s, {byDist}, p) == general else Agree(d, byDist, p, general))
    && Both(d, s, Key(k.ctype, All, k.arch), p).Or(general) != general
  }

  // The version of `p` at `k`, told from the two modules.
  ghost function Meaning(d: seq<Comp>, s: seq<Comp>, k: Key, p: string): Option<string> {
    var general := Both(d, s, Key(k.ctype, All, All), p);
    var byArch := Both(d, s, Key(k.ctype, All, k.arch), p).Or(general);
    if MaskedOver(d, s, k, p) then byArch
    else Both(d, s, k, p).Or(Both(d, s, Key(k.ctype, k.dist, All), p)).Or(byArch)
  }

  // `_get_config_module` gives every package the version that `Meaning` tells.
  lemma ConfigMeaning(d: seq<Comp>, s: seq<Comp>, k: Key, p: string)
    ensures Get(Config(d, s, k), p) == Meaning(d, s, k, p)
  {
    var o := OverwriteLoop(d, Sort(s), false, false);
    ConfigIsEffective(Adjust(o), k, p);
    AdjustMeaning(o, k, p);
    forall l
      ensures Look(o, {l}, p) == Both(d, s, l, p)
    {
      OverwriteLook(d, Sort(s), l, p);
      LookSort(s, l, p);
    }
    var byDist := Key(k.ctype, k.dist, All);
    OverwriteAgree(d, Sort(s), byDist, p, Both(d, s, Key(k.ctype, All, All), p));
    LookSort(s, byDist, p);
    assert MaskedOver(d, s, k, p) <==> Masked(o, k, p);
  }
}
