/**
 `adjust`: every component drops what it would inherit anyway
 (scripts/versions_manager.py, lines 106-113 and 237-264).
 */
module VersionAdjust {
  import opened Wrappers
  import opened VersionLookup

  // ----- merging and subtracting versions -----

  // `merge(versions, True)` over the components that `k` inherits from, in order.
  function Inherited(cs: seq<Comp>, k: Key): Versions {
    if cs == [] then map[]
    else
      var c := cs[|cs| - 1];
      var m := Inherited(cs[..|cs| - 1], k);
      if Inheritable(k, c.key) then m + c.versions else m
  }

  // `subtract`: drops the packages that `base` lists with the same version.
  function Minus(m: Versions, base: Versions): (r: Versions)
    ensures forall p :: Get(r, p) == if Get(m, p) == Get(base, p) then None else Get(m, p)
  {
    map p | p in m && !(p in base && base[p] == m[p]) :: m[p]
  }

  lemma {:induction false} InheritedIsLook(cs: seq<Comp>, k: Key, p: string)
    ensures Get(Inherited(cs, k), p) == Look(cs, Bases(k), p)
  {
    if cs == [] {
    } else {
      var c, init := cs[|cs| - 1], cs[..|cs| - 1];
      InheritedIsLook(init, k, p);
      LookSnoc(init, c, Bases(k), p);
      BasesAreInheritable(k, c.key);
      assert cs == init + [c];
    }
  }

  // ----- adjusting the components of one ctype -----

  // `done` holds the components already treated, with what is left of their versions.
  function AdjustLoop(done: seq<Comp>, todo: seq<Comp>): seq<Comp>
    decreases |todo|
  {
    if todo == [] then done
    else
      var c := todo[0];
      AdjustLoop(done + [c.(versions := Minus(c.versions, Inherited(done, c.key)))], todo[1..])
  }

  function NonEmpty(cs: seq<Comp>): seq<Comp> {
    if cs == [] then []
    else (if cs[0].versions == map[] then [] else [cs[0]]) + NonEmpty(cs[1..])
  }

  // Every component with key `k` that lists `p` gives it version `v`.
  ghost predicate Agree(cs: seq<Comp>, k: Key, p: string, v: Option<string>) {
    forall c :: c in cs && c.key == k && p in c.versions ==> Some(c.versions[p]) == v
  }

  lemma AgreeSnoc(cs: seq<Comp>, c: Comp, k: Key, p: string, v: Option<string>)
    ensures Agree(cs + [c], k, p, v) <==> Agree(cs, k, p, v)
                                          && (c.key == k && p in c.versions ==> Some(c.versions[p]) == v)
  {
    assert forall d :: d in cs + [c] <==> d in cs || d == c;
  }

  lemma {:induction false} AgreeLook(cs: seq<Comp>, k: Key, p: string, v: Option<string>)
    ensures Agree(cs, k, p, v) && Look(cs, {k}, p).Some? ==> Look(cs, {k}, p) == v
    ensures Look(cs, {k}, p) == None ==> Agree(cs, k, p, v)
  {
    if cs == [] {
    } else {
      AgreeLook(cs[1..], k, p, v);
      assert forall d :: d in cs <==> d in cs[1..] || d == cs[0];
    }
  }

  // The diamond: at `k`, the distribution's component repeats the general version, the
  // architecture's component does not, and no component for `k` itself decides.  Dropping the
  // repeated version lets the architecture's version through.
  ghost predicate Masked(cs: seq<Comp>, k: Key, p: string) {
    var general := Look(cs, {Key(k.ctype, All, All)}, p);
    var byDist := Key(k.ctype, k.dist, All);
    && k.dist.Only? && k.arch.Only?
    && Look(cs, {k}, p) == None
    && Look(cs, {byDist}, p).Some? && Agree(cs, byDist, p, general)
    && Effective(cs, Key(k.ctype, All, k.arch), p) != general
  }

  // What an adjusted list says at `k`, told from the list before.
  ghost function Adjusted(cs: seq<Comp>, k: Key, p: string): Option<string> {
    if Masked(cs, k, p) then Effective(cs, Key(k.ctype, All, k.arch), p) else Effective(cs, k, p)
  }

  // `c` can follow the components of `cs` in sorted order.
  ghost predicate CanFollow(cs: seq<Comp>, c: Comp) {
    forall d :: d in cs ==> !KeyLess(c.key, d.key)
  }

  // Nothing larger than `c` has been seen.
  lemma LaterAbsent(cs: seq<Comp>, c: Comp, k: Key, p: string)
    requires CanFollow(cs, c) && KeyLess(c.key, k)
    ensures Look(cs, {k}, p) == None
  {
    LookNone(cs, {k}, p);
  }

  // One step of the loop, seen at the key `k`: `c` follows `seen`, and `c'` follows `done`.
  ghost predicate Step(seen: seq<Comp>, done: seq<Comp>, c: Comp, c': Comp, p: string) {
    && CanFollow(seen, c) && CanFollow(done, c) && c'.key == c.key
    && Get(c'.versions, p) == (if Get(c.versions, p) == Effective(done, c.key, p) then None else Get(c.versions, p))
    && forall l :: Effective(done, l, p) == Adjusted(seen, l, p)
  }

  // What one more component changes for the keys that `k` inherits from.
  lemma SnocAt(cs: seq<Comp>, c: Comp, k: Key, p: string)
    ensures Look(cs + [c], {k}, p) == (if c.key == k then Get(c.versions, p) else None).Or(Look(cs, {k}, p))
    ensures var l := Key(k.ctype, k.dist, All);
            Look(cs + [c], {l}, p) == (if c.key == l then Get(c.versions, p) else None).Or(Look(cs, {l}, p))
    ensures var l := Key(k.ctype, All, k.arch);
            Look(cs + [c], {l}, p) == (if c.key == l then Get(c.versions, p) else None).Or(Look(cs, {l}, p))
    ensures var l := Key(k.ctype, All, All);
            Look(cs + [c], {l}, p) == (if c.key == l then Get(c.versions, p) else None).Or(Look(cs, {l}, p))
  {
    LookSnoc(cs, c, {k}, p);
    LookSnoc(cs, c, {Key(k.ctype, k.dist, All)}, p);
    LookSnoc(cs, c, {Key(k.ctype, All, k.arch)}, p);
    LookSnoc(cs, c, {Key(k.ctype, All, All)}, p);
  }

  // A component that `k` does not inherit from changes nothing at `k`.
  lemma StepElsewhere(seen: seq<Comp>, done: seq<Comp>, c: Comp, c': Comp, k: Key, p: string)
    requires Step(seen, done, c, c', p) && c.key !in Bases(k)
    ensures Effective(done + [c'], k, p) == Adjusted(seen + [c], k, p)
  {
    SnocAt(seen, c, k, p);
    SnocAt(done, c', k, p);
    AgreeSnoc(seen, c, Key(k.ctype, k.dist, All), p, Look(seen, {Key(k.ctype, All, All)}, p));
    assert Effective(done, k, p) == Adjusted(seen, k, p);
  }

  lemma StepAtKey(seen: seq<Comp>, done: seq<Comp>, c: Comp, c': Comp, p: string)
    requires Step(seen, done, c, c', p)
    ensures Effective(done + [c'], c.key, p) == Adjusted(seen + [c], c.key, p)
  {
    var k := c.key;
    SnocAt(seen, c, k, p);
    SnocAt(done, c', k, p);
    AgreeSnoc(seen, c, Key(k.ctype, k.dist, All), p, Look(seen, {Key(k.ctype, All, All)}, p));
    assert Effective(done, k, p) == Adjusted(seen, k, p);
  }

  // A general component, before anything more specific was seen.
  lemma StepGeneral(seen: seq<Comp>, done: seq<Comp>, c: Comp, c': Comp, k: Key, p: string)
    requires Step(seen, done, c, c', p) && c.key == Key(k.ctype, All, All) && k != c.key
    ensures Effective(done + [c'], k, p) == Adjusted(seen + [c], k, p)
  {
    SnocAt(seen, c, k, p);
    SnocAt(done, c', k, p);
    assert Effective(done, c.key, p) == Adjusted(seen, c.key, p);
    forall l | l in Bases(k) && l != c.key
      ensures Look(seen, {l}, p) == None && Look(done, {l}, p) == None
    {
      LaterAbsent(seen, c, l, p);
      LaterAbsent(done, c, l, p);
    }
  }

  // An architecture's component, before any distribution's component was seen.
  lemma StepByArch(seen: seq<Comp>, done: seq<Comp>, c: Comp, c': Comp, k: Key, p: string)
    requires Step(seen, done, c, c', p) && c.key == Key(k.ctype, All, k.arch) && k.dist.Only? && k.arch.Only?
    ensures Effective(done + [c'], k, p) == Adjusted(seen + [c], k, p)
  {
    SnocAt(seen, c, k, p);
    SnocAt(done, c', k, p);
    assert Effective(done, c.key, p) == Adjusted(seen, c.key, p);
    LaterAbsent(seen, c, k, p);
    LaterAbsent(done, c, k, p);
    LaterAbsent(seen, c, Key(k.ctype, k.dist, All), p);
    LaterAbsent(done, c, Key(k.ctype, k.dist, All), p);
  }

  // A distribution's component: the case that can mask an architecture's version.
  lemma StepByDist(seen: seq<Comp>, done: seq<Comp>, c: Comp, c': Comp, k: Key, p: string)
    requires Step(seen, done, c, c', p) && c.key == Key(k.ctype, k.dist, All) && k.dist.Only? && k.arch.Only?
    ensures Effective(done + [c'], k, p) == Adjusted(seen + [c], k, p)
  {
    var general := Look(seen, {Key(k.ctype, All, All)}, p);
    SnocAt(seen, c, k, p);
    SnocAt(done, c', k, p);
    AgreeSnoc(seen, c, c.key, p, general);
    AgreeLook(seen, c.key, p, general);
    assert Effective(done, c.key, p) == Adjusted(seen, c.key, p);
    assert Effective(done, k, p) == Adjusted(seen, k, p);
    LaterAbsent(seen, c, k, p);
    LaterAbsent(done, c, k, p);
  }

  lemma StepAnywhere(seen: seq<Comp>, done: seq<Comp>, c: Comp, c': Comp, k: Key, p: string)
    requires Step(seen, done, c, c', p)
    ensures Effective(done + [c'], k, p) == Adjusted(seen + [c], k, p)
  {
    if c.key !in Bases(k) {
      StepElsewhere(seen, done, c, c', k, p);
    } else if c.key == k {
      StepAtKey(seen, done, c, c', p);
    } else if c.key == Key(k.ctype, All, All) {
      StepGeneral(seen, done, c, c', k, p);
    } else if c.key == Key(k.ctype, All, k.arch) {
      StepByArch(seen, done, c, c', k, p);
    } else {
      StepByDist(seen, done, c, c', k, p);
    }
  }

  // `after` has the keys of `before`, in the same order.
  ghost predicate SameKeys(before: seq<Comp>, after: seq<Comp>) {
    |before| == |after| && forall i :: 0 <= i < |before| ==> before[i].key == after[i].key
  }

  lemma {:induction false} LoopKeys(seen: seq<Comp>, done: seq<Comp>, todo: seq<Comp>)
    requires SameKeys(seen, done) && Sorted(seen + todo)
    ensures SameKeys(seen + todo, AdjustLoop(done, todo)) && Sorted(AdjustLoop(done, todo))
    decreases |todo|
  {
    if todo == [] {
      assert seen + todo == seen;
    } else {
      var c := todo[0];
      assert seen + [c] + todo[1..] == seen + todo;
      LoopKeys(seen + [c], done + [c.(versions := Minus(c.versions, Inherited(done, c.key)))], todo[1..]);
    }
  }

  // The loop turns a sorted list into one that says at every key what `Adjusted` tells.
  lemma {:induction false} LoopMeaning(seen: seq<Comp>, done: seq<Comp>, todo: seq<Comp>, k: Key, p: string)
    requires SameKeys(seen, done) && Sorted(seen + todo)
    requires forall l :: Effective(done, l, p) == Adjusted(seen, l, p)
    ensures Effective(AdjustLoop(done, todo), k, p) == Adjusted(seen + todo, k, p)
    decreases |todo|
  {
    if todo == [] {
      assert seen + todo == seen;
    } else {
      var c := todo[0];
      var c' := c.(versions := Minus(c.versions, Inherited(done, c.key)));
      assert Sorted(done) && CanFollow(seen, c) && CanFollow(done, c) by {
        NextFollows(seen, done, todo);
      }
      InheritedIsLook(done, c.key, p);
      LookBases(done, c.key, p);
      assert Step(seen, done, c, c', p);
      forall l
        ensures Effective(done + [c'], l, p) == Adjusted(seen + [c], l, p)
      {
        StepAnywhere(seen, done, c, c', l, p);
      }
      assert seen + [c] + todo[1..] == seen + todo;
      LoopMeaning(seen + [c], done + [c'], todo[1..], k, p);
    }
  }

  lemma NextFollows(seen: seq<Comp>, done: seq<Comp>, todo: seq<Comp>)
    requires SameKeys(seen, done) && Sorted(seen + todo) && todo != []
    ensures Sorted(seen) && Sorted(done) && CanFollow(seen, todo[0]) && CanFollow(done, todo[0])
  {
    var all := seen + todo;
    assert forall i :: 0 <= i < |seen| ==> all[i] == seen[i];
    assert all[|seen|] == todo[0];
  }

  // ----- no entry is left that is inherited anyway -----

  // No component lists a version that the components before it already give it.
  ghost predicate Irredundant(cs: seq<Comp>) {
    forall i, p :: 0 <= i < |cs| && p in cs[i].versions ==>
                     Look(cs[..i], Bases(cs[i].key), p) != Some(cs[i].versions[p])
  }

  lemma IrredundantSnoc(cs: seq<Comp>, c: Comp)
    requires Irredundant(cs)
    requires forall p :: p in c.versions ==> Look(cs, Bases(c.key), p) != Some(c.versions[p])
    ensures Irredundant(cs + [c])
  {
    forall i, p | 0 <= i < |cs + [c]| && p in (cs + [c])[i].versions
      ensures Look((cs + [c])[..i], Bases((cs + [c])[i].key), p) != Some((cs + [c])[i].versions[p])
    {
      assert (cs + [c])[..i] == cs[..i];
      assert i == |cs| ==> cs[..i] == cs;
    }
  }

  lemma {:induction false} LoopIrredundant(done: seq<Comp>, todo: seq<Comp>)
    requires Irredundant(done)
    ensures Irredundant(AdjustLoop(done, todo))
    decreases |todo|
  {
    if todo == [] {
    } else {
      var c := todo[0];
      var c' := c.(versions := Minus(c.versions, Inherited(done, c.key)));
      forall p | p in c'.versions
        ensures Look(done, Bases(c.key), p) != Some(c'.versions[p])
      {
        InheritedIsLook(done, c.key, p);
        assert Get(c'.versions, p) == Some(c'.versions[p]);
      }
      IrredundantSnoc(done, c');
      LoopIrredundant(done + [c'], todo[1..]);
    }
  }

  // A list without redundant entries is left alone.
  lemma {:induction false} LoopFixpoint(done: seq<Comp>, todo: seq<Comp>)
    requires Irredundant(done + todo)
    ensures AdjustLoop(done, todo) == done + todo
    decreases |todo|
  {
    if todo == [] {
    } else {
      var c := todo[0];
      var all := done + todo;
      assert all[|done|] == c && all[..|done|] == done;
      var m := Minus(c.versions, Inherited(done, c.key));
      forall p
        ensures Get(m, p) == Get(c.versions, p)
      {
        InheritedIsLook(done, c.key, p);
        assert p in all[|done|].versions ==> Look(all[..|done|], Bases(c.key), p) != Some(c.versions[p]);
      }
      SameVersions(m, c.versions);
      assert done + [c] + todo[1..] == done + todo;
      LoopFixpoint(done + [c], todo[1..]);
    }
  }

  lemma SameVersions(m: Versions, n: Versions)
    requires forall p :: Get(m, p) == Get(n, p)
    ensures m == n
  {
    forall p
      ensures p in m <==> p in n
      ensures p in m ==> m[p] == n[p]
    {
      assert Get(m, p) == Get(n, p);
    }
  }

  // ----- leaving out the empty components -----

  lemma {:induction false} NonEmptyLook(cs: seq<Comp>, ks: set<Key>, p: string)
    ensures Look(NonEmpty(cs), ks, p) == Look(cs, ks, p)
  {
    if cs == [] {
    } else {
      NonEmptyLook(cs[1..], ks, p);
      if cs[0].versions != map[] {
        assert NonEmpty(cs)[1..] == NonEmpty(cs[1..]);
      } else {
        assert NonEmpty(cs) == NonEmpty(cs[1..]);
      }
    }
  }

  lemma {:induction false} NonEmptySnoc(cs: seq<Comp>, c: Comp)
    ensures NonEmpty(cs + [c]) == NonEmpty(cs) + (if c.versions == map[] then [] else [c])
  {
    if cs == [] {
      assert cs + [c] == [c];
    } else {
      NonEmptySnoc(cs[1..], c);
      assert (cs + [c])[1..] == cs[1..] + [c];
    }
  }

  ghost predicate NoneIsEmpty(cs: seq<Comp>) {
    forall c :: c in cs ==> c.versions != map[]
  }

  lemma IrredundantPrefix(cs: seq<Comp>, c: Comp)
    requires Irredundant(cs + [c])
    ensures Irredundant(cs)
    ensures forall p :: p in c.versions ==> Look(cs, Bases(c.key), p) != Some(c.versions[p])
  {
    var all := cs + [c];
    forall i, p | 0 <= i < |cs| && p in cs[i].versions
      ensures Look(cs[..i], Bases(cs[i].key), p) != Some(cs[i].versions[p])
    {
      assert cs[..i] == all[..i] && cs[i] == all[i] && p in all[i].versions;
    }
    assert all[|cs|] == c && all[..|cs|] == cs;
  }

  lemma {:induction false} NonEmptyMembers(cs: seq<Comp>)
    ensures NoneIsEmpty(NonEmpty(cs))
    ensures forall c :: c in NonEmpty(cs) ==> c in cs
  {
    if cs == [] {
    } else {
      NonEmptyMembers(cs[1..]);
    }
  }

  lemma {:induction false} NonEmptySorted(cs: seq<Comp>)
    requires Sorted(cs)
    ensures Sorted(NonEmpty(cs))
  {
    if cs == [] {
    } else {
      NonEmptySorted(cs[1..]);
      NonEmptyMembers(cs[1..]);
      forall c | c in NonEmpty(cs[1..])
        ensures !KeyLess(c.key, cs[0].key)
      {
        var j :| 0 <= j < |cs[1..]| && cs[1..][j] == c;
        assert cs[j + 1] == c;
      }
    }
  }

  lemma {:induction false} NonEmptyIrredundant(cs: seq<Comp>)
    requires Irredundant(cs)
    ensures Irredundant(NonEmpty(cs))
  {
    if cs == [] {
    } else {
      var init, c := cs[..|cs| - 1], cs[|cs| - 1];
      assert cs == init + [c];
      IrredundantPrefix(init, c);
      NonEmptyIrredundant(init);
      NonEmptySnoc(init, c);
      if c.versions != map[] {
        forall p | p in c.versions
          ensures Look(NonEmpty(init), Bases(c.key), p) != Some(c.versions[p])
        {
          NonEmptyLook(init, Bases(c.key), p);
        }
        IrredundantSnoc(NonEmpty(init), c);
      } else {
        assert NonEmpty(cs) == NonEmpty(init);
      }
    }
  }

  lemma {:induction false} NonEmptyFixpoint(cs: seq<Comp>)
    requires NoneIsEmpty(cs)
    ensures NonEmpty(cs) == cs
  {
    if cs == [] {
    } else {
      NonEmptyFixpoint(cs[1..]);
    }
  }

  // ----- all the components of a module -----

  // The components of one ctype.
  function Group(cs: seq<Comp>, ctype: string): seq<Comp> {
    if cs == [] then []
    else Group(cs[..|cs| - 1], ctype) + (if cs[|cs| - 1].key.ctype == ctype then [cs[|cs| - 1]] else [])
  }

  // The ctypes in order of first appearance: the keys of `_get_components_per_ctypes`.
  function Ctypes(cs: seq<Comp>): seq<string> {
    if cs == [] then []
    else
      var ts := Ctypes(cs[..|cs| - 1]);
      if cs[|cs| - 1].key.ctype in ts then ts else ts + [cs[|cs| - 1].key.ctype]
  }

  // `_adjust_components_for_ctype`
  function AdjustGroup(cs: seq<Comp>): seq<Comp> {
    NonEmpty(AdjustLoop([], Sort(cs)))
  }

  // `adjust`, for the ctypes `ts`
  function AdjustEach(cs: seq<Comp>, ts: seq<string>): seq<Comp> {
    if ts == [] then []
    else AdjustEach(cs, ts[..|ts| - 1]) + AdjustGroup(Group(cs, ts[|ts| - 1]))
  }

  function Adjust(cs: seq<Comp>): seq<Comp> {
    AdjustEach(cs, Ctypes(cs))
  }

  lemma {:induction false} GroupMembers(cs: seq<Comp>, ctype: string)
    ensures forall c :: c in Group(cs, ctype) <==> c in cs && c.key.ctype == ctype
  {
    if cs == [] {
    } else {
      GroupMembers(cs[..|cs| - 1], ctype);
      assert cs == cs[..|cs| - 1] + [cs[|cs| - 1]];
    }
  }

  lemma {:induction false} GroupLook(cs: seq<Comp>, k: Key, p: string)
    ensures Look(Group(cs, k.ctype), {k}, p) == Look(cs, {k}, p)
  {
    if cs == [] {
    } else {
      var init, c := cs[..|cs| - 1], cs[|cs| - 1];
      GroupLook(init, k, p);
      assert cs == init + [c];
      LookSnoc(init, c, {k}, p);
      if c.key.ctype == k.ctype {
        LookSnoc(Group(init, k.ctype), c, {k}, p);
      } else {
        assert Group(cs, k.ctype) == Group(init, k.ctype);
      }
    }
  }

  lemma {:induction false} CtypesMembers(cs: seq<Comp>)
    ensures forall t :: t in Ctypes(cs) <==> exists c :: c in cs && c.key.ctype == t
    ensures forall i, j :: 0 <= i < j < |Ctypes(cs)| ==> Ctypes(cs)[i] != Ctypes(cs)[j]
  {
    if cs == [] {
    } else {
      var init, c := cs[..|cs| - 1], cs[|cs| - 1];
      CtypesMembers(init);
      assert cs == init + [c];
      forall t
        ensures t in Ctypes(cs) <==> exists d :: d in cs && d.key.ctype == t
      {
        assert t in Ctypes(cs) <==> t in Ctypes(init) || t == c.key.ctype;
        if exists d :: d in cs && d.key.ctype == t {
          var d :| d in cs && d.key.ctype == t;
          assert d in init || d == c;
        }
      }
    }
  }

  // The two lists say the same at the keys that `k` inherits from.
  ghost predicate SameAt(cs: seq<Comp>, ds: seq<Comp>, k: Key, p: string) {
    && (forall l :: l in Bases(k) ==> Look(cs, {l}, p) == Look(ds, {l}, p))
    && (forall v :: Agree(cs, Key(k.ctype, k.dist, All), p, v) <==> Agree(ds, Key(k.ctype, k.dist, All), p, v))
  }

  lemma SameAdjusted(cs: seq<Comp>, ds: seq<Comp>, k: Key, p: string)
    requires SameAt(cs, ds, k, p)
    ensures Adjusted(cs, k, p) == Adjusted(ds, k, p) && Effective(cs, k, p) == Effective(ds, k, p)
  {
    var a, b, c := Key(k.ctype, All, All), Key(k.ctype, All, k.arch), Key(k.ctype, k.dist, All);
    assert a in Bases(k) && b in Bases(k) && c in Bases(k) && k in Bases(k);
  }

  // Grouping and sorting change nothing at a key of the group.
  lemma GroupSameAt(cs: seq<Comp>, k: Key, p: string)
    ensures SameAt(Sort(Group(cs, k.ctype)), cs, k, p)
  {
    var g := Group(cs, k.ctype);
    forall l | l in Bases(k)
      ensures Look(Sort(g), {l}, p) == Look(cs, {l}, p)
    {
      LookSort(g, l, p);
      GroupLook(cs, l, p);
    }
    forall v
      ensures Agree(Sort(g), Key(k.ctype, k.dist, All), p, v) <==> Agree(cs, Key(k.ctype, k.dist, All), p, v)
    {
      SortMembers(g);
      GroupMembers(cs, k.ctype);
    }
  }

  lemma SortMembers(cs: seq<Comp>)
    ensures forall c :: c in Sort(cs) <==> c in cs
  {
    SortSorted(cs);
    forall c
      ensures c in Sort(cs) <==> c in cs
    {
      assert c in Sort(cs) <==> c in multiset(Sort(cs));
    }
  }

  lemma AdjustGroupMeaning(cs: seq<Comp>, k: Key, p: string)
    ensures Effective(AdjustGroup(Group(cs, k.ctype)), k, p) == Adjusted(cs, k, p)
  {
    var s := Sort(Group(cs, k.ctype));
    SortSorted(Group(cs, k.ctype));
    assert [] + s == s;
    LoopMeaning([], [], s, k, p);
    GroupSameAt(cs, k, p);
    SameAdjusted(s, cs, k, p);
    forall l
      ensures Look(NonEmpty(AdjustLoop([], s)), {l}, p) == Look(AdjustLoop([], s), {l}, p)
    {
      NonEmptyLook(AdjustLoop([], s), {l}, p);
    }
  }

  // What the result for one ctype is like.
  lemma AdjustGroupShape(g: seq<Comp>, t: string)
    requires forall c :: c in g ==> c.key.ctype == t
    ensures Sorted(AdjustGroup(g)) && Irredundant(AdjustGroup(g)) && NoneIsEmpty(AdjustGroup(g))
    ensures forall c :: c in AdjustGroup(g) ==> c.key.ctype == t
  {
    var s := Sort(g);
    var r := AdjustLoop([], s);
    SortSorted(g);
    SortMembers(g);
    assert [] + s == s;
    LoopKeys([], [], s);
    LoopIrredundant([], s);
    NonEmptySorted(r);
    NonEmptyIrredundant(r);
    NonEmptyMembers(r);
    forall c | c in AdjustGroup(g)
      ensures c.key.ctype == t
    {
      var i :| 0 <= i < |r| && r[i] == c;
      assert s[i] in g && s[i].key == c.key;
    }
  }

  // Only the part for its own ctype says anything at a key.
  lemma {:induction false} EachLook(cs: seq<Comp>, ts: seq<string>, k: Key, p: string)
    requires forall i, j :: 0 <= i < j < |ts| ==> ts[i] != ts[j]
    ensures Look(AdjustEach(cs, ts), {k}, p) == if k.ctype in ts then Look(AdjustGroup(Group(cs, k.ctype)), {k}, p)
                                                else None
  {
    if ts == [] {
    } else {
      var init, t := ts[..|ts| - 1], ts[|ts| - 1];
      EachLook(cs, init, k, p);
      LookAppend(AdjustEach(cs, init), AdjustGroup(Group(cs, t)), {k}, p);
      assert ts == init + [t];
      if k.ctype != t {
        OtherGroup(cs, t, k, p);
      }
    }
  }

  // The adjusted components of one type say nothing at keys of another.
  lemma OtherGroup(cs: seq<Comp>, t: string, k: Key, p: string)
    requires k.ctype != t
    ensures Look(AdjustGroup(Group(cs, t)), {k}, p) == None
  {
    GroupMembers(cs, t);
    AdjustGroupShape(Group(cs, t), t);
    LookNone(AdjustGroup(Group(cs, t)), {k}, p);
  }

  // `adjust` changes what the module says at `k` exactly when the diamond masks a version.
  lemma AdjustMeaning(cs: seq<Comp>, k: Key, p: string)
    ensures Effective(Adjust(cs), k, p) == Adjusted(cs, k, p)
    ensures Effective(Adjust(cs), k, p) == Effective(cs, k, p) <==> !Masked(cs, k, p)
  {
    forall l | l in Bases(k)
      ensures Look(Adjust(cs), {l}, p) == Look(AdjustGroup(Group(cs, k.ctype)), {l}, p)
    {
      AdjustLook(cs, l, p);
    }
    AdjustGroupMeaning(cs, k, p);
    AgreeLook(cs, Key(k.ctype, k.dist, All), p, Look(cs, {Key(k.ctype, All, All)}, p));
  }

  // An adjusted module holds at a key what the adjusted components of its type do.
  lemma AdjustLook(cs: seq<Comp>, l: Key, p: string)
    ensures Look(Adjust(cs), {l}, p) == Look(AdjustGroup(Group(cs, l.ctype)), {l}, p)
  {
    CtypesMembers(cs);
    EachLook(cs, Ctypes(cs), l, p);
    if l.ctype !in Ctypes(cs) {
      EmptyGroup(cs, l.ctype);
    }
  }

  lemma EmptyGroup(cs: seq<Comp>, t: string)
    requires t !in Ctypes(cs)
    ensures Group(cs, t) == []
  {
    CtypesMembers(cs);
    GroupMembers(cs, t);
  }
}
