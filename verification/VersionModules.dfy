/**
 `adjust` on whole modules: it leaves nothing redundant behind, and doing it twice is doing it once
 (scripts/versions_manager.py, lines 237-271).
 */
module VersionModules {
  import opened Wrappers
  import opened VersionLookup
  import opened VersionAdjust

  ghost predicate Distinct(ts: seq<string>) {
    forall i, j :: 0 <= i < j < |ts| ==> ts[i] != ts[j]
  }

  ghost predicate OfType(cs: seq<Comp>, t: string) {
    forall c :: c in cs ==> c.key.ctype == t
  }

  lemma ShapeOfGroup(cs: seq<Comp>, t: string)
    ensures var g := AdjustGroup(Group(cs, t)); Sorted(g) && Irredundant(g) && NoneIsEmpty(g) && OfType(g, t)
  {
    GroupMembers(cs, t);
    AdjustGroupShape(Group(cs, t), t);
  }

  lemma {:induction false} EachTypes(cs: seq<Comp>, ts: seq<string>)
    ensures forall c :: c in AdjustEach(cs, ts) ==> c.key.ctype in ts
  {
    if ts == [] {
    } else {
      EachTypes(cs, ts[..|ts| - 1]);
      ShapeOfGroup(cs, ts[|ts| - 1]);
    }
  }

  // ----- nothing redundant -----

  lemma {:induction false} IrredundantAppend(cs: seq<Comp>, ds: seq<Comp>)
    requires Irredundant(cs) && Irredundant(ds)
    requires forall c, d :: c in cs && d in ds ==> c.key.ctype != d.key.ctype
    ensures Irredundant(cs + ds)
    decreases |ds|
  {
    if ds == [] {
      assert cs + ds == cs;
    } else {
      var init, d := ds[..|ds| - 1], ds[|ds| - 1];
      assert ds == init + [d] && cs + ds == cs + init + [d];
      IrredundantPrefix(init, d);
      IrredundantAppend(cs, init);
      forall p | p in d.versions
        ensures Look(cs + init, Bases(d.key), p) != Some(d.versions[p])
      {
        LookAppend(cs, init, Bases(d.key), p);
        LookNone(cs, Bases(d.key), p);
      }
      IrredundantSnoc(cs + init, d);
    }
  }

  lemma {:induction false} EachIrredundant(cs: seq<Comp>, ts: seq<string>)
    requires Distinct(ts)
    ensures Irredundant(AdjustEach(cs, ts))
  {
    if ts == [] {
    } else {
      var init, t := ts[..|ts| - 1], ts[|ts| - 1];
      EachIrredundant(cs, init);
      EachTypes(cs, init);
      ShapeOfGroup(cs, t);
      assert t !in init;
      IrredundantAppend(AdjustEach(cs, init), AdjustGroup(Group(cs, t)));
    }
  }

  lemma {:induction false} EachNonEmpty(cs: seq<Comp>, ts: seq<string>)
    ensures NoneIsEmpty(AdjustEach(cs, ts))
  {
    if ts != [] {
      EachNonEmpty(cs, ts[..|ts| - 1]);
      ShapeOfGroup(cs, ts[|ts| - 1]);
    }
  }

  // After `adjust` no component lists a version that it inherits anyway, and none is empty.
  lemma AdjustLean(cs: seq<Comp>)
    ensures Irredundant(Adjust(cs)) && NoneIsEmpty(Adjust(cs))
  {
    CtypesMembers(cs);
    EachNonEmpty(cs, Ctypes(cs));
    EachIrredundant(cs, Ctypes(cs));
  }

  // ----- twice is once -----

  // The ctypes for which something is left.
  function Survivors(cs: seq<Comp>, ts: seq<string>): seq<string> {
    if ts == [] then []
    else Survivors(cs, ts[..|ts| - 1]) + (if AdjustGroup(Group(cs, ts[|ts| - 1])) == [] then [] else [ts[|ts| - 1]])
  }

  lemma {:induction false} SurvivorsMembers(cs: seq<Comp>, ts: seq<string>)
    ensures forall t :: t in Survivors(cs, ts) ==> t in ts
  {
    if ts == [] {
    } else {
      SurvivorsMembers(cs, ts[..|ts| - 1]);
    }
  }

  lemma {:induction false} GroupAppend(cs: seq<Comp>, ds: seq<Comp>, t: string)
    ensures Group(cs + ds, t) == Group(cs, t) + Group(ds, t)
    decreases |ds|
  {
    if ds == [] {
      assert cs + ds == cs;
    } else {
      GroupAppend(cs, ds[..|ds| - 1], t);
      assert (cs + ds)[..|cs + ds| - 1] == cs + ds[..|ds| - 1];
    }
  }

  lemma {:induction false} GroupAll(cs: seq<Comp>, t: string, u: string)
    requires OfType(cs, t)
    ensures Group(cs, u) == if u == t then cs else []
  {
    if cs == [] {
    } else {
      GroupAll(cs[..|cs| - 1], t, u);
      assert cs == cs[..|cs| - 1] + [cs[|cs| - 1]];
    }
  }

  lemma {:induction false} EachGroup(cs: seq<Comp>, ts: seq<string>, t: string)
    requires Distinct(ts)
    ensures Group(AdjustEach(cs, ts), t) == if t in ts then AdjustGroup(Group(cs, t)) else []
  {
    if ts == [] {
    } else {
      var init, last := ts[..|ts| - 1], ts[|ts| - 1];
      var g := AdjustGroup(Group(cs, last));
      EachGroup(cs, init, t);
      ShapeOfGroup(cs, last);
      GroupAppend(AdjustEach(cs, init), g, t);
      GroupAll(g, last, t);
      assert AdjustEach(cs, ts) == AdjustEach(cs, init) + g;
      assert t in ts <==> t in init || t == last;
      assert last !in init;
    }
  }

  lemma {:induction false} CtypesAppend(cs: seq<Comp>, ds: seq<Comp>, t: string)
    requires OfType(ds, t) && ds != [] && t !in Ctypes(cs)
    ensures Ctypes(cs + ds) == Ctypes(cs) + [t]
    decreases |ds|
  {
    var init, d := ds[..|ds| - 1], ds[|ds| - 1];
    assert (cs + ds)[..|cs + ds| - 1] == cs + init && (cs + ds)[|cs + ds| - 1] == d;
    if init == [] {
      assert cs + init == cs;
    } else {
      CtypesAppend(cs, init, t);
      assert t in Ctypes(cs) + [t];
    }
  }

  lemma {:induction false} EachCtypes(cs: seq<Comp>, ts: seq<string>)
    requires Distinct(ts)
    ensures Ctypes(AdjustEach(cs, ts)) == Survivors(cs, ts)
  {
    if ts == [] {
    } else {
      var init, t := ts[..|ts| - 1], ts[|ts| - 1];
      EachCtypes(cs, init);
      var g := AdjustGroup(Group(cs, t));
      if g == [] {
        assert AdjustEach(cs, ts) == AdjustEach(cs, init);
      } else {
        SurvivorsMembers(cs, init);
        ShapeOfGroup(cs, t);
        assert t !in init;
        CtypesAppend(AdjustEach(cs, init), g, t);
      }
    }
  }

  // A group that was adjusted once does not change any more.
  lemma GroupOnce(g: seq<Comp>)
    requires Sorted(g) && Irredundant(g) && NoneIsEmpty(g)
    ensures AdjustGroup(g) == g
  {
    SortIdempotent(g);
    assert [] + g == g;
    LoopFixpoint([], g);
    NonEmptyFixpoint(g);
  }

  lemma {:induction false} EachOnce(cs: seq<Comp>, ts: seq<string>, all: seq<string>)
    requires Distinct(all) && ts <= all
    ensures AdjustEach(AdjustEach(cs, all), Survivors(cs, ts)) == AdjustEach(cs, ts)
    decreases |ts|
  {
    if ts == [] {
    } else {
      var init, t := ts[..|ts| - 1], ts[|ts| - 1];
      EachOnce(cs, init, all);
      var g := AdjustGroup(Group(cs, t));
      if g == [] {
        assert Survivors(cs, ts) == Survivors(cs, init);
      } else {
        var s := Survivors(cs, ts);
        assert s[..|s| - 1] == Survivors(cs, init) && s[|s| - 1] == t;
        assert all[|ts| - 1] == t;
        EachGroup(cs, all, t);
        ShapeOfGroup(cs, t);
        GroupOnce(g);
      }
    }
  }

  lemma AdjustIdempotent(cs: seq<Comp>)
    ensures Adjust(Adjust(cs)) == Adjust(cs)
  {
    CtypesMembers(cs);
    EachCtypes(cs, Ctypes(cs));
    EachOnce(cs, Ctypes(cs), Ctypes(cs));
  }
}
