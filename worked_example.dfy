/** The example that ships with the merge script: a chart's `values.yaml`, an
    old `override-values.yaml`, and the generated file the script writes. */
module WorkedExample {
  import opened ConfigTree
  import opened OverrideMerge

  const DefaultList: Node := List([Scalar("arrayelement1"), Scalar("arrayelement2")])
  const OverrideList: Node := List([Scalar("arrayelement1"), Scalar("arrayelement2"), Scalar("arrayelement3")])
  const DefaultSub: Node := Map([("subchild1", List([Map([("dict1", Scalar("false")), ("name", Scalar("value1"))])]))])
  const OverrideSub: Node := Map([("subchild1", List([Map([("dict1", Scalar("true")), ("name", Scalar("subchild1_dict1"))])]))])

  /** `parent1` in `values.yaml` of the new chart. */
  const DefaultParent: Node :=
    Map([("child1", DefaultList), ("child2", DefaultSub), ("child3", Scalar("dummy_value")), ("child4", Scalar(""))])

  /** `parent1` in the previous `override-values.yaml`. */
  const OverrideParent: Node :=
    Map([("child1", OverrideList), ("child2", OverrideSub), ("another_child", Scalar("dummy123"))])

  /** `parent1` in the generated file: the override's lists replace the
      default's whole, the chart's new keys keep their defaults, and the
      obsolete key comes last. */
  const GeneratedParent: Node :=
    Map([("child1", OverrideList), ("child2", OverrideSub), ("child3", Scalar("dummy_value")),
         ("child4", Scalar("")), ("another_child", Scalar("dummy123"))])

  const Defaults: Node := Map([("parent1", DefaultParent)])
  const Overrides: Node := Map([("parent1", OverrideParent)])
  const Generated: Node := Map([("parent1", GeneratedParent)])

  /** A leaf default and a non-null override: the override wins. */
  lemma LeafReplaced(dv: Node, rv: Node)
    requires !dv.Map? && !rv.Null?
    ensures Compatible(dv, rv) && Merge(dv, rv) == Outcome(rv, [], [])
  {
  }

  /** Two one-key mappings with the same key merge under that key. */
  lemma OneKey(k: string, dv: Node, rv: Node)
    requires Compatible(dv, rv)
    ensures Compatible(Map([(k, dv)]), Map([(k, rv)]))
    ensures var sub := Merge(dv, rv);
            Merge(Map([(k, dv)]), Map([(k, rv)]))
            == Outcome(Map([(k, sub.merged)]), Prepended(k, sub.newPaths), Prepended(k, sub.extraPaths))
  {
    var d, r := Map([(k, dv)]), Map([(k, rv)]);
    var sub := Merge(dv, rv);
    assert Lookup(r.entries, k) == Some(rv);
    assert Compatible(d, r);
    assert PassOne(d, r, 1) == Pass([(k, sub.merged)], Prepended(k, sub.newPaths), Prepended(k, sub.extraPaths));
    assert Lookup(d.entries, k).Some?;
    assert r.entries[..0] == [];
    assert ReferenceOnly(r.entries, d.entries) == [];
    assert [(k, sub.merged)] + [] == [(k, sub.merged)];
    assert Prepended(k, sub.extraPaths) + TopLevel([]) == Prepended(k, sub.extraPaths);
  }

  /** The layout of `parent1`: four default keys `c1`..`c4`, of which the
      override has the first two, and one key `a` only the override has. */
  predicate ParentKeys(d: Node, r: Node, c1: string, c2: string, c3: string, c4: string, a: string,
                       d1: Node, d2: Node, d3: Node, d4: Node, r1: Node, r2: Node, ra: Node)
  {
    && d.Map? && r.Map? && |d.entries| == 4
    && d.entries[0] == (c1, d1) && d.entries[1] == (c2, d2)
    && d.entries[2] == (c3, d3) && d.entries[3] == (c4, d4)
    && Lookup(r.entries, c1) == Some(r1) && Lookup(r.entries, c2) == Some(r2)
    && Lookup(r.entries, c3) == None && Lookup(r.entries, c4) == None
    && ReferenceOnly(r.entries, d.entries) == [(a, ra)]
  }

  lemma ParentShapeCompatible(d: Node, r: Node, c1: string, c2: string, c3: string, c4: string, a: string,
                              d1: Node, d2: Node, d3: Node, d4: Node, r1: Node, r2: Node, ra: Node)
    requires ParentKeys(d, r, c1, c2, c3, c4, a, d1, d2, d3, d4, r1, r2, ra)
    requires Compatible(d1, r1) && Compatible(d2, r2)
    ensures Compatible(d, r)
  {
    forall i | 0 <= i < |d.entries|
      ensures Lookup(r.entries, d.entries[i].0).Some? ==>
                Compatible(d.entries[i].1, Lookup(r.entries, d.entries[i].0).value)
    {
      if i == 0 {
        assert d.entries[i] == (c1, d1);
      } else if i == 1 {
        assert d.entries[i] == (c2, d2);
      } else if i == 2 {
        assert d.entries[i] == (c3, d3);
      } else {
        assert d.entries[i] == (c4, d4);
      }
    }
  }

  /** A pass-1 step over a key the override has, whose merge is the
      override's value and reports nothing. */
  lemma StepReplaced(d: Node, r: Node, n: nat, key: string, dv: Node, rv: Node)
    requires d.Map? && n < |d.entries| && Compatible(d, r) && d.entries[n] == (key, dv)
    requires Lookup(r.entries, key) == Some(rv) && Compatible(dv, rv) && Merge(dv, rv) == Outcome(rv, [], [])
    ensures var prev := PassOne(d, r, n);
            PassOne(d, r, n + 1) == Pass(prev.entries + [(key, rv)], prev.newPaths, prev.extraPaths)
  {
    assert Prepended(key, []) == [];
    var prev := PassOne(d, r, n);
    assert prev.newPaths + [] == prev.newPaths && prev.extraPaths + [] == prev.extraPaths;
  }

  /** A pass-1 step over a key the override lacks: the default is kept and
      the key reported new. */
  lemma StepKept(d: Node, r: Node, n: nat, key: string, dv: Node)
    requires d.Map? && n < |d.entries| && Compatible(d, r) && d.entries[n] == (key, dv)
    requires Lookup(r.entries, key) == None
    ensures var prev := PassOne(d, r, n);
            PassOne(d, r, n + 1) == Pass(prev.entries + [(key, dv)], prev.newPaths + [[key]], prev.extraPaths)
  {
  }

  /** Pass 1 over `parent1`: the first two keys take the override's values,
      the other two keep their defaults and are reported new. */
  lemma ParentPassOne(d: Node, r: Node, c1: string, c2: string, c3: string, c4: string, a: string,
                      d1: Node, d2: Node, d3: Node, d4: Node, r1: Node, r2: Node, ra: Node)
    requires ParentKeys(d, r, c1, c2, c3, c4, a, d1, d2, d3, d4, r1, r2, ra)
    requires Compatible(d, r) && Compatible(d1, r1) && Compatible(d2, r2)
    requires Merge(d1, r1) == Outcome(r1, [], []) && Merge(d2, r2) == Outcome(r2, [], [])
    ensures PassOne(d, r, 4) == Pass([(c1, r1), (c2, r2), (c3, d3), (c4, d4)], [[c3], [c4]], [])
  {
    StepReplaced(d, r, 0, c1, d1, r1);
    StepReplaced(d, r, 1, c2, d2, r2);
    StepKept(d, r, 2, c3, d3);
    StepKept(d, r, 3, c4, d4);
    SnocFour((c1, r1), (c2, r2), (c3, d3), (c4, d4));
    SnocTwo([c3], [c4]);
    assert PassOne(d, r, 0) == Pass([], [], []);
  }

  /** `parent1` merged: pass 1 as above, then `a` is added last and
      reported extra. */
  lemma ParentShape(d: Node, r: Node, c1: string, c2: string, c3: string, c4: string, a: string,
                    d1: Node, d2: Node, d3: Node, d4: Node, r1: Node, r2: Node, ra: Node)
    requires ParentKeys(d, r, c1, c2, c3, c4, a, d1, d2, d3, d4, r1, r2, ra)
    requires Compatible(d1, r1) && Merge(d1, r1) == Outcome(r1, [], [])
    requires Compatible(d2, r2) && Merge(d2, r2) == Outcome(r2, [], [])
    ensures Compatible(d, r)
    ensures Merge(d, r) == Outcome(Map([(c1, r1), (c2, r2), (c3, d3), (c4, d4), (a, ra)]), [[c3], [c4]], [[a]])
  {
    ParentShapeCompatible(d, r, c1, c2, c3, c4, a, d1, d2, d3, d4, r1, r2, ra);
    ParentPassOne(d, r, c1, c2, c3, c4, a, d1, d2, d3, d4, r1, r2, ra);
    AppendFifth((c1, r1), (c2, r2), (c3, d3), (c4, d4), (a, ra));
    OneExtra(a, ra);
  }

  /** Under `child2`, the override's list replaces the default's. */
  lemma SubMerge()
    ensures Compatible(DefaultSub, OverrideSub)
    ensures Merge(DefaultSub, OverrideSub) == Outcome(OverrideSub, [], [])
  {
    var dl, rl := DefaultSub.entries[0].1, OverrideSub.entries[0].1;
    LeafReplaced(dl, rl);
    OneKey("subchild1", dl, rl);
    assert Prepended("subchild1", []) == [];
  }

  /** `parent1`: `child1` and `child2` take the override's values, `child3`
      and `child4` are new, `another_child` is extra. */
  lemma ParentMerge()
    ensures Compatible(DefaultParent, OverrideParent)
    ensures Merge(DefaultParent, OverrideParent)
            == Outcome(GeneratedParent, [["child3"], ["child4"]], [["another_child"]])
  {
    LeafReplaced(DefaultList, OverrideList);
    SubMerge();
    ParentLookups();
    ParentShape(DefaultParent, OverrideParent, "child1", "child2", "child3", "child4", "another_child",
                DefaultList, DefaultSub, Scalar("dummy_value"), Scalar(""),
                OverrideList, OverrideSub, Scalar("dummy123"));
  }

  lemma ParentLookups()
    ensures ParentKeys(DefaultParent, OverrideParent, "child1", "child2", "child3", "child4", "another_child",
                       DefaultList, DefaultSub, Scalar("dummy_value"), Scalar(""),
                       OverrideList, OverrideSub, Scalar("dummy123"))
  {
    ParentFound();
    ParentMissing("child3");
    ParentMissing("child4");
    ParentExtra();
  }

  lemma ParentFound()
    ensures Lookup(OverrideParent.entries, "child1") == Some(OverrideList)
    ensures Lookup(OverrideParent.entries, "child2") == Some(OverrideSub)
  {
    assert OverrideParent.entries[1..] == [("child2", OverrideSub), ("another_child", Scalar("dummy123"))];
  }

  /** The two keys new in the chart are not in the old override file. */
  lemma ParentMissing(key: string)
    requires key == "child3" || key == "child4"
    ensures Lookup(OverrideParent.entries, key) == None
  {
    var res := OverrideParent.entries;
    assert res[1..] == [("child2", OverrideSub), ("another_child", Scalar("dummy123"))];
    assert res[1..][1..] == [("another_child", Scalar("dummy123"))];
    assert res[1..][1..][1..] == [];
  }

  lemma ParentExtra()
    ensures ReferenceOnly(OverrideParent.entries, DefaultParent.entries) == [("another_child", Scalar("dummy123"))]
  {
    var res, des := OverrideParent.entries, DefaultParent.entries;
    assert res[..2] == [("child1", OverrideList), ("child2", OverrideSub)];
    assert res[..2][..1] == [("child1", OverrideList)] && res[..2][..1][..0] == [];
    assert KeysOf(des) == ["child1", "child2", "child3", "child4"];
    assert Lookup(des, "child1").Some?;
    assert ReferenceOnly(res[..2][..1], des) == [];
    assert Lookup(des, "child2").Some?;
    assert ReferenceOnly(res[..2], des) == [];
  }

  lemma SubWellFormed()
    ensures WellFormed(DefaultSub) && WellFormed(OverrideSub)
  {
    assert WellFormed(DefaultSub.entries[0].1.items[0]);
    assert WellFormed(OverrideSub.entries[0].1.items[0]);
  }

  lemma ParentWellFormed()
    ensures WellFormed(DefaultParent) && WellFormed(OverrideParent)
  {
    SubWellFormed();
  }

  lemma ExampleWellFormed()
    ensures WellFormed(Defaults) && WellFormed(Overrides)
  {
    ParentWellFormed();
  }

  /** The merge of the example gives the generated file, reports the chart's
      `parent1.child3` and `parent1.child4` as new and the override's
      `parent1.another_child` as extra. */
  lemma ExampleMerge()
    ensures WellFormed(Defaults) && WellFormed(Overrides) && Compatible(Defaults, Overrides)
    ensures Merge(Defaults, Overrides)
            == Outcome(Generated, [["parent1", "child3"], ["parent1", "child4"]], [["parent1", "another_child"]])
  {
    ExampleWellFormed();
    ParentMerge();
    OneKey("parent1", DefaultParent, OverrideParent);
    ExamplePaths();
  }

  /** The paths `parent1` reports, seen from the top of the document. */
  lemma ExamplePaths()
    ensures Prepended("parent1", [["child3"], ["child4"]]) == [["parent1", "child3"], ["parent1", "child4"]]
    ensures Prepended("parent1", [["another_child"]]) == [["parent1", "another_child"]]
  {
    PrependedPair("parent1", "child3");
    PrependedPair("parent1", "child4");
    PrependedPair("parent1", "another_child");
  }

  /** Below the top level, a two-key path is shown as the keys joined by a dot. */
  lemma RenderTwo(k1: string, k2: string)
    requires k1 != ""
    ensures Render("", [k1, k2]) == k1 + "." + k2
  {
    assert [k1, k2][0] == k1 && [k1, k2][1..] == [k2];
    assert JoinPath("", k1) == k1;
    assert Render("", [k1, k2]) == Render(k1, [k2]);
    assert [k2][0] == k2 && [k2][1..] == [];
    assert Render(k1, [k2]) == Render(k1 + "." + k2, []);
  }

  lemma ExampleRendered()
    ensures RenderAll("", [["parent1", "child3"], ["parent1", "child4"]]) == ["parent1.child3", "parent1.child4"]
    ensures RenderAll("", [["parent1", "another_child"]]) == ["parent1.another_child"]
  {
    RenderTwo("parent1", "child3");
    RenderTwo("parent1", "child4");
    RenderTwo("parent1", "another_child");
    Dotted();
  }

  /** The script run on the example as `main` runs it, from the top with two
      empty lists, reports `parent1.child3` and `parent1.child4` as new and
      `parent1.another_child` as extra. */
  method RunExample() returns (merged: Node, newKeys: seq<string>, extraKeys: seq<string>)
    ensures merged == Generated
    ensures newKeys == ["parent1.child3", "parent1.child4"]
    ensures extraKeys == ["parent1.another_child"]
  {
    ExampleMerge();
    ExampleRendered();
    merged, newKeys, extraKeys := RecursiveMerge(Defaults, Overrides, "", Some([]), Some([]));
  }

  // Identities between literal sequences and strings. Each is proved on its
  // own, where the solver decides it at once; stated inline, next to the
  // facts about the merge, the same equalities are far costlier.

  lemma SnocFour<T>(x1: T, x2: T, x3: T, x4: T)
    ensures [] + [x1] + [x2] + [x3] + [x4] == [x1, x2, x3, x4]
  {
  }

  lemma SnocTwo<T>(x1: T, x2: T)
    ensures [] + [x1] + [x2] == [x1, x2]
  {
  }

  lemma AppendFifth<T>(x1: T, x2: T, x3: T, x4: T, x5: T)
    ensures [x1, x2, x3, x4] + [x5] == [x1, x2, x3, x4, x5]
  {
  }

  lemma OneExtra(a: string, ra: Node)
    ensures [] + TopLevel([(a, ra)]) == [[a]]
  {
  }

  lemma PrependedPair(k1: string, k2: string)
    ensures [k1] + [k2] == [k1, k2]
  {
  }

  lemma Dotted()
    ensures "parent1" + "." + "child3" == "parent1.child3"
    ensures "parent1" + "." + "child4" == "parent1.child4"
    ensures "parent1" + "." + "another_child" == "parent1.another_child"
  {
  }
}
