/** What `recursive_merge` reports in `new_keys` and `extra_keys`: exactly
    the key paths a reader of the two documents would call new and extra. */
module MergeReports {
  import opened ConfigTree
  import opened OverrideMerge
  import opened MergeProperties

  function Parent(kp: KeyPath): KeyPath
    requires |kp| > 0
  {
    kp[..|kp| - 1]
  }

  /** `kp` names a key the defaults have and the reference lacks, below a
      position both documents reach. */
  predicate IsNewKey(d: Node, r: Node, kp: KeyPath)
  {
    && |kp| > 0
    && At(d, kp).Some?
    && At(r, kp).None?
    && At(r, Parent(kp)).Some?
  }

  /** `kp` names a key the reference has and the defaults lack, below a
      position where the defaults hold a mapping. */
  predicate IsExtraKey(d: Node, r: Node, kp: KeyPath)
  {
    && |kp| > 0
    && At(r, kp).Some?
    && At(d, kp).None?
    && At(d, Parent(kp)).Some?
    && At(d, Parent(kp)).value.Map?
  }

  /** Following a non-empty path from a mapping goes through its first key. */
  lemma AtFirst(n: Node, kp: KeyPath)
    requires n.Map? && |kp| > 0
    ensures At(n, kp) == if Lookup(n.entries, kp[0]).None? then None
                         else At(Lookup(n.entries, kp[0]).value, kp[1..])
  {
  }

  /** The parent of a path of two or more keys starts with the same key, and
      the rest of it is the parent of the rest of the path. */
  lemma ParentTail(kp: KeyPath)
    requires |kp| > 1
    ensures |Parent(kp)| > 0 && Parent(kp)[0] == kp[0] && Parent(kp)[1..] == Parent(kp[1..])
  {
  }

  /** Below a key that both documents have, the classification is that of the
      two values under it. */
  lemma StepShared(d: Node, r: Node, kp: KeyPath, dv: Node, rv: Node)
    requires d.Map? && r.Map? && |kp| > 0
    requires Lookup(d.entries, kp[0]) == Some(dv) && Lookup(r.entries, kp[0]) == Some(rv)
    ensures IsNewKey(d, r, kp) <==> IsNewKey(dv, rv, kp[1..])
    ensures IsExtraKey(d, r, kp) <==> IsExtraKey(dv, rv, kp[1..])
  {
    AtFirst(d, kp);
    AtFirst(r, kp);
    if |kp| == 1 {
      assert kp[1..] == [];
    } else {
      ParentTail(kp);
      AtFirst(d, Parent(kp));
      AtFirst(r, Parent(kp));
    }
  }

  /** Below a key that only the defaults have, the key itself is new and
      nothing is extra. */
  lemma StepDefaultOnly(d: Node, r: Node, kp: KeyPath)
    requires d.Map? && r.Map? && |kp| > 0
    requires Lookup(d.entries, kp[0]).Some? && Lookup(r.entries, kp[0]).None?
    ensures IsNewKey(d, r, kp) <==> |kp| == 1
    ensures !IsExtraKey(d, r, kp)
  {
    AtFirst(d, kp);
    AtFirst(r, kp);
    if |kp| == 1 {
      assert kp[1..] == [] && Parent(kp) == [];
    } else {
      ParentTail(kp);
      AtFirst(r, Parent(kp));
    }
  }

  /** Below a key that the defaults lack, only the key itself can be extra,
      and it is when the reference has it. */
  lemma StepNotInDefault(d: Node, r: Node, kp: KeyPath)
    requires d.Map? && r.Map? && |kp| > 0
    requires Lookup(d.entries, kp[0]).None?
    ensures !IsNewKey(d, r, kp)
    ensures IsExtraKey(d, r, kp) <==> |kp| == 1 && Lookup(r.entries, kp[0]).Some?
  {
    AtFirst(d, kp);
    AtFirst(r, kp);
    if |kp| == 1 {
      assert kp[1..] == [] && Parent(kp) == [];
    } else {
      ParentTail(kp);
      AtFirst(d, Parent(kp));
    }
  }

  /** Below a default leaf nothing is new or extra. */
  lemma StepLeaf(d: Node, r: Node, kp: KeyPath)
    requires !d.Map?
    ensures !IsNewKey(d, r, kp) && !IsExtraKey(d, r, kp)
  {
    if |kp| > 1 {
      assert At(d, Parent(kp)) == None;
    } else if |kp| == 1 {
      assert Parent(kp) == [];
    }
  }

  lemma PrependedMember(key: string, paths: seq<KeyPath>, kp: KeyPath)
    ensures kp in Prepended(key, paths) <==> |kp| > 0 && kp[0] == key && kp[1..] in paths
  {
    if |kp| > 0 && kp[0] == key && kp[1..] in paths {
      var i :| 0 <= i < |paths| && paths[i] == kp[1..];
      assert Prepended(key, paths)[i] == kp;
    }
  }

  lemma TopLevelMember(es: seq<(string, Node)>, kp: KeyPath)
    ensures kp in TopLevel(es) <==> |kp| == 1 && kp[0] in KeysOf(es)
  {
    if |kp| == 1 && kp[0] in KeysOf(es) {
      var i :| 0 <= i < |es| && KeysOf(es)[i] == kp[0];
      assert TopLevel(es)[i] == [es[i].0] == kp;
    }
    if kp in TopLevel(es) {
      var i :| 0 <= i < |es| && TopLevel(es)[i] == kp;
      assert KeysOf(es)[i] == kp[0];
    }
  }

  /** Whether a path starts with one of the first `n` keys of a mapping. */
  predicate Under(es: seq<(string, Node)>, n: nat, kp: KeyPath)
    requires n <= |es|
  {
    |kp| > 0 && kp[0] in KeysOf(es)[..n]
  }

  /** The keys of entries `0 ..< n` and the key of entry `n`, apart. */
  lemma UnderSplit(es: seq<(string, Node)>, n: nat, kp: KeyPath)
    requires UniqueKeys(es) && n < |es|
    ensures Under(es, n + 1, kp) <==> Under(es, n, kp) || (|kp| > 0 && kp[0] == es[n].0)
    ensures !(Under(es, n, kp) && kp[0] == es[n].0)
  {
    var ks := KeysOf(es);
    assert ks[..n + 1] == ks[..n] + [es[n].0];
    if Under(es, n, kp) {
      var m :| 0 <= m < n && ks[..n][m] == kp[0];
      assert ks[m] == es[m].0;
    }
  }

  /** One step of pass 1, for one path: whether the path is reported after
      entry `n` follows from whether it was reported before, and, for a key
      both documents have, from what the nested merge reports. */
  lemma PassOneStepReports(d: Node, r: Node, n: nat, kp: KeyPath)
    requires WellFormed(d) && Compatible(d, r) && d.Map? && n < |d.entries|
    requires kp in PassOne(d, r, n).newPaths <==> Under(d.entries, n, kp) && IsNewKey(d, r, kp)
    requires kp in PassOne(d, r, n).extraPaths <==> Under(d.entries, n, kp) && IsExtraKey(d, r, kp)
    requires |kp| > 0 && kp[0] == d.entries[n].0 && Lookup(r.entries, kp[0]).Some? ==>
               var dv, rv := d.entries[n].1, Lookup(r.entries, kp[0]).value;
               Compatible(dv, rv)
               && (kp[1..] in Merge(dv, rv).newPaths <==> IsNewKey(dv, rv, kp[1..]))
               && (kp[1..] in Merge(dv, rv).extraPaths <==> IsExtraKey(dv, rv, kp[1..]))
    ensures kp in PassOne(d, r, n + 1).newPaths <==> Under(d.entries, n + 1, kp) && IsNewKey(d, r, kp)
    ensures kp in PassOne(d, r, n + 1).extraPaths <==> Under(d.entries, n + 1, kp) && IsExtraKey(d, r, kp)
  {
    var key, dv := d.entries[n].0, d.entries[n].1;
    UnderSplit(d.entries, n, kp);
    LookupUnique(d.entries, n);
    assert d.entries[n] in d.entries;
    match Lookup(r.entries, key)
    case Some(rv) =>
      var sub := Merge(dv, rv);
      PrependedMember(key, sub.newPaths, kp);
      PrependedMember(key, sub.extraPaths, kp);
      if |kp| > 0 && kp[0] == key {
        StepShared(d, r, kp, dv, rv);
      }
    case None =>
      if |kp| == 1 && kp[0] == key {
        assert kp == [key];
      }
      if |kp| > 0 && kp[0] == key {
        StepDefaultOnly(d, r, kp);
      }
  }

  /** Pass 1 over the first `n` default keys reports exactly the new and
      extra paths that start with one of those keys. */
  lemma {:induction false} PassOneReports(d: Node, r: Node, n: nat)
    requires WellFormed(d) && WellFormed(r) && Compatible(d, r) && d.Map? && n <= |d.entries|
    ensures forall kp :: kp in PassOne(d, r, n).newPaths <==> Under(d.entries, n, kp) && IsNewKey(d, r, kp)
    ensures forall kp :: kp in PassOne(d, r, n).extraPaths <==> Under(d.entries, n, kp) && IsExtraKey(d, r, kp)
    decreases d, 0, n
  {
    if n > 0 {
      PassOneReports(d, r, n - 1);
      var key, dv := d.entries[n - 1].0, d.entries[n - 1].1;
      assert d.entries[n - 1] in d.entries;
      var found := Lookup(r.entries, key);
      if found.Some? {
        LookupWellFormed(r.entries, key);
        MergeReportsExact(dv, found.value);
      }
      forall kp
        ensures kp in PassOne(d, r, n).newPaths <==> Under(d.entries, n, kp) && IsNewKey(d, r, kp)
        ensures kp in PassOne(d, r, n).extraPaths <==> Under(d.entries, n, kp) && IsExtraKey(d, r, kp)
      {
        PassOneStepReports(d, r, n - 1, kp);
      }
    }
  }

  /** For one path, the merge of two mappings reports it exactly when the
      definitions say, given that pass 1 over all default keys does. */
  lemma MapReports(d: Node, r: Node, kp: KeyPath)
    requires WellFormed(d) && WellFormed(r) && Compatible(d, r) && d.Map?
    requires var p := PassOne(d, r, |d.entries|);
             && (kp in p.newPaths <==> Under(d.entries, |d.entries|, kp) && IsNewKey(d, r, kp))
             && (kp in p.extraPaths <==> Under(d.entries, |d.entries|, kp) && IsExtraKey(d, r, kp))
    ensures kp in Merge(d, r).newPaths <==> IsNewKey(d, r, kp)
    ensures kp in Merge(d, r).extraPaths <==> IsExtraKey(d, r, kp)
  {
    var p := PassOne(d, r, |d.entries|);
    var extra := ReferenceOnly(r.entries, d.entries);
    var ks := KeysOf(d.entries);
    assert ks[..|d.entries|] == ks;
    assert Merge(d, r).extraPaths == p.extraPaths + TopLevel(extra);
    var inTop := kp in TopLevel(extra);
    assert kp in Merge(d, r).extraPaths <==> kp in p.extraPaths || inTop;
    TopLevelMember(extra, kp);
    if |kp| > 0 {
      if kp[0] !in ks {
        StepNotInDefault(d, r, kp);
        ReferenceOnlyMember(d, r, kp[0]);
      } else {
        ReferenceOnlyMember(d, r, kp[0]);
      }
    }
  }

  /** A key is among those pass 2 keeps exactly when the reference has it and
      the defaults do not. */
  lemma ReferenceOnlyMember(d: Node, r: Node, key: string)
    requires d.Map? && r.Map?
    ensures key in KeysOf(ReferenceOnly(r.entries, d.entries))
            <==> key !in KeysOf(d.entries) && Lookup(r.entries, key).Some?
  {
    ReferenceOnlyKeys(r.entries, d.entries);
  }

  /** The merge reports as new exactly the paths of keys that the defaults
      have and the reference lacks, and as extra exactly the paths of keys
      that the reference has and the defaults lack: key presence alone
      decides, whatever the values. */
  lemma {:induction false} MergeReportsExact(d: Node, r: Node)
    requires WellFormed(d) && WellFormed(r) && Compatible(d, r)
    ensures forall kp :: kp in Merge(d, r).newPaths <==> IsNewKey(d, r, kp)
    ensures forall kp :: kp in Merge(d, r).extraPaths <==> IsExtraKey(d, r, kp)
    decreases d, 1, 0
  {
    if !d.Map? {
      forall kp ensures !IsNewKey(d, r, kp) && !IsExtraKey(d, r, kp) {
        StepLeaf(d, r, kp);
      }
    } else {
      PassOneReports(d, r, |d.entries|);
      forall kp
        ensures kp in Merge(d, r).newPaths <==> IsNewKey(d, r, kp)
        ensures kp in Merge(d, r).extraPaths <==> IsExtraKey(d, r, kp)
      {
        MapReports(d, r, kp);
      }
    }
  }

  /** A key path present in both documents is never reported, as new or as
      extra, even when the reference value there is null. */
  lemma PresentInBothNotReported(d: Node, r: Node, kp: KeyPath)
    requires WellFormed(d) && WellFormed(r) && Compatible(d, r)
    requires At(d, kp).Some? && At(r, kp).Some?
    ensures kp !in Merge(d, r).newPaths && kp !in Merge(d, r).extraPaths
  {
    MergeReportsExact(d, r);
  }
}
