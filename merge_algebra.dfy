/** How the override merge behaves when it is repeated: a document merged with
    itself is unchanged, and merging a result again with the same overrides
    changes nothing. */
module MergeAlgebra {
  import opened ConfigTree
  import opened OverrideMerge
  import opened MergeProperties

  /** A well-formed document has the same shape as itself. */
  lemma SelfCompatible(t: Node)
    requires WellFormed(t)
    ensures Compatible(t, t)
    decreases t
  {
    if t.Map? {
      forall i | 0 <= i < |t.entries| && Lookup(t.entries, t.entries[i].0).Some?
        ensures Compatible(t.entries[i].1, Lookup(t.entries, t.entries[i].0).value)
      {
        LookupUnique(t.entries, i);
        assert t.entries[i] in t.entries;
        SelfCompatible(t.entries[i].1);
      }
    }
  }

  lemma SnocSlice<T>(s: seq<T>, n: nat)
    requires 0 < n <= |s|
    ensures s[..n - 1] + [s[n - 1]] == s[..n]
  {
  }

  lemma InKeysOf(es: seq<(string, Node)>, e: (string, Node))
    requires e in es
    ensures e.0 in KeysOf(es)
  {
    var i :| 0 <= i < |es| && es[i] == e;
    assert KeysOf(es)[i] == e.0;
  }

  /** Pass 2 keeps nothing when every reference key is a default key. */
  lemma {:induction false} ReferenceOnlyCovered(res: seq<(string, Node)>, des: seq<(string, Node)>)
    requires forall e :: e in res ==> e.0 in KeysOf(des)
    ensures ReferenceOnly(res, des) == []
  {
    if res != [] {
      var init := res[..|res| - 1];
      assert forall e :: e in init ==> e in res;
      ReferenceOnlyCovered(init, des);
      assert res[|res| - 1] in res;
    }
  }

  /** A document merged with itself is unchanged, and nothing is reported. */
  lemma {:induction false} SelfMerge(t: Node)
    requires WellFormed(t)
    ensures Compatible(t, t) && Merge(t, t) == Outcome(t, [], [])
    decreases t, 1, 0
  {
    SelfCompatible(t);
    if t.Map? {
      SelfPass(t, |t.entries|);
      assert t.entries[..|t.entries|] == t.entries;
      forall e | e in t.entries ensures e.0 in KeysOf(t.entries) {
        InKeysOf(t.entries, e);
      }
      ReferenceOnlyCovered(t.entries, t.entries);
      assert t.entries + [] == t.entries;
    }
  }

  /** Pass 1 of a self-merge over the first `n` keys keeps their entries. */
  lemma {:induction false} SelfPass(t: Node, n: nat)
    requires WellFormed(t) && t.Map? && n <= |t.entries|
    ensures Compatible(t, t) && PassOne(t, t, n) == Pass(t.entries[..n], [], [])
    decreases t, 0, n
  {
    SelfCompatible(t);
    if n > 0 {
      SelfPass(t, n - 1);
      LookupUnique(t.entries, n - 1);
      assert t.entries[n - 1] in t.entries;
      SelfMerge(t.entries[n - 1].1);
      PassOneKeeps(t, t, n);
      SnocSlice(t.entries, n);
    }
  }

  /** When the reference holds exactly the default's entry `n - 1`, and that
      value merges with itself to itself, pass 1 keeps the entry and reports
      nothing for it. */
  lemma PassOneKeeps(d: Node, r: Node, n: nat)
    requires d.Map? && Compatible(d, r) && 0 < n <= |d.entries|
    requires Lookup(r.entries, d.entries[n - 1].0) == Some(d.entries[n - 1].1)
    requires Compatible(d.entries[n - 1].1, d.entries[n - 1].1)
    requires Merge(d.entries[n - 1].1, d.entries[n - 1].1) == Outcome(d.entries[n - 1].1, [], [])
    ensures var prev := PassOne(d, r, n - 1);
            PassOne(d, r, n) == Pass(prev.entries + [d.entries[n - 1]], prev.newPaths, prev.extraPaths)
  {
    assert Prepended(d.entries[n - 1].0, []) == [];
  }

  /** The merged document has the shape of the reference, so it can be merged
      with the same reference again. */
  lemma MergeCompatibleWithRef(d: Node, r: Node)
    requires WellFormed(d) && WellFormed(r) && Compatible(d, r)
    ensures Compatible(Merge(d, r).merged, r)
    decreases d
  {
    var m := Merge(d, r).merged;
    if !d.Map? {
      if !r.Null? {
        SelfCompatible(r);
      }
    } else {
      var p := PassOne(d, r, |d.entries|);
      var extra := ReferenceOnly(r.entries, d.entries);
      PassOneEntries(d, r, |d.entries|);
      forall i | 0 <= i < |m.entries| && Lookup(r.entries, m.entries[i].0).Some?
        ensures Compatible(m.entries[i].1, Lookup(r.entries, m.entries[i].0).value)
      {
        if i < |p.entries| {
          assert m.entries[i] == MergedEntry(d, r, i);
          assert d.entries[i] in d.entries;
          var rv := Lookup(r.entries, d.entries[i].0).value;
          LookupWellFormed(r.entries, d.entries[i].0);
          MergeCompatibleWithRef(d.entries[i].1, rv);
        } else {
          var e := extra[i - |p.entries|];
          assert m.entries[i] == e;
          assert e in extra;
          LookupMember(r.entries, e.0, e.1);
          assert e in r.entries;
          SelfCompatible(e.1);
        }
      }
    }
  }

  /** Merging the result again with the same overrides gives the same
      document and the same new keys, and reports no extra keys: every
      reference key is now in the merged document. */
  lemma {:induction false} Idempotence(d: Node, r: Node)
    requires WellFormed(d) && WellFormed(r) && Compatible(d, r)
    ensures Compatible(Merge(d, r).merged, r)
    ensures Merge(Merge(d, r).merged, r) == Outcome(Merge(d, r).merged, Merge(d, r).newPaths, [])
    decreases d, 1, 0
  {
    MergeCompatibleWithRef(d, r);
    var m := Merge(d, r).merged;
    if !d.Map? {
      if !r.Null? {
        SelfMerge(r);
      }
    } else {
      IdemPass(d, r, |d.entries|);
      IdemMap(d, r);
    }
  }

  /** The mapping case of `Idempotence`, given that the second pass 1 over
      the keys that came from the defaults repeats the first. */
  lemma IdemMap(d: Node, r: Node)
    requires WellFormed(d) && WellFormed(r) && Compatible(d, r) && d.Map?
    requires Compatible(Merge(d, r).merged, r) && Merge(d, r).merged.Map?
    requires |d.entries| <= |Merge(d, r).merged.entries|
    requires var p := PassOne(d, r, |d.entries|);
             PassOne(Merge(d, r).merged, r, |d.entries|) == Pass(p.entries, p.newPaths, [])
    ensures Merge(Merge(d, r).merged, r) == Outcome(Merge(d, r).merged, Merge(d, r).newPaths, [])
  {
    var m, n := Merge(d, r).merged, |d.entries|;
    MergedLayout(d, r);
    assert m.entries[..n] == PassOne(d, r, n).entries;
    ReferenceSuffix(d, r);
    SelfSuffix(m, r, n, n, PassOne(d, r, n).newPaths);
    ReferenceCovered(d, r);
    assert m.entries + [] == m.entries;
  }

  /** The merged entries after the default's keys are the reference's own. */
  lemma ReferenceSuffix(d: Node, r: Node)
    requires WellFormed(d) && WellFormed(r) && Compatible(d, r) && d.Map?
    ensures Merge(d, r).merged.Map? && |d.entries| <= |Merge(d, r).merged.entries|
    ensures var m := Merge(d, r).merged;
            forall i :: |d.entries| <= i < |m.entries| ==> Lookup(r.entries, m.entries[i].0) == Some(m.entries[i].1)
    ensures var m := Merge(d, r).merged;
            forall i :: |d.entries| <= i < |m.entries| ==> WellFormed(m.entries[i].1)
  {
    var m, n := Merge(d, r).merged, |d.entries|;
    MergedLayout(d, r);
    var extra := ReferenceOnly(r.entries, d.entries);
    forall i | n <= i < |m.entries|
      ensures Lookup(r.entries, m.entries[i].0) == Some(m.entries[i].1) && WellFormed(m.entries[i].1)
    {
      var e := extra[i - n];
      assert m.entries[i] == e && e in extra && e in r.entries;
      LookupMember(r.entries, e.0, e.1);
      MemberWellFormed(r.entries, e);
    }
  }

  /** Every reference key is in the merged mapping, so merging it again with
      the reference leaves nothing for pass 2. */
  lemma ReferenceCovered(d: Node, r: Node)
    requires WellFormed(d) && WellFormed(r) && Compatible(d, r) && d.Map?
    ensures Merge(d, r).merged.Map?
    ensures ReferenceOnly(r.entries, Merge(d, r).merged.entries) == []
  {
    var m := Merge(d, r).merged;
    MergeKeys(d, r);
    forall e | e in r.entries ensures e.0 in KeysOf(m.entries) {
      InKeysOf(r.entries, e);
    }
    ReferenceOnlyCovered(r.entries, m.entries);
  }

  /** Pass 1 of the second merge, over the keys that came from the defaults,
      repeats pass 1 of the first merge and reports no extra key. */
  lemma {:induction false} IdemPass(d: Node, r: Node, n: nat)
    requires WellFormed(d) && WellFormed(r) && Compatible(d, r) && d.Map? && n <= |d.entries|
    ensures Compatible(Merge(d, r).merged, r)
    ensures n <= |Merge(d, r).merged.entries|
    ensures PassOne(Merge(d, r).merged, r, n)
            == Pass(PassOne(d, r, n).entries, PassOne(d, r, n).newPaths, [])
    decreases d, 0, n
  {
    MergeCompatibleWithRef(d, r);
    MergedLayout(d, r);
    if n > 0 {
      IdemPass(d, r, n - 1);
      var key, dv := d.entries[n - 1].0, d.entries[n - 1].1;
      assert d.entries[n - 1] in d.entries;
      var found := Lookup(r.entries, key);
      if found.Some? {
        LookupWellFormed(r.entries, key);
        Idempotence(dv, found.value);
      }
      IdemPassStep(d, r, n - 1);
    }
  }

  /** One step of `IdemPass`, given the step before it and, for a key the
      reference has, idempotence of the nested merge. */
  lemma IdemPassStep(d: Node, r: Node, n: nat)
    requires Compatible(d, r) && d.Map? && n < |d.entries|
    requires Compatible(Merge(d, r).merged, r)
    requires Merge(d, r).merged.Map? && n < |Merge(d, r).merged.entries|
    requires PassOne(Merge(d, r).merged, r, n)
             == Pass(PassOne(d, r, n).entries, PassOne(d, r, n).newPaths, [])
    requires var key := d.entries[n].0;
             Lookup(r.entries, key).Some? ==>
               var dv, rv := d.entries[n].1, Lookup(r.entries, key).value;
               && Compatible(dv, rv)
               && Compatible(Merge(dv, rv).merged, rv)
               && Merge(Merge(dv, rv).merged, rv) == Outcome(Merge(dv, rv).merged, Merge(dv, rv).newPaths, [])
    ensures PassOne(Merge(d, r).merged, r, n + 1)
            == Pass(PassOne(d, r, n + 1).entries, PassOne(d, r, n + 1).newPaths, [])
  {
    var m := Merge(d, r).merged;
    PassOneEntries(d, r, |d.entries|);
    assert m.entries[n] == MergedEntry(d, r, n);
    assert Prepended(d.entries[n].0, []) == [];
  }

  /** Pass 1 over the entries of a mapping `m` from `k` on, when the entries
      from `n0` on are what the reference holds under their keys: each is
      merged with itself, so the entries are kept and nothing more is
      reported. */
  lemma {:induction false} SelfSuffix(m: Node, r: Node, n0: nat, k: nat, newPaths: seq<KeyPath>)
    requires m.Map? && r.Map? && Compatible(m, r) && n0 <= k <= |m.entries|
    requires forall i :: n0 <= i < |m.entries| ==> Lookup(r.entries, m.entries[i].0) == Some(m.entries[i].1)
    requires forall i :: n0 <= i < |m.entries| ==> WellFormed(m.entries[i].1)
    requires PassOne(m, r, k) == Pass(m.entries[..k], newPaths, [])
    ensures PassOne(m, r, |m.entries|) == Pass(m.entries, newPaths, [])
    decreases |m.entries| - k
  {
    if k < |m.entries| {
      SelfSuffixStep(m, r, n0, k);
      SelfSuffix(m, r, n0, k + 1, newPaths);
    } else {
      assert m.entries[..k] == m.entries;
    }
  }

  /** One step of `SelfSuffix`: entry `k` of the reference merges with itself. */
  lemma SelfSuffixStep(m: Node, r: Node, n0: nat, k: nat)
    requires m.Map? && r.Map? && Compatible(m, r) && n0 <= k < |m.entries|
    requires forall i :: n0 <= i < |m.entries| ==> Lookup(r.entries, m.entries[i].0) == Some(m.entries[i].1)
    requires forall i :: n0 <= i < |m.entries| ==> WellFormed(m.entries[i].1)
    requires PassOne(m, r, k).entries == m.entries[..k]
    ensures PassOne(m, r, k + 1) == Pass(m.entries[..k + 1], PassOne(m, r, k).newPaths, PassOne(m, r, k).extraPaths)
  {
    SelfMerge(m.entries[k].1);
    PassOneKeeps(m, r, k + 1);
    SnocSlice(m.entries, k + 1);
  }

  lemma MemberWellFormed(es: seq<(string, Node)>, e: (string, Node))
    requires WellFormed(Map(es)) && e in es
    ensures WellFormed(e.1)
  {
    var j :| 0 <= j < |es| && es[j] == e;
  }
}
