/** What `recursive_merge` promises about the merged mapping: which keys it
    has and in which order, and which value each key carries. */
module MergeProperties {
  import opened ConfigTree
  import opened OverrideMerge

  /** The elements of `s` that do not occur in `t`, in the order of `s`. */
  function Without(s: seq<string>, t: seq<string>): (w: seq<string>)
    ensures forall x :: x in w <==> x in s && x !in t
  {
    if s == [] then []
    else (if s[0] in t then [] else [s[0]]) + Without(s[1..], t)
  }

  /** No element occurs twice: `UniqueKeys` stated on a plain sequence of
      keys, as `Without` produces them; `UniqueKeysDistinct` relates the two. */
  predicate Distinct(s: seq<string>)
  {
    forall i, j :: 0 <= i < j < |s| ==> s[i] != s[j]
  }

  lemma {:induction false} WithoutSnoc(s: seq<string>, x: string, t: seq<string>)
    ensures Without(s + [x], t) == Without(s, t) + (if x in t then [] else [x])
  {
    if s == [] {
      assert [] + [x] == [x];
    } else {
      assert (s + [x])[1..] == s[1..] + [x];
      WithoutSnoc(s[1..], x, t);
    }
  }

  lemma {:induction false} WithoutDistinct(s: seq<string>, t: seq<string>)
    requires Distinct(s)
    ensures Distinct(Without(s, t))
  {
    if s != [] {
      WithoutDistinct(s[1..], t);
      assert s[0] !in s[1..];
    }
  }

  /** Pass 2 keeps, in order, exactly the reference keys the defaults lack. */
  lemma {:induction false} ReferenceOnlyKeys(res: seq<(string, Node)>, des: seq<(string, Node)>)
    ensures KeysOf(ReferenceOnly(res, des)) == Without(KeysOf(res), KeysOf(des))
  {
    if res == [] {
      assert KeysOf(res) == [];
    } else {
      var init, last := res[..|res| - 1], res[|res| - 1];
      var prev := ReferenceOnly(init, des);
      ReferenceOnlyKeys(init, des);
      assert res == init + [last];
      KeysOfConcat(init, [last]);
      assert KeysOf([last]) == [last.0];
      WithoutSnoc(KeysOf(init), last.0, KeysOf(des));
      if Lookup(des, last.0).None? {
        KeysOfConcat(prev, [last]);
        assert ReferenceOnly(res, des) == prev + [last];
      } else {
        assert ReferenceOnly(res, des) == prev;
      }
    }
  }

  lemma UniqueKeysDistinct(es: seq<(string, Node)>)
    ensures UniqueKeys(es) <==> Distinct(KeysOf(es))
  {
    var ks := KeysOf(es);
    assert forall i :: 0 <= i < |es| ==> ks[i] == es[i].0;
  }

  /** When the defaults hold a mapping, the merged tree is a mapping whose keys
      are the default's keys in the default's order followed by the keys only
      the reference has, in the reference's order: so every key of either
      tree is there, and none twice. */
  lemma MergeKeys(d: Node, r: Node)
    requires WellFormed(d) && WellFormed(r) && Compatible(d, r) && d.Map?
    ensures Merge(d, r).merged.Map?
    ensures KeysOf(Merge(d, r).merged.entries)
            == KeysOf(d.entries) + Without(KeysOf(r.entries), KeysOf(d.entries))
    ensures forall k :: k in KeysOf(Merge(d, r).merged.entries) <==> k in KeysOf(d.entries) || k in KeysOf(r.entries)
    ensures UniqueKeys(Merge(d, r).merged.entries)
  {
    var p := PassOne(d, r, |d.entries|);
    var extra := ReferenceOnly(r.entries, d.entries);
    KeysOfConcat(p.entries, extra);
    assert KeysOf(p.entries) == KeysOf(d.entries);
    ReferenceOnlyKeys(r.entries, d.entries);
    UniqueKeysDistinct(d.entries);
    UniqueKeysDistinct(r.entries);
    WithoutDistinct(KeysOf(r.entries), KeysOf(d.entries));
    UniqueKeysDistinct(Merge(d, r).merged.entries);
  }

  /** The entry that pass 1 makes of entry `i` of the default mapping: merged
      with the reference's value when the reference has the key, kept as it
      is otherwise. */
  function MergedEntry(d: Node, r: Node, i: nat): (string, Node)
    requires d.Map? && i < |d.entries| && Compatible(d, r)
  {
    var key, dv := d.entries[i].0, d.entries[i].1;
    match Lookup(r.entries, key)
    case Some(rv) => (key, Merge(dv, rv).merged)
    case None => (key, dv)
  }

  lemma {:induction false} PassOneEntries(d: Node, r: Node, n: nat)
    requires d.Map? && n <= |d.entries| && Compatible(d, r)
    ensures forall i :: 0 <= i < n ==> PassOne(d, r, n).entries[i] == MergedEntry(d, r, i)
  {
    if n > 0 {
      PassOneEntries(d, r, n - 1);
    }
  }

  /** A key the defaults hold is compatible with the reference's value for it. */
  lemma CompatibleChild(d: Node, r: Node, key: string)
    requires Compatible(d, r) && d.Map? && Lookup(d.entries, key).Some? && Lookup(r.entries, key).Some?
    ensures Compatible(Lookup(d.entries, key).value, Lookup(r.entries, key).value)
  {
    var i :| 0 <= i < |d.entries| && d.entries[i] == (key, Lookup(d.entries, key).value);
  }

  /** The keys of pass 1's entries are the default's keys, so the merged
      entries are a mapping with unique keys laid out as pass 1's entries
      followed by pass 2's. */
  lemma MergedLayout(d: Node, r: Node)
    requires WellFormed(d) && WellFormed(r) && Compatible(d, r) && d.Map?
    ensures var p, extra := PassOne(d, r, |d.entries|), ReferenceOnly(r.entries, d.entries);
            && Merge(d, r).merged.entries == p.entries + extra
            && KeysOf(p.entries) == KeysOf(d.entries)
            && UniqueKeys(p.entries) && UniqueKeys(extra)
  {
    var p, extra := PassOne(d, r, |d.entries|), ReferenceOnly(r.entries, d.entries);
    assert KeysOf(p.entries) == KeysOf(d.entries);
    UniqueKeysDistinct(d.entries);
    UniqueKeysDistinct(p.entries);
    ReferenceOnlyKeys(r.entries, d.entries);
    UniqueKeysDistinct(r.entries);
    WithoutDistinct(KeysOf(r.entries), KeysOf(d.entries));
    UniqueKeysDistinct(extra);
  }

  /** A key the defaults hold keeps its pass-1 entry in the merged mapping. */
  lemma MergeValueInDefault(d: Node, r: Node, key: string)
    requires WellFormed(d) && WellFormed(r) && Compatible(d, r) && d.Map?
    requires Lookup(d.entries, key).Some?
    ensures exists i :: 0 <= i < |d.entries| && d.entries[i].0 == key
              && Lookup(Merge(d, r).merged.entries, key) == Some(MergedEntry(d, r, i).1)
  {
    var p, extra := PassOne(d, r, |d.entries|), ReferenceOnly(r.entries, d.entries);
    MergedLayout(d, r);
    var i :| 0 <= i < |d.entries| && d.entries[i] == (key, Lookup(d.entries, key).value);
    PassOneEntries(d, r, |d.entries|);
    assert p.entries[i] == MergedEntry(d, r, i);
    LookupUnique(p.entries, i);
    LookupConcat(p.entries, extra, key);
  }

  /** A key the defaults lack has in the merged mapping what the reference has. */
  lemma MergeValueNotInDefault(d: Node, r: Node, key: string)
    requires WellFormed(d) && WellFormed(r) && Compatible(d, r) && d.Map?
    requires Lookup(d.entries, key).None?
    ensures Lookup(Merge(d, r).merged.entries, key) == Lookup(r.entries, key)
  {
    var p, extra := PassOne(d, r, |d.entries|), ReferenceOnly(r.entries, d.entries);
    MergedLayout(d, r);
    LookupConcat(p.entries, extra, key);
    assert Lookup(p.entries, key).None?;
    if Lookup(r.entries, key).Some? {
      var e := (key, Lookup(r.entries, key).value);
      assert e in extra;
      LookupMember(extra, key, e.1);
    } else {
      ReferenceOnlyKeys(r.entries, d.entries);
      assert key !in KeysOf(extra);
    }
  }

  /** The value each key carries in the merged mapping, by where the key
      occurs: in both trees it is the merge of the two values (for a leaf
      default, the reference value, unless that is null); only in the
      defaults it is the default's value; otherwise it is whatever the
      reference has. */
  lemma MergeValues(d: Node, r: Node, key: string)
    requires WellFormed(d) && WellFormed(r) && Compatible(d, r) && d.Map?
    ensures var m, dv, rv := Merge(d, r).merged.entries, Lookup(d.entries, key), Lookup(r.entries, key);
            && (dv.Some? && rv.Some? ==>
                  Compatible(dv.value, rv.value) && Lookup(m, key) == Some(Merge(dv.value, rv.value).merged))
            && (dv.Some? && rv.Some? && !dv.value.Map? ==>
                  Lookup(m, key) == Some(if rv.value.Null? then dv.value else rv.value))
            && (dv.Some? && rv.None? ==> Lookup(m, key) == dv)
            && (dv.None? ==> Lookup(m, key) == rv)
  {
    if Lookup(d.entries, key).Some? {
      MergeValueInDefault(d, r, key);
      var i :| 0 <= i < |d.entries| && d.entries[i].0 == key
               && Lookup(Merge(d, r).merged.entries, key) == Some(MergedEntry(d, r, i).1);
      LookupUnique(d.entries, i);
      if Lookup(r.entries, key).Some? {
        CompatibleChild(d, r, key);
      }
    } else {
      MergeValueNotInDefault(d, r, key);
    }
  }

  /** The merged tree is again a well-formed document: unique keys in every
      mapping, at every depth. */
  lemma MergeWellFormed(d: Node, r: Node)
    requires WellFormed(d) && WellFormed(r) && Compatible(d, r)
    ensures WellFormed(Merge(d, r).merged)
    decreases d
  {
    if d.Map? {
      var m := Merge(d, r).merged;
      var p := PassOne(d, r, |d.entries|);
      var extra := ReferenceOnly(r.entries, d.entries);
      MergeKeys(d, r);
      PassOneEntries(d, r, |d.entries|);
      forall i | 0 <= i < |m.entries| ensures WellFormed(m.entries[i].1) {
        if i < |p.entries| {
          assert m.entries[i] == MergedEntry(d, r, i);
          assert d.entries[i] in d.entries;
          var found := Lookup(r.entries, d.entries[i].0);
          if found.Some? {
            LookupWellFormed(r.entries, d.entries[i].0);
            MergeWellFormed(d.entries[i].1, found.value);
          }
        } else {
          assert m.entries[i] == extra[i - |p.entries|];
          assert extra[i - |p.entries|] in extra;
          assert m.entries[i] in r.entries;
        }
      }
    }
  }
}
