/** The depth-first merge of a chart's default values with an earlier override
    file (`recursive_merge`): a pure specification, and the loop-and-accumulator
    procedure that the script runs, proved equal to it. */
module OverrideMerge {
  import opened ConfigTree

  /** A location in a tree, as the mapping keys leading to it. */
  type KeyPath = seq<string>

  /** The result of merging a default subtree with the reference subtree at the
      same position: the merged tree, and the key paths (relative to that
      position) reported as new and as extra, in the order they are reported. */
  datatype Outcome = Outcome(merged: Node, newPaths: seq<KeyPath>, extraPaths: seq<KeyPath>)

  /** What pass 1 over the first entries of a default mapping has produced. */
  datatype Pass = Pass(entries: seq<(string, Node)>, newPaths: seq<KeyPath>, extraPaths: seq<KeyPath>)

  /** The shapes the script can merge without raising: wherever the walk meets
      a mapping in the defaults, the reference holds a mapping too. */
  predicate Compatible(d: Node, r: Node)
    decreases d
  {
    d.Map? ==>
      && r.Map?
      && forall i :: 0 <= i < |d.entries| && Lookup(r.entries, d.entries[i].0).Some? ==>
           Compatible(d.entries[i].1, Lookup(r.entries, d.entries[i].0).value)
  }

  /** Paths reported below the key `key`, seen from the mapping that holds it. */
  function Prepended(key: string, paths: seq<KeyPath>): seq<KeyPath>
  {
    seq(|paths|, i requires 0 <= i < |paths| => [key] + paths[i])
  }

  /** The one-key paths of the given entries. */
  function TopLevel(es: seq<(string, Node)>): seq<KeyPath>
  {
    seq(|es|, i requires 0 <= i < |es| => [es[i].0])
  }

  /** Pass 2's selection: the entries of the reference whose key the defaults
      lack, in the reference's order. */
  function ReferenceOnly(res: seq<(string, Node)>, des: seq<(string, Node)>): (x: seq<(string, Node)>)
    ensures forall e :: e in x <==> e in res && e.0 !in KeysOf(des)
  {
    if res == [] then []
    else
      var prev := ReferenceOnly(res[..|res| - 1], des);
      assert res == res[..|res| - 1] + [res[|res| - 1]];
      if Lookup(des, res[|res| - 1].0).Some? then prev else prev + [res[|res| - 1]]
  }

  /** The merge. A default mapping yields a fresh mapping: the default's keys
      in its order, each merged with the reference's value for that key or
      kept (and reported new) when the reference lacks it, then the
      reference's own keys (reported extra). Anything else is a leaf: the
      reference wins unless it is null. */
  function Merge(d: Node, r: Node): Outcome
    requires Compatible(d, r)
    decreases d, 1, 0
  {
    if d.Map? then
      var p := PassOne(d, r, |d.entries|);
      var extra := ReferenceOnly(r.entries, d.entries);
      Outcome(Map(p.entries + extra), p.newPaths, p.extraPaths + TopLevel(extra))
    else if r.Null? then Outcome(d, [], [])
    else Outcome(r, [], [])
  }

  /** Pass 1 over the first `n` entries of the default mapping `d`. The
      merged entries carry the default's keys, in the default's order. */
  function PassOne(d: Node, r: Node, n: nat): (p: Pass)
    requires d.Map? && n <= |d.entries| && Compatible(d, r)
    ensures |p.entries| == n
    ensures forall m :: 0 <= m < n ==> p.entries[m].0 == d.entries[m].0
    decreases d, 0, n
  {
    if n == 0 then Pass([], [], [])
    else
      var prev := PassOne(d, r, n - 1);
      var key := d.entries[n - 1].0;
      var dv := d.entries[n - 1].1;
      assert d.entries[n - 1] in d.entries;
      match Lookup(r.entries, key)
      case Some(rv) =>
        var sub := Merge(dv, rv);
        Pass(prev.entries + [(key, sub.merged)],
             prev.newPaths + Prepended(key, sub.newPaths),
             prev.extraPaths + Prepended(key, sub.extraPaths))
      case None =>
        Pass(prev.entries + [(key, dv)], prev.newPaths + [[key]], prev.extraPaths)
  }

  /** The script's `cur` (lines 152 and 162): the bare key at the top level,
      otherwise the parent path, a dot and the key. */
  function JoinPath(path: string, key: string): string
  {
    if path != "" then path + "." + key else key
  }

  /** The text the script reports for the key path `kp` below `path`. */
  function Render(path: string, kp: KeyPath): string
    decreases |kp|
  {
    if kp == [] then path else Render(JoinPath(path, kp[0]), kp[1..])
  }

  function RenderAll(path: string, kps: seq<KeyPath>): seq<string>
  {
    seq(|kps|, i requires 0 <= i < |kps| => Render(path, kps[i]))
  }

  /** A list argument left at its default `None` starts out empty. */
  function OrEmpty(keys: Option<seq<string>>): seq<string>
  {
    if keys.Some? then keys.value else []
  }

  lemma AppendAssoc<T>(a: seq<T>, b: seq<T>, c: seq<T>)
    ensures (a + b) + c == a + (b + c)
  {
  }

  lemma RenderAllAppend(path: string, a: seq<KeyPath>, b: seq<KeyPath>)
    ensures RenderAll(path, a + b) == RenderAll(path, a) + RenderAll(path, b)
  {
  }

  lemma RenderAllPrepended(path: string, key: string, kps: seq<KeyPath>)
    ensures RenderAll(path, Prepended(key, kps)) == RenderAll(JoinPath(path, key), kps)
  {
    forall i | 0 <= i < |kps|
      ensures Render(path, Prepended(key, kps)[i]) == Render(JoinPath(path, key), kps[i])
    {
      assert ([key] + kps[i])[1..] == kps[i];
    }
  }

  /** How a reported path reads: one more key below a path adds that key to
      its text, with a dot unless the text so far is empty; so a top-level
      key is shown bare and a nested one as its parent's text, a dot and the
      key. */
  lemma {:induction false} RenderSnoc(path: string, kp: KeyPath, key: string)
    ensures Render(path, kp + [key]) == JoinPath(Render(path, kp), key)
    decreases |kp|
  {
    if kp == [] {
      assert [] + [key] == [key] && [key][1..] == [];
    } else {
      assert (kp + [key])[0] == kp[0] && (kp + [key])[1..] == kp[1..] + [key];
      RenderSnoc(JoinPath(path, kp[0]), kp[1..], key);
    }
  }

  /** The key of default entry `i` is not among the keys pass 1 has stored
      before it, so storing it appends. */
  lemma PassOneFresh(d: Node, r: Node, i: nat)
    requires WellFormed(d) && d.Map? && i < |d.entries| && Compatible(d, r)
    ensures d.entries[i].0 !in KeysOf(PassOne(d, r, i).entries)
  {
    var prev := PassOne(d, r, i);
    forall m | 0 <= m < |prev.entries| ensures KeysOf(prev.entries)[m] != d.entries[i].0 {
      assert KeysOf(prev.entries)[m] == d.entries[m].0;
    }
  }

  /** One iteration of pass 1 over a key the reference has: entry `i` of the
      defaults is merged with the reference's value and stored under its key,
      and the two report lists, which start with `nk0` and `ek0`, grow by the
      recursive call's reports as the next pass-1 prefix says. */
  lemma PassOneStepShared(d: Node, r: Node, i: nat, rv: Node, path: string, nk0: seq<string>, ek0: seq<string>)
    requires WellFormed(d) && d.Map? && i < |d.entries| && Compatible(d, r)
    requires Lookup(r.entries, d.entries[i].0) == Some(rv)
    ensures var key, dv := d.entries[i].0, d.entries[i].1;
            var prev, next := PassOne(d, r, i), PassOne(d, r, i + 1);
            && Compatible(dv, rv)
            && Put(prev.entries, key, Merge(dv, rv).merged) == next.entries
            && (nk0 + RenderAll(path, prev.newPaths)) + RenderAll(JoinPath(path, key), Merge(dv, rv).newPaths)
               == nk0 + RenderAll(path, next.newPaths)
            && (ek0 + RenderAll(path, prev.extraPaths)) + RenderAll(JoinPath(path, key), Merge(dv, rv).extraPaths)
               == ek0 + RenderAll(path, next.extraPaths)
  {
    var key, dv := d.entries[i].0, d.entries[i].1;
    var prev := PassOne(d, r, i);
    PassOneFresh(d, r, i);
    var sub := Merge(dv, rv);
    RenderAllAppend(path, prev.newPaths, Prepended(key, sub.newPaths));
    RenderAllAppend(path, prev.extraPaths, Prepended(key, sub.extraPaths));
    RenderAllPrepended(path, key, sub.newPaths);
    RenderAllPrepended(path, key, sub.extraPaths);
    AppendAssoc(nk0, RenderAll(path, prev.newPaths), RenderAll(JoinPath(path, key), sub.newPaths));
    AppendAssoc(ek0, RenderAll(path, prev.extraPaths), RenderAll(JoinPath(path, key), sub.extraPaths));
  }

  /** One iteration of pass 1 over a key the reference lacks: entry `i` of the
      defaults is stored as it is, and its path is appended to the new keys. */
  lemma PassOneStepKept(d: Node, r: Node, i: nat, path: string, nk0: seq<string>)
    requires WellFormed(d) && d.Map? && i < |d.entries| && Compatible(d, r)
    requires Lookup(r.entries, d.entries[i].0).None?
    ensures var key, dv := d.entries[i].0, d.entries[i].1;
            var prev, next := PassOne(d, r, i), PassOne(d, r, i + 1);
            && Put(prev.entries, key, dv) == next.entries
            && (nk0 + RenderAll(path, prev.newPaths)) + [JoinPath(path, key)] == nk0 + RenderAll(path, next.newPaths)
            && next.extraPaths == prev.extraPaths
  {
    var key := d.entries[i].0;
    var prev := PassOne(d, r, i);
    PassOneFresh(d, r, i);
    RenderAllAppend(path, prev.newPaths, [[key]]);
    assert [key][1..] == [];
    assert Render(path, [key]) == JoinPath(path, key);
    assert RenderAll(path, [[key]]) == [JoinPath(path, key)];
    AppendAssoc(nk0, RenderAll(path, prev.newPaths), [JoinPath(path, key)]);
  }

  /** One iteration of pass 2: entry `j` of the reference is added, and
      reported, exactly when the defaults lack its key, and then its key is
      not yet among the merged entries. */
  lemma PassTwoStep(d: Node, r: Node, j: nat, path: string, first: seq<(string, Node)>,
                    reported: seq<KeyPath>)
    requires WellFormed(r) && d.Map? && r.Map? && j < |r.entries|
    requires KeysOf(first) == KeysOf(d.entries)
    ensures var key := r.entries[j].0;
            var done, next := ReferenceOnly(r.entries[..j], d.entries), ReferenceOnly(r.entries[..j + 1], d.entries);
            if Lookup(d.entries, key).Some? then next == done
            else
              && key !in KeysOf(first + done)
              && next == done + [r.entries[j]]
              && RenderAll(path, reported + TopLevel(next))
                 == RenderAll(path, reported + TopLevel(done)) + [JoinPath(path, key)]
  {
    var key := r.entries[j].0;
    assert r.entries[..j + 1] == r.entries[..j] + [r.entries[j]];
    assert r.entries[..j + 1][..j] == r.entries[..j];
    var done := ReferenceOnly(r.entries[..j], d.entries);
    if Lookup(d.entries, key).None? {
      PassTwoFresh(d, r, j, first);
      var next := done + [r.entries[j]];
      assert TopLevel(next) == TopLevel(done) + [[key]];
      assert reported + TopLevel(next) == (reported + TopLevel(done)) + [[key]];
      RenderAllAppend(path, reported + TopLevel(done), [[key]]);
      assert [key][1..] == [];
      assert Render(path, [key]) == JoinPath(path, key);
      assert RenderAll(path, [[key]]) == [JoinPath(path, key)];
    }
  }

  /** A reference key the defaults lack is neither among pass 1's keys nor
      among the entries pass 2 has added before it. */
  lemma PassTwoFresh(d: Node, r: Node, j: nat, first: seq<(string, Node)>)
    requires WellFormed(r) && d.Map? && r.Map? && j < |r.entries|
    requires KeysOf(first) == KeysOf(d.entries)
    requires Lookup(d.entries, r.entries[j].0).None?
    ensures r.entries[j].0 !in KeysOf(first + ReferenceOnly(r.entries[..j], d.entries))
  {
    var key := r.entries[j].0;
    var done := ReferenceOnly(r.entries[..j], d.entries);
    var all := first + done;
    forall m | 0 <= m < |all| ensures KeysOf(all)[m] != key {
      if m < |first| {
        assert KeysOf(all)[m] == KeysOf(first)[m];
        assert KeysOf(first)[m] in KeysOf(d.entries);
      } else {
        var e := done[m - |first|];
        assert e in done;
        assert e in r.entries[..j];
        var t :| 0 <= t < j && r.entries[..j][t] == e;
        assert r.entries[t] == e;
      }
    }
  }

  /** Pass 2 of `recursive_merge` (lines 159-164): every entry of the
      reference whose key the defaults lack is stored in the merged mapping,
      after pass 1's entries, and its path is appended to the extra keys. */
  method AddReferenceOnly(d: Node, r: Node, path: string, ghost first: Pass,
                          out: seq<(string, Node)>, ghost ek0: seq<string>, ek: seq<string>)
    returns (out': seq<(string, Node)>, ek': seq<string>)
    requires WellFormed(r) && d.Map? && r.Map?
    requires out == first.entries && KeysOf(first.entries) == KeysOf(d.entries)
    requires ek == ek0 + RenderAll(path, first.extraPaths)
    ensures out' == out + ReferenceOnly(r.entries, d.entries)
    ensures ek' == ek0 + RenderAll(path, first.extraPaths + TopLevel(ReferenceOnly(r.entries, d.entries)))
  {
    out', ek' := out, ek;
    var j := 0;
    assert r.entries[..0] == [];
    assert first.extraPaths + TopLevel(ReferenceOnly(r.entries[..0], d.entries)) == first.extraPaths;
    while j < |r.entries|
      invariant 0 <= j <= |r.entries|
      invariant out' == first.entries + ReferenceOnly(r.entries[..j], d.entries)
      invariant ek' == ek0 + RenderAll(path, first.extraPaths + TopLevel(ReferenceOnly(r.entries[..j], d.entries)))
    {
      var key, refVal := r.entries[j].0, r.entries[j].1;
      PassTwoStep(d, r, j, path, first.entries, first.extraPaths);
      ghost var done := ReferenceOnly(r.entries[..j], d.entries);
      if Lookup(d.entries, key).None? {
        var cur := JoinPath(path, key);
        out' := Put(out', key, refVal);
        AppendAssoc(ek0, RenderAll(path, first.extraPaths + TopLevel(done)), [cur]);
        ek' := ek' + [cur];
      }
      j := j + 1;
    }
    assert r.entries[..|r.entries|] == r.entries;
  }

  /** `recursive_merge(default, reference, path, new_keys, extra_keys)`. The
      two lists the caller passes are threaded through as values: whatever
      they held stays as a prefix and the call's reports are appended after
      it, rendered as the script renders them. */
  method RecursiveMerge(d: Node, r: Node, path: string,
                        newKeys: Option<seq<string>>, extraKeys: Option<seq<string>>)
    returns (merged: Node, newKeys': seq<string>, extraKeys': seq<string>)
    requires WellFormed(d) && WellFormed(r) && Compatible(d, r)
    ensures merged == Merge(d, r).merged
    ensures newKeys' == OrEmpty(newKeys) + RenderAll(path, Merge(d, r).newPaths)
    ensures extraKeys' == OrEmpty(extraKeys) + RenderAll(path, Merge(d, r).extraPaths)
    decreases d, 2
  {
    var nk := OrEmpty(newKeys);
    var ek := OrEmpty(extraKeys);
    if !d.Map? {
      merged := if !r.Null? then r else d;
      newKeys', extraKeys' := nk, ek;
      return;
    }
    var out;
    out, nk, ek := MergeDefaults(d, r, path, nk, ek);
    out, ek := AddReferenceOnly(d, r, path, PassOne(d, r, |d.entries|), out, OrEmpty(extraKeys), ek);
    merged := Map(out);
    newKeys', extraKeys' := nk, ek;
  }

  /** Pass 1 of `recursive_merge` (lines 149-158): the merged mapping starts
      empty, and each key of the defaults is stored in it in turn. */
  method MergeDefaults(d: Node, r: Node, path: string, nk0: seq<string>, ek0: seq<string>)
    returns (out: seq<(string, Node)>, nk: seq<string>, ek: seq<string>)
    requires WellFormed(d) && WellFormed(r) && Compatible(d, r) && d.Map?
    ensures out == PassOne(d, r, |d.entries|).entries
    ensures nk == nk0 + RenderAll(path, PassOne(d, r, |d.entries|).newPaths)
    ensures ek == ek0 + RenderAll(path, PassOne(d, r, |d.entries|).extraPaths)
    decreases d, 1
  {
    out, nk, ek := [], nk0, ek0;
    var i := 0;
    while i < |d.entries|
      invariant 0 <= i <= |d.entries|
      invariant out == PassOne(d, r, i).entries
      invariant nk == nk0 + RenderAll(path, PassOne(d, r, i).newPaths)
      invariant ek == ek0 + RenderAll(path, PassOne(d, r, i).extraPaths)
    {
      out, nk, ek := MergeEntry(d, r, path, i, nk0, ek0, out, nk, ek);
      i := i + 1;
    }
  }

  /** One iteration of pass 1 (lines 151-158): entry `i` of the defaults is
      merged recursively with the reference's value when the reference has
      the key, kept and reported new otherwise, and stored under its key. */
  method MergeEntry(d: Node, r: Node, path: string, i: nat, ghost nk0: seq<string>, ghost ek0: seq<string>,
                    out: seq<(string, Node)>, nk: seq<string>, ek: seq<string>)
    returns (out': seq<(string, Node)>, nk': seq<string>, ek': seq<string>)
    requires WellFormed(d) && WellFormed(r) && Compatible(d, r) && d.Map? && i < |d.entries|
    requires out == PassOne(d, r, i).entries
    requires nk == nk0 + RenderAll(path, PassOne(d, r, i).newPaths)
    requires ek == ek0 + RenderAll(path, PassOne(d, r, i).extraPaths)
    ensures out' == PassOne(d, r, i + 1).entries
    ensures nk' == nk0 + RenderAll(path, PassOne(d, r, i + 1).newPaths)
    ensures ek' == ek0 + RenderAll(path, PassOne(d, r, i + 1).extraPaths)
    decreases d, 0
  {
    var key, defVal := d.entries[i].0, d.entries[i].1;
    var cur := JoinPath(path, key);
    var found := Lookup(r.entries, key);
    if found.Some? {
      var refVal := found.value;
      PassOneStepShared(d, r, i, refVal, path, nk0, ek0);
      LookupWellFormed(r.entries, key);
      assert d.entries[i] in d.entries;
      var sub;
      sub, nk', ek' := RecursiveMerge(defVal, refVal, cur, Some(nk), Some(ek));
      out' := Put(out, key, sub);
    } else {
      PassOneStepKept(d, r, i, path, nk0);
      out' := Put(out, key, defVal);
      nk', ek' := nk + [cur], ek;
    }
  }
}
