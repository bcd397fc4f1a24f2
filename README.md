# Override merger for Helm values files

`merge-overrides.py` updates a Helm chart's override file after the chart
changes. It reads the chart's new `values.yaml` (the *defaults*) and the
previous `override-values.yaml` (the *reference*). It then walks the two
documents depth first with `recursive_merge` and writes the merged document.
Along the way it collects two lists of dotted key paths:

- `new_keys`: keys that are in the chart but not in the old override;
- `extra_keys`: keys that are in the old override but no longer in the chart.

Merging works like this:

- At a mapping, the merged mapping is built fresh. Pass 1 goes through the
  defaults' keys in order:
  - a key the reference also has is merged recursively;
  - any other key keeps its default value and is reported new.
- Pass 2 goes through the reference's keys in order. Each one the defaults
  lack is added after the default keys and is reported extra.
- Anything that is not a mapping is a leaf: a scalar, a list or null. At a
  leaf the reference wins unless it is null. A list is therefore replaced
  whole.

The project has these parts:

- `config_tree.dfy` (module `ConfigTree`): the document model. A `Node` is
  one of:
  - a mapping, kept as an insertion-ordered sequence of entries;
  - a list;
  - a scalar, kept as its text;
  - null.

  The module also has lookup (`key in m` and `m[key]`), keyed assignment
  (`m[key] = v`, with the key order of the YAML mapping type), and `At`,
  which follows a key path into a document.
- `override_merge.dfy` (module `OverrideMerge`) has two halves:
  - The specification: `Merge` and its pass-1 helper `PassOne`, which are
    pure and mutually recursive. They give the merged tree and the
    reported key paths as lists of keys, relative to the position being
    merged.
  - The procedure: `RecursiveMerge`, in the script's shape. Its pass-1 loop
    is `MergeDefaults`, whose loop body is `MergeEntry`, and its pass-2 loop
    is `AddReferenceOnly`. Together they do what the script does: two loops,
    assignment into a fresh mapping, recursion, and report lists threaded
    through every call. Each is proved equal to the specification, with
    paths rendered as the script renders them.
- `merge_properties.dfy` (module `MergeProperties`): the keys of the merged
  mapping, their order and the value under each key.
- `merge_reports.dfy` (module `MergeReports`): the report lists are sound
  and complete. A path is reported new exactly when the defaults have that
  key and the reference lacks it, below a position the reference has. The
  extra list is the mirror image.
- `merge_algebra.dfy` (module `MergeAlgebra`) covers repeated merges:
  - merging a document with itself changes nothing and reports nothing;
  - merging the result again with the same override gives the same
    document and reports nothing extra.
- `worked_example.dfy` (module `WorkedExample`): the example in the script's
  closing docstring, computed through the model.

Every operation requires `Compatible(d, r)`: wherever the walk meets a
mapping in the defaults, the reference has a mapping at the same position.
This is exactly the domain on which the script does not raise. Suppose the
reference is not a mapping there:

- Null or a number: `key in reference` raises TypeError (line 153).
- A string or a list: a key found by the `in` test makes `reference[key]`
  raise TypeError (line 154).
- Otherwise, including an empty default mapping: pass 2's
  `reference.items()` raises AttributeError (line 160).

## Model

| member | source | states |
|---|---|---|
| ConfigTree.Lookup | merge-overrides.py:153-154 | `key in reference` holds exactly when the key is among the mapping's keys, and `reference[key]` is a value stored under that key |
| ConfigTree.Put | merge-overrides.py:154-163 | `merged[key] = v` on a key already present replaces that key's entry in place, leaving every other entry as it was; on a new key it appends the entry after all the others. The key order follows |
| ConfigTree.PutLookup | merge-overrides.py:154-163 | after `merged[key] = v`, looking up the key finds `v`, and every other key finds what it found before |
| ConfigTree.LookupAssign | merge-overrides.py:154-157 | overwriting a key's entry changes what a lookup of that key finds to the new value, and no other key's lookup |
| ConfigTree.LookupAppend | merge-overrides.py:157-163 | storing an absent key at the end makes it found with its value, and no other key's lookup changes |
| ConfigTree.LookupConcat | merge-overrides.py:153 | looking a key up in two runs of entries laid end to end: the first run decides when it has the key |
| ConfigTree.LookupUnique | merge-overrides.py:153-154 | in a mapping with unique keys, looking up an entry's key finds that entry's value |
| OverrideMerge.Compatible | merge-overrides.py:148-160 | a definition, not a contract: wherever the defaults hold a mapping, so does the reference, which is exactly where lines 153, 154 and 160 do not raise. `CompatibleChild`, `SelfCompatible` and `MergeCompatibleWithRef` characterise it |
| OverrideMerge.Merge | merge-overrides.py:139-168 | a definition, not a contract: the pure specification of `recursive_merge`. Its properties are stated by `MergeKeys`, `MergeValues` and `MergeWellFormed` (tree), `MergeReportsExact` (reports) and `SelfMerge` and `Idempotence` (repetition). `RecursiveMerge` is proved equal to it |
| OverrideMerge.JoinPath | merge-overrides.py:152 | a definition, not a contract: the script's `cur`, the bare key at the top level and `path.key` below it (also line 162). `RenderSnoc` states how paths read through it |
| OverrideMerge.OrEmpty | merge-overrides.py:142-145 | a definition, not a contract: a list argument left at `None` starts out empty. `RecursiveMerge` states that what a list held is kept as a prefix |
| OverrideMerge.ReferenceOnly | merge-overrides.py:160-161 | pass 2 selects exactly the reference entries whose key the defaults lack |
| OverrideMerge.PassOne | merge-overrides.py:151-158 | pass 1 over the first n default keys yields n entries, carrying the default's keys in the default's order |
| OverrideMerge.RenderSnoc | merge-overrides.py:152 | the text of a child path is its parent's text, a dot and the key; at the top level (empty text) it is the bare key |
| OverrideMerge.RenderAllPrepended | merge-overrides.py:152-155 | paths reported by a recursive call read as if rendered from the child's `cur` |
| OverrideMerge.PassOneFresh | merge-overrides.py:151-157 | a default key is not among the keys pass 1 stored before it, since the defaults' keys are unique |
| OverrideMerge.PassOneStepShared | merge-overrides.py:153-155 | one pass-1 iteration over a key the reference has stores the recursive merge under it. The lists grow by the recursive call's reports, rendered below `cur`, as the next prefix of the specification says |
| OverrideMerge.PassOneStepKept | merge-overrides.py:156-158 | one pass-1 iteration over a key the reference lacks stores the default value and appends `cur` to the new keys; the extra keys are unchanged |
| OverrideMerge.PassTwoStep | merge-overrides.py:160-164 | one pass-2 iteration adds, and reports, the entry exactly when the defaults lack its key |
| OverrideMerge.PassTwoFresh | merge-overrides.py:161-163 | a reference key the defaults lack is not yet in the merged mapping, so storing it appends it after every earlier entry |
| OverrideMerge.AddReferenceOnly | merge-overrides.py:159-164 | the pass-2 loop appends the reference-only entries after pass 1's entries, and appends their rendered paths to the extra list without touching its earlier contents |
| OverrideMerge.MergeDefaults | merge-overrides.py:149-158 | the pass-1 loop, from an empty mapping, yields pass 1's entries; the lists it is given stay as a prefix, followed by pass 1's new and extra paths rendered below `path` |
| OverrideMerge.MergeEntry | merge-overrides.py:151-158 | one pass-1 iteration takes the stored entries and the lists from pass 1's first i keys to its first i + 1, recursing through `RecursiveMerge` for a shared key |
| OverrideMerge.RecursiveMerge | merge-overrides.py:139-168 | the procedure returns the specification's merged tree; the lists passed in (empty when `None`) stay as a prefix; after them come the specification's new and extra paths, rendered below `path` |
| MergeProperties.ReferenceOnlyKeys | merge-overrides.py:159-164 | the keys pass 2 adds are the reference's keys the defaults lack, in the reference's order |
| MergeProperties.MergeKeys | merge-overrides.py:151-164 | the merged mapping holds the default's keys in order, then the reference-only keys in reference order; every key of either tree is there, and no key twice |
| MergeProperties.PassOneEntries | merge-overrides.py:151-157 | pass-1 entry i is the default's entry i, merged with the reference value when the reference has the key and kept otherwise |
| MergeProperties.CompatibleChild | merge-overrides.py:153-155 | a key both mappings have can itself be merged without raising |
| MergeProperties.MergedLayout | merge-overrides.py:149-165 | the merged entries are pass 1's followed by pass 2's; both runs have unique keys, and pass 1 carries the default's keys |
| MergeProperties.MergeValueInDefault | merge-overrides.py:153-157 | a default key takes its pass-1 value in the merged mapping |
| MergeProperties.MergeValueNotInDefault | merge-overrides.py:160-163 | a key the defaults lack has exactly the reference's value, or is absent when the reference lacks it too |
| MergeProperties.MergeValues | merge-overrides.py:153-168 | the value under a key depends on where the key is. In both trees: the merge of the two values, which for a leaf default is the reference value, or the default when the reference is null. Only in the defaults: the default's value. Otherwise: the reference's |
| MergeProperties.MergeWellFormed | merge-overrides.py:148-168 | the merged document has unique keys in every mapping at every depth |
| MergeReports.StepShared | merge-overrides.py:153-155 | below a shared key, a path is new or extra exactly when its remainder is, for the two child values |
| MergeReports.StepDefaultOnly | merge-overrides.py:156-158 | below a key only the defaults have, only the key itself is new, and nothing is extra |
| MergeReports.StepNotInDefault | merge-overrides.py:160-164 | below a key the defaults lack, nothing is new, and only the key itself can be extra, when the reference has it |
| MergeReports.StepLeaf | merge-overrides.py:168 | nothing is new or extra below a leaf default |
| MergeReports.PassOneStepReports | merge-overrides.py:151-158 | one pass-1 iteration keeps the report lists exact for the keys seen so far |
| MergeReports.PassOneReports | merge-overrides.py:151-158 | after pass 1 over the first n keys, each list holds exactly the new (or extra) paths under those n keys |
| MergeReports.MapReports | merge-overrides.py:148-165 | at a mapping, a path is reported new (extra) exactly when it is a new (extra) key |
| MergeReports.ReferenceOnlyMember | merge-overrides.py:160-161 | pass 2 keeps a key exactly when the reference has it and the defaults do not |
| MergeReports.MergeReportsExact | merge-overrides.py:148-168 | a path is in the new list exactly when the defaults have it, the reference lacks it and has its parent; a path is in the extra list exactly when the reference has it, the defaults lack it and hold a mapping at its parent |
| MergeReports.PresentInBothNotReported | merge-overrides.py:153-155 | a path both documents have is never reported, whatever the values, even when the reference holds null there |
| MergeAlgebra.SelfCompatible | merge-overrides.py:148-153 | a well-formed document can be merged with itself |
| MergeAlgebra.SelfMerge | merge-overrides.py:148-168 | a document merged with itself is unchanged and reports nothing |
| MergeAlgebra.SelfPass | merge-overrides.py:151-158 | pass 1 of a self-merge keeps every entry and reports nothing |
| MergeAlgebra.MergeCompatibleWithRef | merge-overrides.py:148-165 | the merged document has the reference's shape, so it can be merged with the reference again |
| MergeAlgebra.ReferenceCovered | merge-overrides.py:159-164 | every reference key is in the merged mapping, so a second merge adds nothing in pass 2 |
| MergeAlgebra.ReferenceSuffix | merge-overrides.py:159-164 | the entries after the default keys are the reference's own entries |
| MergeAlgebra.IdemPass | merge-overrides.py:151-158 | the second merge's pass 1 over the default keys gives the first merge's entries and new paths, with nothing extra |
| MergeAlgebra.Idempotence | merge-overrides.py:139-168 | merging the result again with the same override gives it back; the same keys are reported new, since the override still lacks them, and none extra |
| WorkedExample.LeafReplaced | merge-overrides.py:168 | a leaf default meeting a non-null reference takes the reference value whole, lists included |
| WorkedExample.OneKey | merge-overrides.py:148-165 | two one-key mappings under the same key merge under that key, and the key prefixes the child's reports |
| WorkedExample.SubMerge | merge-overrides.py:224-227 | under `child2`, the override's list replaces the chart's |
| WorkedExample.ParentShape | merge-overrides.py:220-229 | how `parent1` merges: the shared keys take the override's values, the chart's new keys stay and are reported, and the obsolete key comes last and is reported |
| WorkedExample.ParentMerge | merge-overrides.py:220-259 | `parent1` merges to the generated `parent1`, reporting `child3` and `child4` as new and `another_child` as extra |
| WorkedExample.ExampleMerge | merge-overrides.py:215-259 | the example's two documents merge to the generated document, reporting `parent1.child3` and `parent1.child4` as new and `parent1.another_child` as extra |
| WorkedExample.RenderTwo | merge-overrides.py:152 | a two-key path below the top reads as the two keys joined by a dot |
| WorkedExample.RunExample | merge-overrides.py:188-189 | running the procedure on the example as `main` does, from the top with two empty lists, gives the generated document, `new_keys = [parent1.child3, parent1.child4]` and `extra_keys = [parent1.another_child]` |

## Left out

- Reading and writing YAML (`load_yaml`, `yaml.dump`), the command line, and
  the printing and sorting of the two lists in `main`
  (merge-overrides.py:134-136, 171-212). This is file I/O and ruamel.yaml
  parsing and formatting. The model starts from parsed documents and ends
  with the merged tree and the two lists.
- Scalars are kept as their text. The merger never inspects them, only
  whether a value is null, so typing and quoting do not affect it. Comments
  and formatting that ruamel.yaml carries in a `CommentedMap` are not
  modelled. A mapping is its ordered entries.
- The commented-out earlier copy of the function at lines 1-96 is not
  modelled.
- A mapping in the defaults opposite null, a scalar or a list in the
  reference: the script always raises there (TypeError at line 153 or 154,
  or AttributeError at line 160), so `Compatible` is a precondition instead.
- RecursiveMerge: the report lists are passed in and returned as values, not
  mutated through shared references. Three consequences:
  - When `new_keys` and `extra_keys` are two different lists, the contract
    states what aliasing gives the caller: earlier contents stay as a prefix
    and the call's reports follow in order.
  - When the caller passes the same list object for both, the script
    interleaves new and extra paths in that one list. The model keeps the
    two sequences apart and does not capture that interleaving.
  - When a list is left at `None` at the top level, lines 142-145 bind a
    fresh local list that the caller never sees. The model still returns
    its contents; `main` always passes its own lists (lines 185-189).

  The inputs are immutable values in the model, so "the inputs are not
  modified" holds by construction rather than as a proved frame.
- RenderSnoc: a top-level key that is the empty string renders as empty
  text, so its children are shown without a leading dot. The child `b` of
  the key `""` is shown as `b`, the same text as a top-level key `b`. The
  model renders paths exactly as the script does. The soundness lemmas are
  stated on key paths, which stay distinct, not on the rendered text.
- Key types other than strings (YAML integer or boolean keys) are not
  modelled. Keys are text.
- app.py, mace.py and the rag-kb-dev files are not part of this model. They
  hold a user interface and calls into language-model and vector-store
  services, with no merging logic.
