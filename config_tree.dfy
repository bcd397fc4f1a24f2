/** Parsed YAML documents, as the override merger sees them: nested mappings
    whose keys keep their document order, lists, scalars and null. */
module ConfigTree {

  datatype Option<+T> = None | Some(value: T)

  /** One node of a parsed document. A scalar (string, number, boolean) is kept
      as its text: the merger never looks inside one. */
  datatype Node =
    | Map(entries: seq<(string, Node)>)
    | List(items: seq<Node>)
    | Scalar(text: string)
    | Null

  /** The keys of a mapping, in order. */
  function KeysOf(es: seq<(string, Node)>): seq<string>
  {
    seq(|es|, i requires 0 <= i < |es| => es[i].0)
  }

  lemma KeysOfConcat(a: seq<(string, Node)>, b: seq<(string, Node)>)
    ensures KeysOf(a + b) == KeysOf(a) + KeysOf(b)
  {
  }

  /** No key occurs twice in a mapping. */
  predicate UniqueKeys(es: seq<(string, Node)>)
  {
    forall i, j :: 0 <= i < j < |es| ==> es[i].0 != es[j].0
  }

  /** What a parsed document always satisfies: every mapping, at any depth,
      has unique keys. */
  predicate WellFormed(n: Node)
  {
    match n
    case Map(es) => UniqueKeys(es) && forall i :: 0 <= i < |es| ==> WellFormed(es[i].1)
    case List(items) => forall i :: 0 <= i < |items| ==> WellFormed(items[i])
    case _ => true
  }

  /** `key in m` and `m[key]` on a mapping: the value of the first entry with
      that key, or None when the key is absent. */
  function Lookup(es: seq<(string, Node)>, key: string): (r: Option<Node>)
    ensures r.Some? <==> key in KeysOf(es)
    ensures r.Some? ==> (key, r.value) in es
  {
    if es == [] then None
    else
      assert KeysOf(es) == [es[0].0] + KeysOf(es[1..]);
      if es[0].0 == key then Some(es[0].1) else Lookup(es[1..], key)
  }

  /** The position of the first entry with key `key`, or `|es|` when there is none. */
  function KeyIndex(es: seq<(string, Node)>, key: string): (i: nat)
    ensures i <= |es|
    ensures i < |es| ==> es[i].0 == key
    ensures forall m :: 0 <= m < i ==> es[m].0 != key
  {
    if es == [] then 0
    else if es[0].0 == key then 0
    else 1 + KeyIndex(es[1..], key)
  }

  /** `m[key] = value` on an insertion-ordered mapping: a key already present
      keeps its position and takes the new value, a new key goes last, and
      every other entry stays as it is (`PutLookup` states this as lookups). */
  function Put(es: seq<(string, Node)>, key: string, value: Node): (r: seq<(string, Node)>)
    ensures KeysOf(r) == if key in KeysOf(es) then KeysOf(es) else KeysOf(es) + [key]
    ensures key in KeysOf(es) ==> r == es[KeyIndex(es, key) := (key, value)]
    ensures key !in KeysOf(es) ==> r == es + [(key, value)]
  {
    var i := KeyIndex(es, key);
    if i < |es| then
      assert KeysOf(es)[i] == key;
      assert KeysOf(es[i := (key, value)]) == KeysOf(es);
      es[i := (key, value)]
    else
      assert key !in KeysOf(es);
      KeysOfConcat(es, [(key, value)]);
      es + [(key, value)]
  }

  /** After `m[key] = value`, looking up `key` finds `value`, and every other
      key finds what it found before. */
  lemma PutLookup(es: seq<(string, Node)>, key: string, value: Node)
    ensures Lookup(Put(es, key, value), key) == Some(value)
    ensures forall k :: k != key ==> Lookup(Put(es, key, value), k) == Lookup(es, k)
  {
    if key in KeysOf(es) {
      var i := KeyIndex(es, key);
      assert KeysOf(es)[i] == key;
      LookupAssign(es, i, key, value);
    } else {
      LookupAppend(es, key, value);
    }
  }

  /** Overwriting the first entry with key `key` changes what looking up
      `key` finds, and nothing else. */
  lemma {:induction false} LookupAssign(es: seq<(string, Node)>, i: nat, key: string, value: Node)
    requires i < |es| && es[i].0 == key
    requires forall m :: 0 <= m < i ==> es[m].0 != key
    ensures Lookup(es[i := (key, value)], key) == Some(value)
    ensures forall k :: k != key ==> Lookup(es[i := (key, value)], k) == Lookup(es, k)
  {
    var es' := es[i := (key, value)];
    if i > 0 {
      assert es'[0] == es[0] && es'[1..] == es[1..][i - 1 := (key, value)];
      LookupAssign(es[1..], i - 1, key, value);
    } else {
      assert es'[1..] == es[1..];
    }
  }

  /** Appending an entry for a key that is absent makes it found, and
      leaves every other key as it was. */
  lemma LookupAppend(es: seq<(string, Node)>, key: string, value: Node)
    requires key !in KeysOf(es)
    ensures Lookup(es + [(key, value)], key) == Some(value)
    ensures forall k :: k != key ==> Lookup(es + [(key, value)], k) == Lookup(es, k)
  {
    LookupConcat(es, [(key, value)], key);
    assert [(key, value)][1..] == [];
    forall k | k != key
      ensures Lookup(es + [(key, value)], k) == Lookup(es, k)
    {
      LookupConcat(es, [(key, value)], k);
    }
  }

  /** The node reached from `n` by following the mapping keys of `path`, or
      None when some key on the way is missing or lands on a non-mapping. */
  function At(n: Node, path: seq<string>): Option<Node>
    decreases |path|
  {
    if path == [] then Some(n)
    else if !n.Map? then None
    else match Lookup(n.entries, path[0])
      case None => None
      case Some(child) => At(child, path[1..])
  }

  /** Looking a key up in two runs of entries laid end to end: the first run
      decides when it has the key. */
  lemma {:induction false} LookupConcat(a: seq<(string, Node)>, b: seq<(string, Node)>, key: string)
    ensures Lookup(a + b, key) == if Lookup(a, key).Some? then Lookup(a, key) else Lookup(b, key)
  {
    if a != [] {
      assert (a + b)[1..] == a[1..] + b;
      LookupConcat(a[1..], b, key);
    } else {
      assert a + b == b;
    }
  }

  /** In a mapping with unique keys, an entry is what looking up its key finds. */
  lemma LookupMember(es: seq<(string, Node)>, key: string, value: Node)
    requires UniqueKeys(es) && (key, value) in es
    ensures Lookup(es, key) == Some(value)
  {
    var i :| 0 <= i < |es| && es[i] == (key, value);
    LookupUnique(es, i);
  }

  /** In a mapping with unique keys, looking up an entry's key finds that entry. */
  lemma {:induction false} LookupUnique(es: seq<(string, Node)>, i: nat)
    requires UniqueKeys(es) && i < |es|
    ensures Lookup(es, es[i].0) == Some(es[i].1)
  {
    if i > 0 {
      assert es[0].0 != es[i].0;
      assert es[1..][i - 1] == es[i];
      LookupUnique(es[1..], i - 1);
    }
  }

  /** What a lookup in a well-formed mapping finds is itself well-formed. */
  lemma LookupWellFormed(es: seq<(string, Node)>, key: string)
    requires WellFormed(Map(es))
    ensures Lookup(es, key).Some? ==> WellFormed(Lookup(es, key).value)
  {
    if Lookup(es, key).Some? {
      var i :| 0 <= i < |es| && es[i] == (key, Lookup(es, key).value);
    }
  }
}
