/**
 * Ruby's Hash as this code uses it: an insertion-ordered table with at most
 * one entry per key, read with `h[k]` (nil when the key is missing), written
 * with `h[k] = v` and `h[k] ||= v`, and combined with Hash#merge.
 */
module RubyHash {
  import opened Wrappers
  import opened Bytes

  /** A key: Ruby tells the symbol :code from the string "code". */
  datatype Key = Sym(name: Bytes) | Text(name: Bytes)

  /** The values this code stores: nil, true and false, and strings. */
  datatype Value = Nil | Bool(b: bool) | Str(s: Bytes)

  /** Ruby's truth: everything except nil and false. */
  predicate Truthy(v: Value) {
    !v.Nil? && v != Bool(false)
  }

  /** The entries of a hash, in insertion order. */
  type Entries = seq<(Key, Value)>

  /** The keys of a hash, in insertion order. */
  function KeySeq(h: Entries): seq<Key> {
    seq(|h|, i requires 0 <= i < |h| => h[i].0)
  }

  /** A Ruby hash never holds two entries with the same key. */
  predicate UniqueKeys(h: Entries) {
    forall i, j :: 0 <= i < j < |h| ==> h[i].0 != h[j].0
  }

  /** The position of the first entry with the given key, if any. */
  function Find(h: Entries, k: Key): (r: Option<nat>)
    ensures r.Some? ==> r.value < |h| && h[r.value].0 == k
    ensures r.Some? ==> forall j :: 0 <= j < r.value ==> h[j].0 != k
    ensures r.None? <==> forall j :: 0 <= j < |h| ==> h[j].0 != k
  {
    if h == [] then None
    else if h[0].0 == k then Some(0)
    else match Find(h[1..], k)
      case Some(i) => Some(i + 1)
      case None => None
  }

  /** Hash#[]: the value stored under the key, or nil when there is none. */
  function Get(h: Entries, k: Key): Value {
    match Find(h, k)
    case Some(i) => h[i].1
    case None => Nil
  }

  /** The hash as a finite map: the meaning of the entries, forgetting their order. */
  ghost function View(h: Entries): map<Key, Value> {
    map k | k in KeySeq(h) :: Get(h, k)
  }

  /** Hash#[]=: overwrite the value of an existing key in its place, or append a new entry. */
  function Store(h: Entries, k: Key, v: Value): Entries {
    match Find(h, k)
    case Some(i) => h[i := (k, v)]
    case None => h + [(k, v)]
  }

  /** `h[k] ||= v`: store v only when the current value is nil or false (a missing key reads as nil). */
  function OrAssigned(h: Entries, k: Key, v: Value): Entries {
    if Truthy(Get(h, k)) then h else Store(h, k, v)
  }

  /**
   * Hash#merge: a copy of the receiver, into which each entry of the argument
   * is stored in turn, so that the argument's values win.
   */
  function Merge(a: Entries, b: Entries): Entries
    decreases |b|
  {
    if b == [] then a else Merge(Store(a, b[0].0, b[0].1), b[1..])
  }

  /** The keys of ks that are not among the existing keys, in the order of ks. */
  function NewKeys(ks: seq<Key>, existing: seq<Key>): seq<Key> {
    if ks == [] then []
    else (if ks[0] in existing then [] else [ks[0]]) + NewKeys(ks[1..], existing)
  }

  lemma {:induction false} FindIs(h: Entries, k: Key, m: nat)
    requires m < |h| && h[m].0 == k
    requires forall j :: 0 <= j < m ==> h[j].0 != k
    ensures Find(h, k) == Some(m)
  {
  }

  /** Reading a key gives the value of the entry that holds it, and nil when no entry does. */
  lemma {:induction false} GetEntry(h: Entries, k: Key)
    requires UniqueKeys(h)
    ensures forall i :: 0 <= i < |h| && h[i].0 == k ==> Get(h, k) == h[i].1
    ensures (forall i :: 0 <= i < |h| ==> h[i].0 != k) ==> Get(h, k) == Nil
  {
  }

  /**
   * Hash#[] and the map view: a present key reads as the value of the first
   * (the only) entry that holds it, and a missing key reads as nil.
   */
  lemma {:induction false} GetView(h: Entries, k: Key)
    ensures k in View(h) <==> k in KeySeq(h)
    ensures Get(h, k) == if k in View(h) then View(h)[k] else Nil
    ensures k in View(h) ==>
            exists i :: 0 <= i < |h| && h[i] == (k, View(h)[k]) && forall j :: 0 <= j < i ==> h[j].0 != k
  {
    if k !in KeySeq(h) {
      assert forall j :: 0 <= j < |h| ==> h[j].0 != k by {
        forall j | 0 <= j < |h| ensures h[j].0 != k {
          assert KeySeq(h)[j] == h[j].0;
        }
      }
    } else {
      var i :| 0 <= i < |h| && KeySeq(h)[i] == k;
      assert h[i].0 == k;
      var f := Find(h, k).value;
      assert h[f] == (k, Get(h, k));
    }
  }

  /** Storing changes the value under the stored key and no other, and keeps the key order. */
  lemma {:induction false} StoreSpec(h: Entries, k: Key, v: Value)
    requires UniqueKeys(h)
    ensures UniqueKeys(Store(h, k, v))
    ensures Get(Store(h, k, v), k) == v
    ensures forall k' :: k' != k ==> Get(Store(h, k, v), k') == Get(h, k')
    ensures KeySeq(Store(h, k, v)) == if k in KeySeq(h) then KeySeq(h) else KeySeq(h) + [k]
    ensures View(Store(h, k, v)) == View(h)[k := v]
  {
    var r := Store(h, k, v);
    match Find(h, k)
    case Some(i) =>
      assert r == h[i := (k, v)];
      assert KeySeq(r) == KeySeq(h);
      assert k in KeySeq(h) by { assert KeySeq(h)[i] == k; }
      FindIs(r, k, i);
      forall k' | k' != k ensures Get(r, k') == Get(h, k') {
        match Find(h, k')
        case Some(m) => FindIs(r, k', m);
        case None =>
      }
    case None =>
      assert r == h + [(k, v)];
      assert k !in KeySeq(h);
      assert KeySeq(r) == KeySeq(h) + [k];
      FindIs(r, k, |h|);
      forall k' | k' != k ensures Get(r, k') == Get(h, k') {
        match Find(h, k')
        case Some(m) => FindIs(r, k', m);
        case None =>
      }
    forall k' ensures k' in KeySeq(r) <==> k' in View(h)[k := v] {
      GetView(h, k');
    }
    forall k' | k' in KeySeq(r) ensures View(r)[k'] == View(h)[k := v][k'] {
      GetView(h, k');
    }
  }

  /** Storing the first entry of a hash into the rest of it, whose keys it does not share, rebuilds the view. */
  lemma {:induction false} ViewCons(h: Entries)
    requires UniqueKeys(h) && h != []
    ensures View(h) == View(h[1..])[h[0].0 := h[0].1]
  {
    var t := h[1..];
    forall k ensures k in KeySeq(h) <==> k in KeySeq(t) || k == h[0].0 {
      if k in KeySeq(h) {
        var i :| 0 <= i < |h| && KeySeq(h)[i] == k;
        if i > 0 { assert KeySeq(t)[i - 1] == k; }
      }
      if k in KeySeq(t) {
        var i :| 0 <= i < |t| && KeySeq(t)[i] == k;
        assert KeySeq(h)[i + 1] == k;
      }
      assert KeySeq(h)[0] == h[0].0;
    }
    forall k | k in KeySeq(t) ensures Get(h, k) == Get(t, k) && k != h[0].0 {
      var i :| 0 <= i < |t| && KeySeq(t)[i] == k;
      assert h[i + 1].0 == k;
      GetEntry(h, k);
      GetEntry(t, k);
    }
    GetEntry(h, h[0].0);
  }

  /** Keys already present, and a key that ks does not hold, make no difference to NewKeys. */
  lemma {:induction false} NewKeysIgnore(ks: seq<Key>, existing: seq<Key>, x: Key)
    requires x !in ks
    ensures NewKeys(ks, existing + [x]) == NewKeys(ks, existing)
  {
    if ks != [] {
      NewKeysIgnore(ks[1..], existing, x);
    }
  }

  /** The first key of a hash does not occur among the others. */
  lemma {:induction false} FirstKeyNotInRest(b: Entries)
    requires UniqueKeys(b) && b != []
    ensures b[0].0 !in KeySeq(b[1..])
    ensures KeySeq(b) == [b[0].0] + KeySeq(b[1..])
    ensures UniqueKeys(b[1..])
  {
  }

  lemma {:induction false} UpdateThenUnion(m: map<Key, Value>, n: map<Key, Value>, k: Key, v: Value)
    requires k !in n
    ensures m[k := v] + n == m + n[k := v]
  {
  }

  /** Hash#[]= leaves the keys unique and appends the key when it is new. */
  lemma {:induction false} StoreKeys(h: Entries, k: Key, v: Value)
    requires UniqueKeys(h)
    ensures UniqueKeys(Store(h, k, v))
    ensures KeySeq(Store(h, k, v)) == if k in KeySeq(h) then KeySeq(h) else KeySeq(h) + [k]
  {
    StoreSpec(h, k, v);
  }

  /** Storing key k0 first and then collecting the new keys of ks matches collecting those of [k0] + ks. */
  lemma {:induction false} NewKeysStep(k0: Key, ks: seq<Key>, existing: seq<Key>)
    requires k0 !in ks
    ensures var e := if k0 in existing then existing else existing + [k0];
            e + NewKeys(ks, e) == existing + NewKeys([k0] + ks, existing)
  {
    assert ([k0] + ks)[0] == k0 && ([k0] + ks)[1..] == ks;
    if k0 !in existing {
      NewKeysIgnore(ks, existing, k0);
    }
  }

  /** Hash#merge keeps one entry per key, and the argument's new keys follow the receiver's, in the argument's order. */
  lemma {:induction false} MergeKeys(a: Entries, b: Entries)
    requires UniqueKeys(a) && UniqueKeys(b)
    ensures UniqueKeys(Merge(a, b))
    ensures KeySeq(Merge(a, b)) == KeySeq(a) + NewKeys(KeySeq(b), KeySeq(a))
    decreases |b|
  {
    if b == [] {
      assert KeySeq(a) + [] == KeySeq(a);
    } else {
      var k0, v0, t := b[0].0, b[0].1, b[1..];
      StoreKeys(a, k0, v0);
      FirstKeyNotInRest(b);
      MergeKeys(Store(a, k0, v0), t);
      NewKeysStep(k0, KeySeq(t), KeySeq(a));
    }
  }

  /** Hash#merge: under every key the argument holds its value wins; other keys keep the receiver's. */
  lemma {:induction false} MergeView(a: Entries, b: Entries)
    requires UniqueKeys(a) && UniqueKeys(b)
    ensures View(Merge(a, b)) == View(a) + View(b)
    decreases |b|
  {
    if b == [] {
      assert View(b) == map[];
    } else {
      var k0, v0 := b[0].0, b[0].1;
      var t := b[1..];
      StoreSpec(a, k0, v0);
      MergeView(Store(a, k0, v0), t);
      ViewCons(b);
      FirstKeyNotInRest(b);
      GetView(t, k0);
      UpdateThenUnion(View(a), View(t), k0, v0);
    }
  }

  /**
   * `h[k] ||= v`: the key ends up holding v exactly when it held nil or false
   * (or was missing); every other key, and the order of the existing keys, stay.
   */
  lemma {:induction false} OrAssignedSpec(h: Entries, k: Key, v: Value)
    requires UniqueKeys(h)
    ensures UniqueKeys(OrAssigned(h, k, v))
    ensures Get(OrAssigned(h, k, v), k) == if Truthy(Get(h, k)) then Get(h, k) else v
    ensures forall k' :: k' != k ==> Get(OrAssigned(h, k, v), k') == Get(h, k')
    ensures View(OrAssigned(h, k, v)) == if Truthy(Get(h, k)) then View(h) else View(h)[k := v]
    ensures KeySeq(h) <= KeySeq(OrAssigned(h, k, v))
    ensures forall k' :: k' in KeySeq(OrAssigned(h, k, v)) <==> k' in KeySeq(h) || k' == k
  {
    StoreSpec(h, k, v);
    GetView(h, k);
  }

  /** A hash object that callers share by reference, so that `||=` on it is seen by the caller. */
  class HashObject {
    var entries: Entries

    ghost predicate Valid()
      reads this
    {
      UniqueKeys(entries)
    }

    constructor (initial: Entries)
      requires UniqueKeys(initial)
      ensures Valid() && entries == initial
    {
      entries := initial;
    }

    /** `self[k] ||= v`, in place. */
    method OrAssign(k: Key, v: Value)
      requires Valid()
      modifies this
      ensures Valid()
      ensures entries == OrAssigned(old(entries), k, v)
    {
      OrAssignedSpec(entries, k, v);
      if !Truthy(Get(entries, k)) {
        entries := Store(entries, k, v);
      }
    }
  }
}
