/**
 * A Python `dict`, kept as its items in insertion order: the order that
 * `dict.items()` yields and that the serialiser writes out. The
 * configuration's dicts map `str` to `str`.
 */
module OrderedDict {
  import opened Wrappers

  /** The items of a dict, oldest first. */
  type Dict<K, V> = seq<(K, V)>

  /** A dict from `str` to `str`, as the configuration's sections and peers hold. */
  type Entries = Dict<string, string>

  /** Python's `KeyError`, raised by `d[key]` for a missing key. */
  datatype KeyError = KeyError(key: string)

  /** `list(d.keys())`. */
  function Keys<K(==,!new), V>(e: Dict<K, V>): (r: seq<K>)
    ensures |r| == |e|
    ensures forall j :: 0 <= j < |e| ==> r[j] == e[j].0
  {
    if e == [] then [] else [e[0].0] + Keys(e[1..])
  }

  /** A dict holds each key at most once. */
  predicate DistinctKeys<K(==,!new), V>(e: Dict<K, V>) {
    forall i, j :: 0 <= i < j < |e| ==> e[i].0 != e[j].0
  }

  /** The position of `k` among the keys (its first one), or `None` when `k` is not a key. */
  function KeyIndex<K(==,!new), V>(e: Dict<K, V>, k: K): (r: Option<nat>)
    ensures r.Some? ==> r.value < |e| && e[r.value].0 == k
    ensures r.Some? ==> forall j :: 0 <= j < r.value ==> e[j].0 != k
    ensures r.None? <==> k !in Keys(e)
  {
    if e == [] then None
    else if e[0].0 == k then Some(0)
    else match KeyIndex(e[1..], k)
      case None => None
      case Some(i) => Some(i + 1)
  }

  /** `d.get(k)`: the value stored under `k`, or `None` when `k` is not a key. */
  function Lookup<K(==,!new), V>(e: Dict<K, V>, k: K): (r: Option<V>)
    ensures r.Some? <==> k in Keys(e)
    ensures r.Some? ==> (k, r.value) in e
  {
    match KeyIndex(e, k)
    case None => None
    case Some(i) => Some(e[i].1)
  }

  /** In a dict with distinct keys, the value under each key is the one in its item. */
  lemma LookupItem<K(!new), V>(e: Dict<K, V>, j: nat)
    requires DistinctKeys(e) && j < |e|
    ensures Lookup(e, e[j].0) == Some(e[j].1)
  {
  }

  lemma KeyIndexAt<K(!new), V>(e: Dict<K, V>, k: K, i: nat)
    requires i < |e| && e[i].0 == k
    requires forall j :: 0 <= j < i ==> e[j].0 != k
    ensures KeyIndex(e, k) == Some(i)
  {
    assert k in Keys(e) by { assert Keys(e)[i] == k; }
  }

  /** Two item lists that agree on where `k` stands give `k` the same index. */
  lemma KeyIndexFrame<K(!new), V>(e: Dict<K, V>, r: Dict<K, V>, k: K)
    requires |e| <= |r|
    requires forall j :: 0 <= j < |e| ==> (r[j].0 == k <==> e[j].0 == k)
    requires forall j :: |e| <= j < |r| ==> r[j].0 != k
    ensures KeyIndex(r, k) == KeyIndex(e, k)
  {
    match KeyIndex(e, k)
    case Some(i) =>
      KeyIndexAt(r, k, i);
    case None =>
      forall j | 0 <= j < |r| ensures r[j].0 != k {
        if j < |e| {
          assert Keys(e)[j] == e[j].0;
        }
      }
      assert k !in Keys(r);
  }

  /** What `d[k] = v` promises of the new items `r`, given the old ones `e`. */
  ghost predicate Assigned<K(!new), V>(e: Dict<K, V>, k: K, v: V, r: Dict<K, V>) {
    && Lookup(r, k) == Some(v)
    && (forall k' :: k' != k ==> Lookup(r, k') == Lookup(e, k'))
    && Keys(r) == (if k in Keys(e) then Keys(e) else Keys(e) + [k])
    && (DistinctKeys(e) ==> DistinctKeys(r))
  }

  lemma AppendAssigns<K(!new), V>(e: Dict<K, V>, k: K, v: V)
    requires k !in Keys(e)
    ensures Assigned(e, k, v, e + [(k, v)])
  {
    var r := e + [(k, v)];
    AppendKeyIndex(e, k, v, k);
    forall k' | k' != k ensures Lookup(r, k') == Lookup(e, k') {
      AppendKeyIndex(e, k, v, k');
    }
    AppendKeys(e, k, v);
  }

  /** Appending an item with a new key puts that key last and leaves every other key where it was. */
  lemma AppendKeyIndex<K(!new), V>(e: Dict<K, V>, k: K, v: V, k': K)
    requires k !in Keys(e)
    ensures KeyIndex(e + [(k, v)], k') == if k' == k then Some(|e|) else KeyIndex(e, k')
  {
    var r := e + [(k, v)];
    forall j | 0 <= j < |e| ensures e[j].0 != k && r[j] == e[j] {
      assert Keys(e)[j] == e[j].0;
    }
    if k' == k {
      KeyIndexAt(r, k, |e|);
    } else {
      KeyIndexFrame(e, r, k');
    }
  }

  lemma AppendKeys<K(!new), V>(e: Dict<K, V>, k: K, v: V)
    requires k !in Keys(e)
    ensures Keys(e + [(k, v)]) == Keys(e) + [k]
    ensures DistinctKeys(e) ==> DistinctKeys(e + [(k, v)])
  {
    var r := e + [(k, v)];
    forall j | 0 <= j < |e| ensures e[j].0 != k {
      assert Keys(e)[j] == e[j].0;
    }
    assert Keys(r) == Keys(e) + [k];
  }

  lemma ReplaceAssigns<K(!new), V>(e: Dict<K, V>, k: K, v: V, i: nat)
    requires KeyIndex(e, k) == Some(i)
    ensures Assigned(e, k, v, e[i := (k, v)])
  {
    var r := e[i := (k, v)];
    assert |r| == |e|;
    assert forall j :: 0 <= j < |e| ==> r[j].0 == e[j].0;
    KeyIndexAt(r, k, i);
    assert Lookup(r, k) == Some(v);
    forall k' | k' != k ensures Lookup(r, k') == Lookup(e, k') {
      KeyIndexFrame(e, r, k');
      if KeyIndex(e, k').Some? {
        var j := KeyIndex(e, k').value;
        assert j != i;
        assert r[j] == e[j];
      }
    }
    assert Keys(r) == Keys(e);
    assert k in Keys(e);
  }

  /**
   * `d[k] = v`: an existing key keeps its position and takes the new value,
   * a new key goes at the end; every other key keeps its value.
   */
  function Put<K(==,!new), V>(e: Dict<K, V>, k: K, v: V): (r: Dict<K, V>)
    ensures Lookup(r, k) == Some(v)
    ensures forall k' :: k' != k ==> Lookup(r, k') == Lookup(e, k')
    ensures Keys(r) == if k in Keys(e) then Keys(e) else Keys(e) + [k]
    ensures DistinctKeys(e) ==> DistinctKeys(r)
  {
    match KeyIndex(e, k)
    case None =>
      AppendAssigns(e, k, v);
      e + [(k, v)]
    case Some(i) =>
      ReplaceAssigns(e, k, v, i);
      e[i := (k, v)]
  }

  lemma PutFresh<K(!new), V>(e: Dict<K, V>, k: K, v: V)
    requires k !in Keys(e)
    ensures Put(e, k, v) == e + [(k, v)]
  {
    assert KeyIndex(e, k) == None;
  }

  /** `for k, v in e: d[k] = v`, starting from the dict `d`. */
  function PutAll<K(==,!new), V>(d: Dict<K, V>, e: Dict<K, V>): Dict<K, V>
    decreases |e|
  {
    if e == [] then d else PutAll(Put(d, e[0].0, e[0].1), e[1..])
  }

  /** The value of the last item of `e` whose key is `k`. */
  function LastValue<K(==,!new), V>(e: Dict<K, V>, k: K): (r: Option<V>)
    ensures r.Some? <==> k in Keys(e)
    ensures r.Some? ==> (k, r.value) in e
  {
    if e == [] then None
    else
      var later := LastValue(e[1..], k);
      if later.Some? then later
      else if e[0].0 == k then Some(e[0].1)
      else None
  }

  /** Assigning keys that are all new, in order, appends them in order. */
  lemma {:induction false} PutAllFresh<K(!new), V>(d: Dict<K, V>, e: Dict<K, V>)
    requires DistinctKeys(d + e)
    ensures PutAll(d, e) == d + e
    decreases |e|
  {
    if e != [] {
      PutAllFreshStep(d, e);
      MoveHead(d, e);
      PutAllFresh(d + [e[0]], e[1..]);
    }
  }

  /** The first of a run of new keys is appended, and the rest are still new. */
  lemma PutAllFreshStep<K(!new), V>(d: Dict<K, V>, e: Dict<K, V>)
    requires DistinctKeys(d + e) && e != []
    ensures PutAll(d, e) == PutAll(d + [e[0]], e[1..])
  {
    DistinctHead(d, e);
    PutFresh(d, e[0].0, e[0].1);
  }

  lemma MoveHead<T>(d: seq<T>, e: seq<T>)
    requires e != []
    ensures (d + [e[0]]) + e[1..] == d + e
  {
  }

  /** When `d + e` has distinct keys, the first key of `e` is not a key of `d`. */
  lemma DistinctHead<K(!new), V>(d: Dict<K, V>, e: Dict<K, V>)
    requires DistinctKeys(d + e) && e != []
    ensures e[0].0 !in Keys(d)
  {
    forall j | 0 <= j < |d| ensures Keys(d)[j] != e[0].0 {
      assert (d + e)[j] == d[j] && (d + e)[|d|] == e[0];
    }
  }

  /** After a run of assignments, a key holds the last value assigned to it, or its old value if none was. */
  lemma {:induction false} PutAllLookup<K(!new), V>(d: Dict<K, V>, e: Dict<K, V>, k: K)
    ensures Lookup(PutAll(d, e), k) == if k in Keys(e) then LastValue(e, k) else Lookup(d, k)
    decreases |e|
  {
    if e != [] {
      PutAllLookup(Put(d, e[0].0, e[0].1), e[1..], k);
      assert Keys(e) == [e[0].0] + Keys(e[1..]);
    }
  }

  /**
   * The keys of `ks` that are not in `seen`, each taken once, in the order
   * of their first occurrence: the keys a run of assignments adds.
   */
  function NewKeys<K(==,!new)>(seen: seq<K>, ks: seq<K>): (r: seq<K>)
    ensures forall k :: k in r <==> k in ks && k !in seen
    ensures forall i, j :: 0 <= i < j < |r| ==> r[i] != r[j]
    decreases |ks|
  {
    if ks == [] then []
    else if ks[0] in seen then NewKeys(seen, ks[1..])
    else
      var rest := NewKeys(seen + [ks[0]], ks[1..]);
      assert ks[0] !in rest;
      [ks[0]] + rest
  }

  /**
   * A run of assignments never moves a key already present: the keys
   * afterwards are the old ones, in their order, followed by the keys it
   * assigns that were not there yet, in the order of their first
   * assignment; still without repeats.
   */
  lemma {:induction false} PutAllKeys<K(!new), V>(d: Dict<K, V>, e: Dict<K, V>)
    requires DistinctKeys(d)
    ensures Keys(PutAll(d, e)) == Keys(d) + NewKeys(Keys(d), Keys(e))
    ensures forall k :: k in Keys(PutAll(d, e)) <==> k in Keys(d) || k in Keys(e)
    ensures DistinctKeys(PutAll(d, e))
    decreases |e|
  {
    if e != [] {
      var k := e[0].0;
      var d' := Put(d, k, e[0].1);
      PutAllKeys(d', e[1..]);
      assert Keys(e)[0] == k && Keys(e)[1..] == Keys(e[1..]);
      if k !in Keys(d) {
        AppendAssoc(Keys(d), [k], NewKeys(Keys(d) + [k], Keys(e[1..])));
      }
    }
  }

  lemma AppendAssoc<T>(a: seq<T>, b: seq<T>, c: seq<T>)
    ensures (a + b) + c == a + (b + c)
  {
  }

  lemma PrefixOfPrefix<T>(s: seq<T>, n: nat, m: nat)
    requires n <= m <= |s|
    ensures s[..m][..n] == s[..n]
  {
  }
}
