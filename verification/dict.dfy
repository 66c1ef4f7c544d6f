/** Python dict literals whose key order matters, written as the ordered
    list of their `(key, value)` items.  `ToMap` is the dict's contents
    (later items overwrite earlier ones, as a literal or a comprehension
    does), `Keys` is `list(d)`, and `Invert` is the comprehension
    `{v: k for k, v in d.items()}`.

    The second half models dicts that a loop fills in place: `Put` is
    `d[k] = v`, `Extend` is `d.setdefault(k, []).extend(xs)`, both keeping a
    key at the position of its first insertion, and `Collect` concatenates
    the lists of the keys a predicate selects, in key order. */
module Dict {
  import opened Wrappers

  type Table<K, V> = seq<(K, V)>

  /** `list(d)`: the keys in insertion order. */
  function Keys<K, V>(t: Table<K, V>): (r: seq<K>)
    ensures |r| == |t|
    ensures forall i :: 0 <= i < |t| ==> r[i] == t[i].0
  {
    seq(|t|, i requires 0 <= i < |t| => t[i].0)
  }

  predicate DistinctKeys<K(==), V>(t: Table<K, V>) {
    forall i, j :: 0 <= i < j < |t| ==> t[i].0 != t[j].0
  }

  predicate DistinctValues<K, V(==)>(t: Table<K, V>) {
    forall i, j :: 0 <= i < j < |t| ==> t[i].1 != t[j].1
  }

  /** The dict built by inserting the items in order. */
  function ToMap<K(==), V>(t: Table<K, V>): (m: map<K, V>)
    ensures m.Keys == set i | 0 <= i < |t| :: t[i].0
    decreases |t|
  {
    if |t| == 0 then map[]
    else
      var last := t[|t| - 1];
      assert forall i :: 0 <= i < |t| - 1 ==> t[..|t| - 1][i] == t[i];
      ToMap(t[..|t| - 1])[last.0 := last.1]
  }

  /** The items with key and value exchanged. */
  function Swap<K, V>(t: Table<K, V>): (r: Table<V, K>)
    ensures |r| == |t|
    ensures forall i :: 0 <= i < |t| ==> r[i] == (t[i].1, t[i].0)
  {
    seq(|t|, i requires 0 <= i < |t| => (t[i].1, t[i].0))
  }

  /** `{v: k for k, v in d.items()}`. */
  function Invert<K, V(==)>(t: Table<K, V>): map<V, K> {
    ToMap(Swap(t))
  }

  /** With distinct keys, every item's value is what the dict stores for its key. */
  lemma {:induction false} ToMapOfItem<K, V>(t: Table<K, V>, i: nat)
    requires DistinctKeys(t) && i < |t|
    ensures t[i].0 in ToMap(t) && ToMap(t)[t[i].0] == t[i].1
    decreases |t|
  {
    if i < |t| - 1 {
      var init := t[..|t| - 1];
      assert init[i] == t[i];
      ToMapOfItem(init, i);
    }
  }

  /** A value stored in the dict is the value of one of its items. */
  lemma {:induction false} ToMapValueOfItem<K, V>(t: Table<K, V>, k: K)
    requires k in ToMap(t)
    ensures exists i :: 0 <= i < |t| && t[i] == (k, ToMap(t)[k])
    decreases |t|
  {
    var last := t[|t| - 1];
    if k != last.0 {
      ToMapValueOfItem(t[..|t| - 1], k);
      var i :| 0 <= i < |t| - 1 && t[..|t| - 1][i] == (k, ToMap(t[..|t| - 1])[k]);
      assert t[i] == (k, ToMap(t)[k]);
    } else {
      assert t[|t| - 1] == (k, ToMap(t)[k]);
    }
  }

  /** With distinct keys and distinct values, the inverted dict is the exact
      inverse: `d[k] == v` exactly when `inv[v] == k`. */
  lemma {:induction false} InvertIsInverse<K, V>(t: Table<K, V>, k: K, v: V)
    requires DistinctKeys(t) && DistinctValues(t)
    ensures (k in ToMap(t) && ToMap(t)[k] == v) <==> (v in Invert(t) && Invert(t)[v] == k)
    decreases |t|
  {
    if |t| > 0 {
      var n := |t| - 1;
      var init := t[..n];
      var last := t[n];
      assert Swap(t)[..n] == Swap(init);
      assert ToMap(t) == ToMap(init)[last.0 := last.1];
      assert Invert(t) == Invert(init)[last.1 := last.0];
      InvertIsInverse(init, k, v);
      if k == last.0 && v != last.1 {
        // k is not a key of init, so the right-hand side cannot hold via init
        assert forall i :: 0 <= i < |init| ==> init[i].0 != t[n].0;
      } else if k != last.0 && v == last.1 {
        // v is not a value of init, so the left-hand side cannot hold via init
        assert forall i :: 0 <= i < |init| ==> init[i].1 != t[n].1;
        if k in ToMap(init) {
          ToMapValueOfItem(init, k);
        }
      }
    }
  }

  // -----------------------------------------------------------------------
  // dicts filled in place
  // -----------------------------------------------------------------------

  /** The first position of `k` in `ks`. */
  function Find<K(==)>(ks: seq<K>, k: K): (r: Option<nat>)
    ensures r.Some? ==> r.value < |ks| && ks[r.value] == k
    ensures r.None? <==> k !in ks
    decreases |ks|
  {
    if |ks| == 0 then None
    else
      var n := |ks| - 1;
      match Find(ks[..n], k)
      case Some(i) => Some(i)
      case None => if ks[n] == k then Some(n) else None
  }

  /** `d.get(k)`. */
  function Lookup<K(==), V>(t: Table<K, V>, k: K): (r: Option<V>)
    ensures r.Some? <==> k in Keys(t)
  {
    match Find(Keys(t), k)
    case None => None
    case Some(i) => Some(t[i].1)
  }

  /** `d[k] = v`: an existing key keeps its position. */
  function Put<K(==), V>(t: Table<K, V>, k: K, v: V): (r: Table<K, V>)
    ensures Keys(r) == if k in Keys(t) then Keys(t) else Keys(t) + [k]
  {
    match Find(Keys(t), k)
    case None => t + [(k, v)]
    case Some(i) => t[i := (k, v)]
  }

  /** The dict a loop of `d[k] = v` over the items builds. */
  function PutAll<K(==), V>(items: Table<K, V>): Table<K, V>
    decreases |items|
  {
    if |items| == 0 then []
    else
      var n := |items| - 1;
      Put(PutAll(items[..n]), items[n].0, items[n].1)
  }

  /** `d.setdefault(k, []).extend(xs)`: an existing key keeps its position. */
  function Extend<K(==), V>(t: Table<K, seq<V>>, k: K, xs: seq<V>): (r: Table<K, seq<V>>)
    ensures Keys(r) == if k in Keys(t) then Keys(t) else Keys(t) + [k]
  {
    match Find(Keys(t), k)
    case None => t + [(k, xs)]
    case Some(i) => t[i := (k, t[i].1 + xs)]
  }

  /** The dict a loop of `Extend` over the items builds. */
  function Group<K(==), V>(items: Table<K, seq<V>>): Table<K, seq<V>>
    decreases |items|
  {
    if |items| == 0 then []
    else
      var n := |items| - 1;
      Extend(Group(items[..n]), items[n].0, items[n].1)
  }

  /** The reference for `Group`: the lists of every item with key `k`, concatenated in item order. */
  function Gather<K(==), V>(items: Table<K, seq<V>>, k: K): seq<V>
    decreases |items|
  {
    if |items| == 0 then []
    else
      var n := |items| - 1;
      Gather(items[..n], k) + (if items[n].0 == k then items[n].1 else [])
  }

  /** The lists of the keys `keep` selects, concatenated in key order. */
  function Collect<K, V>(t: Table<K, seq<V>>, keep: K -> bool): seq<V>
    decreases |t|
  {
    if |t| == 0 then []
    else
      var n := |t| - 1;
      Collect(t[..n], keep) + (if keep(t[n].0) then t[n].1 else [])
  }

  /** Appending a key to a key list: the first position of every other key is unchanged. */
  lemma FindAppend<K>(ks: seq<K>, x: K, k: K)
    ensures Find(ks + [x], k) == if k in ks then Find(ks, k) else if k == x then Some(|ks|) else None
  {
    assert (ks + [x])[..|ks|] == ks;
  }

  lemma KeysAppend<K, V>(t: Table<K, V>, k: K, v: V)
    ensures Keys(t + [(k, v)]) == Keys(t) + [k]
  {
  }

  lemma KeysSnoc<K, V>(t: Table<K, V>)
    requires |t| > 0
    ensures Keys(t) == Keys(t[..|t| - 1]) + [t[|t| - 1].0]
  {
    assert t == t[..|t| - 1] + [t[|t| - 1]];
    KeysAppend(t[..|t| - 1], t[|t| - 1].0, t[|t| - 1].1);
  }

  lemma KeysConcat<K, V>(a: Table<K, V>, b: Table<K, V>)
    ensures Keys(a + b) == Keys(a) + Keys(b)
  {
  }

  lemma KeysUpdate<K, V>(t: Table<K, V>, i: nat, k: K, v: V)
    requires i < |t| && t[i].0 == k
    ensures Keys(t[i := (k, v)]) == Keys(t)
  {
  }

  /** The keys of a built dict are distinct and are exactly the items' keys. */
  lemma {:induction false} GroupKeys<K, V>(items: Table<K, seq<V>>)
    ensures DistinctKeys(Group(items))
    ensures forall k :: k in Keys(Group(items)) <==> k in Keys(items)
    decreases |items|
  {
    if |items| > 0 {
      var n := |items| - 1;
      GroupKeys(items[..n]);
      assert Keys(items) == Keys(items[..n]) + [items[n].0];
      var t := Group(items[..n]);
      match Find(Keys(t), items[n].0)
      case None =>
        KeysAppend(t, items[n].0, items[n].1);
      case Some(i) =>
        KeysUpdate(t, i, items[n].0, t[i].1 + items[n].1);
    }
  }

  /** `Group` agrees with its reference: each key's list is the
      concatenation of the lists of the items with that key. */
  lemma {:induction false} GroupLookup<K, V>(items: Table<K, seq<V>>, k: K)
    ensures Lookup(Group(items), k) == if k in Keys(items) then Some(Gather(items, k)) else None
    decreases |items|
  {
    if |items| > 0 {
      var n := |items| - 1;
      GroupLookup(items[..n], k);
      assert Group(items) == Extend(Group(items[..n]), items[n].0, items[n].1);
      GroupLookupStep(items, Group(items[..n]), k);
    }
  }

  lemma GroupLookupStep<K, V>(items: Table<K, seq<V>>, t: Table<K, seq<V>>, k: K)
    requires |items| > 0
    requires var init := items[..|items| - 1];
      Lookup(t, k) == if k in Keys(init) then Some(Gather(init, k)) else None
    ensures var n := |items| - 1;
      Lookup(Extend(t, items[n].0, items[n].1), k) == if k in Keys(items) then Some(Gather(items, k)) else None
  {
    var n := |items| - 1;
    var init := items[..n];
    KeysSnoc(items);
    var k' := items[n].0;
    var xs := items[n].1;
    assert Gather(items, k) == Gather(init, k) + (if k' == k then xs else []);
    ExtendLookup(t, k', xs, k);
    if k !in Keys(init) {
      GatherAbsent(init, k);
    }
    if k == k' {
      assert k in Keys(items);
    } else {
      assert Gather(items, k) == Gather(init, k);
      assert k in Keys(items) <==> k in Keys(init);
    }
  }

  /** `Extend` adds to the list of its own key only. */
  lemma ExtendLookup<K, V>(t: Table<K, seq<V>>, k': K, xs: seq<V>, k: K)
    ensures Lookup(Extend(t, k', xs), k)
         == if k == k' then Some((if Lookup(t, k).Some? then Lookup(t, k).value else []) + xs) else Lookup(t, k)
  {
    match Find(Keys(t), k')
    case None =>
      ExtendNewKey(t, k', xs, k);
      if k == k' {
        assert Lookup(t, k).None?;
        assert [] + xs == xs;
      }
    case Some(i) =>
      ExtendOldKey(t, i, k', xs, k);
  }

  /** A key no item carries gathers nothing. */
  lemma {:induction false} GatherAbsent<K, V>(items: Table<K, seq<V>>, k: K)
    requires k !in Keys(items)
    ensures Gather(items, k) == []
    decreases |items|
  {
    if |items| > 0 {
      var n := |items| - 1;
      assert Keys(items) == Keys(items[..n]) + [items[n].0];
      GatherAbsent(items[..n], k);
    }
  }

  lemma ExtendNewKey<K, V>(t: Table<K, seq<V>>, k': K, xs: seq<V>, k: K)
    requires k' !in Keys(t)
    ensures Lookup(t + [(k', xs)], k) == if k == k' then Some(xs) else Lookup(t, k)
  {
    KeysAppend(t, k', xs);
    FindAppend(Keys(t), k', k);
  }

  lemma ExtendOldKey<K, V>(t: Table<K, seq<V>>, i: nat, k': K, xs: seq<V>, k: K)
    requires i < |t| && t[i].0 == k' && Find(Keys(t), k') == Some(i)
    ensures Lookup(t[i := (k', t[i].1 + xs)], k) == if k == k' then Some(t[i].1 + xs) else Lookup(t, k)
  {
    KeysUpdate(t, i, k', t[i].1 + xs);
    var u := t[i := (k', t[i].1 + xs)];
    match Find(Keys(t), k)
    case None =>
    case Some(j) =>
      assert j == i <==> k == k';
  }

  /** `PutAll` agrees with `ToMap`: the last item with a key decides its value. */
  lemma {:induction false} PutAllLookup<K, V>(items: Table<K, V>, k: K)
    ensures Lookup(PutAll(items), k) == if k in ToMap(items) then Some(ToMap(items)[k]) else None
    decreases |items|
  {
    if |items| > 0 {
      var n := |items| - 1;
      var init := items[..n];
      PutAllLookup(init, k);
      var t := PutAll(init);
      var (k', v) := items[n];
      match Find(Keys(t), k')
      case None =>
        KeysAppend(t, k', v);
        FindAppend(Keys(t), k', k);
        assert PutAll(items) == t + [(k', v)];
      case Some(i) =>
        KeysUpdate(t, i, k', v);
        assert PutAll(items) == t[i := (k', v)];
    }
  }

  /** A key has a value after the `d[k] = v` loop exactly when some item
      names it, and the value is one of that key's items. */
  lemma PutAllItem<K, V>(items: Table<K, V>, k: K)
    ensures Lookup(PutAll(items), k).Some? <==> exists i :: 0 <= i < |items| && items[i].0 == k
    ensures Lookup(PutAll(items), k).Some? ==>
      exists i :: 0 <= i < |items| && items[i] == (k, Lookup(PutAll(items), k).value)
  {
    PutAllLookup(items, k);
    if k in ToMap(items) {
      ToMapValueOfItem(items, k);
    }
  }

  /** Growing one key's list grows the collection by the same values when
      that key is selected. */
  lemma CollectUpdate<K, V>(t: Table<K, seq<V>>, i: nat, xs: seq<V>, keep: K -> bool)
    requires i < |t|
    ensures multiset(Collect(t[i := (t[i].0, t[i].1 + xs)], keep))
         == multiset(Collect(t, keep)) + (if keep(t[i].0) then multiset(xs) else multiset{})
  {
    var u := t[i := (t[i].0, t[i].1 + xs)];
    assert t == t[..i] + [t[i]] + t[i + 1..];
    assert u == t[..i] + [u[i]] + t[i + 1..];
    CollectAppend(t[..i] + [t[i]], t[i + 1..], keep);
    CollectAppend(t[..i] + [u[i]], t[i + 1..], keep);
    CollectAppend(t[..i], [t[i]], keep);
    CollectAppend(t[..i], [u[i]], keep);
  }

  /** Collecting distributes over concatenation. */
  lemma {:induction false} CollectAppend<K, V>(a: Table<K, seq<V>>, b: Table<K, seq<V>>, keep: K -> bool)
    ensures Collect(a + b, keep) == Collect(a, keep) + Collect(b, keep)
    decreases |b|
  {
    if |b| > 0 {
      var n := |b| - 1;
      assert (a + b)[..|a + b| - 1] == a + b[..n];
      CollectAppend(a, b[..n], keep);
    } else {
      assert a + b == a;
    }
  }

  /** Collecting a built dict yields, up to order, exactly the values of the
      items whose key is selected. */
  lemma {:induction false} CollectGroup<K, V>(items: Table<K, seq<V>>, keep: K -> bool)
    ensures multiset(Collect(Group(items), keep)) == multiset(Collect(items, keep))
    decreases |items|
  {
    if |items| > 0 {
      var n := |items| - 1;
      CollectGroup(items[..n], keep);
      CollectExtend(Group(items[..n]), items[n].0, items[n].1, keep);
    }
  }

  /** Extending one key adds its new values to the collection when the key is selected. */
  lemma CollectExtend<K, V>(t: Table<K, seq<V>>, k: K, xs: seq<V>, keep: K -> bool)
    ensures multiset(Collect(Extend(t, k, xs), keep))
         == multiset(Collect(t, keep)) + (if keep(k) then multiset(xs) else multiset{})
  {
    match Find(Keys(t), k)
    case None =>
      assert (t + [(k, xs)])[..|t|] == t;
    case Some(i) =>
      assert t[i].0 == k;
      CollectUpdate(t, i, xs, keep);
  }

  /** A value is gathered for `k` exactly when some item with key `k` lists it. */
  lemma {:induction false} GatherMembers<K, V>(items: Table<K, seq<V>>, k: K, x: V)
    ensures x in Gather(items, k) <==> exists i :: 0 <= i < |items| && items[i].0 == k && x in items[i].1
    decreases |items|
  {
    if |items| > 0 {
      var n := |items| - 1;
      GatherMembers(items[..n], k, x);
      if x in Gather(items[..n], k) {
        var i :| 0 <= i < n && items[..n][i].0 == k && x in items[..n][i].1;
        assert items[i] == items[..n][i];
      }
      if exists i :: 0 <= i < |items| && items[i].0 == k && x in items[i].1 {
        var i :| 0 <= i < |items| && items[i].0 == k && x in items[i].1;
        if i < n {
          assert items[..n][i] == items[i];
        }
      }
    }
  }

  /** A value is collected exactly when some selected key lists it. */
  lemma {:induction false} CollectMembers<K, V>(t: Table<K, seq<V>>, keep: K -> bool, x: V)
    ensures x in Collect(t, keep) <==> exists i :: 0 <= i < |t| && keep(t[i].0) && x in t[i].1
    decreases |t|
  {
    if |t| > 0 {
      var n := |t| - 1;
      CollectMembers(t[..n], keep, x);
      if x in Collect(t[..n], keep) {
        var i :| 0 <= i < n && keep(t[..n][i].0) && x in t[..n][i].1;
        assert t[i] == t[..n][i];
      }
      if exists i :: 0 <= i < |t| && keep(t[i].0) && x in t[i].1 {
        var i :| 0 <= i < |t| && keep(t[i].0) && x in t[i].1;
        if i < n {
          assert t[..n][i] == t[i];
        }
      }
    }
  }

  /** Gathering distributes over concatenation. */
  lemma {:induction false} GatherAppend<K, V>(a: Table<K, seq<V>>, b: Table<K, seq<V>>, k: K)
    ensures Gather(a + b, k) == Gather(a, k) + Gather(b, k)
    decreases |b|
  {
    if |b| > 0 {
      var n := |b| - 1;
      assert (a + b)[..|a + b| - 1] == a + b[..n];
      GatherAppend(a, b[..n], k);
    } else {
      assert a + b == a;
    }
  }

  /** The items `(k, [x])` for every key `k` of `ks`. */
  function Tag<K, V>(ks: seq<K>, x: V): (r: Table<K, seq<V>>)
    ensures |r| == |ks|
    ensures forall i :: 0 <= i < |ks| ==> r[i] == (ks[i], [x])
  {
    seq(|ks|, i requires 0 <= i < |ks| => (ks[i], [x]))
  }

  /** The keys of the tagged items are the tagging keys. */
  lemma KeysTag<K, V>(ks: seq<K>, x: V)
    ensures Keys(Tag(ks, x)) == ks
  {
  }

  /** The members of a non-empty sequence are those of its front and its last element. */
  lemma MembersSnoc<T>(s: seq<T>)
    requires |s| > 0
    ensures forall x :: x in s <==> x in s[..|s| - 1] || x == s[|s| - 1]
  {
    assert s == s[..|s| - 1] + [s[|s| - 1]];
  }

  /** Under distinct keys, a value tagged with every key is gathered once
      for each of them and never for another key. */
  lemma {:induction false} GatherTag<K, V>(ks: seq<K>, x: V, k: K)
    requires forall i, j :: 0 <= i < j < |ks| ==> ks[i] != ks[j]
    ensures Gather(Tag(ks, x), k) == if k in ks then [x] else []
    decreases |ks|
  {
    if |ks| > 0 {
      var n := |ks| - 1;
      assert Tag(ks, x)[..n] == Tag(ks[..n], x);
      GatherTag(ks[..n], x, k);
      assert k in ks <==> k in ks[..n] || k == ks[n];
      if k == ks[n] {
        assert k !in ks[..n];
      }
    }
  }

  /** Collecting tagged items yields the tag exactly when a selected key is tagged. */
  lemma CollectTag<K, V>(ks: seq<K>, v: V, keep: K -> bool, x: V)
    ensures x in Collect(Tag(ks, v), keep) <==> x == v && exists k :: k in ks && keep(k)
  {
    var tag := Tag(ks, v);
    CollectMembers(tag, keep, x);
    if exists k :: k in ks && keep(k) {
      var k :| k in ks && keep(k);
      var m :| 0 <= m < |ks| && ks[m] == k;
      assert tag[m] == (k, [v]);
    }
  }
}
