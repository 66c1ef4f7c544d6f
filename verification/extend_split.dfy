/** The offline multi-view manifest rewrite (dev/extend_split.py): a raw
    manifest of `(pk, sid, fid, vid)` entries is collapsed to its distinct
    `(pk, sid, fid)` triples, the triples are sorted, and every triple is
    re-expanded to the four camera views 0..3.  The result is written to the
    mirror of the input path under the `anno_mv` root. */
module ExtendSplit {
  import opened Wrappers
  import opened Text
  import Dict

  /** One manifest entry: sequence path, subject index, frame index, view index. */
  datatype Entry = Entry(pk: string, sid: int, fid: int, vid: int)

  /** A manifest entry with its view forgotten. */
  datatype Triple = Triple(pk: string, sid: int, fid: int)

  /** The number of fixed camera views every triple is expanded to. */
  const ViewCount: nat := 4

  function TripleOf(e: Entry): Triple {
    Triple(e.pk, e.sid, e.fid)
  }

  function WithView(t: Triple, v: int): Entry {
    Entry(t.pk, t.sid, t.fid, v)
  }

  // -----------------------------------------------------------------------
  // Python tuple order on triples and entries
  // -----------------------------------------------------------------------

  /** `a < b` on `(pk, sid, fid)` tuples: string order on pk, then numbers. */
  predicate TripleLt(a: Triple, b: Triple) {
    StrLt(a.pk, b.pk) || (a.pk == b.pk && (a.sid < b.sid || (a.sid == b.sid && a.fid < b.fid)))
  }

  /** `a < b` on `(pk, sid, fid, vid)` tuples. */
  predicate EntryLt(a: Entry, b: Entry) {
    TripleLt(TripleOf(a), TripleOf(b)) || (TripleOf(a) == TripleOf(b) && a.vid < b.vid)
  }

  lemma TripleLtIrreflexive(a: Triple)
    ensures !TripleLt(a, a)
  {
    StrLtIrreflexive(a.pk);
  }

  lemma TripleLtTransitive(a: Triple, b: Triple, c: Triple)
    requires TripleLt(a, b) && TripleLt(b, c)
    ensures TripleLt(a, c)
  {
    if StrLt(a.pk, b.pk) && StrLt(b.pk, c.pk) {
      StrLtTransitive(a.pk, b.pk, c.pk);
    }
  }

  lemma TripleLtTotal(a: Triple, b: Triple)
    requires a != b
    ensures TripleLt(a, b) || TripleLt(b, a)
  {
    if a.pk != b.pk {
      StrLtTotal(a.pk, b.pk);
    }
  }

  predicate StrictlySorted(ts: seq<Triple>) {
    forall i, j :: 0 <= i < j < |ts| ==> TripleLt(ts[i], ts[j])
  }

  predicate EntriesStrictlySorted(es: seq<Entry>) {
    forall i, j :: 0 <= i < j < |es| ==> EntryLt(es[i], es[j])
  }

  function Elems(ts: seq<Triple>): set<Triple> {
    set t | t in ts
  }

  /** The distinct triples of a manifest, views ignored. */
  function TriplesOf(es: seq<Entry>): set<Triple> {
    set i | 0 <= i < |es| :: TripleOf(es[i])
  }

  // -----------------------------------------------------------------------
  // collapse: sorted(set of triples)
  // -----------------------------------------------------------------------

  /** Adds a triple to a strictly sorted sequence, keeping it strictly
      sorted; a triple already present changes nothing (set semantics). */
  function Insert(t: Triple, ts: seq<Triple>): (r: seq<Triple>)
    requires StrictlySorted(ts)
    ensures StrictlySorted(r)
    ensures Elems(r) == Elems(ts) + {t}
    decreases |ts|
  {
    if |ts| == 0 then [t]
    else if t == ts[0] then ts
    else if TripleLt(t, ts[0]) then
      InsertFrontSorted(t, ts);
      [t] + ts
    else
      TripleLtTotal(t, ts[0]);
      var rest := Insert(t, ts[1..]);
      assert Elems(ts) == {ts[0]} + Elems(ts[1..]) by {
        assert ts == [ts[0]] + ts[1..];
      }
      InsertHeadSorted(ts[0], rest, ts[1..], t);
      assert Elems([ts[0]] + rest) == {ts[0]} + Elems(rest);
      [ts[0]] + rest
  }

  lemma InsertFrontSorted(t: Triple, ts: seq<Triple>)
    requires StrictlySorted(ts) && |ts| > 0 && TripleLt(t, ts[0])
    ensures StrictlySorted([t] + ts)
  {
    forall i, j | 0 <= i < j < |ts| + 1
      ensures TripleLt(([t] + ts)[i], ([t] + ts)[j])
    {
      if i == 0 && j > 1 {
        TripleLtTransitive(t, ts[0], ts[j - 1]);
      }
    }
  }

  lemma InsertHeadSorted(h: Triple, rest: seq<Triple>, tail: seq<Triple>, t: Triple)
    requires StrictlySorted(rest) && TripleLt(h, t)
    requires forall k :: 0 <= k < |tail| ==> TripleLt(h, tail[k])
    requires Elems(rest) == Elems(tail) + {t}
    ensures StrictlySorted([h] + rest)
  {
    forall i, j | 0 <= i < j < |rest| + 1
      ensures TripleLt(([h] + rest)[i], ([h] + rest)[j])
    {
      if i == 0 {
        assert rest[j - 1] in Elems(rest);
      }
    }
  }

  /** `sorted(set((pk, sid, fid) for each entry))`. */
  function Collapse(es: seq<Entry>): (r: seq<Triple>)
    ensures StrictlySorted(r)
    ensures Elems(r) == TriplesOf(es)
    decreases |es|
  {
    if |es| == 0 then []
    else
      var init := es[..|es| - 1];
      assert TriplesOf(es) == TriplesOf(init) + {TripleOf(es[|es| - 1])} by {
        assert forall i :: 0 <= i < |init| ==> init[i] == es[i];
      }
      Insert(TripleOf(es[|es| - 1]), Collapse(init))
  }

  /** A strictly sorted sequence has no repeated element. */
  lemma {:induction false} SortedCardinality(ts: seq<Triple>)
    requires StrictlySorted(ts)
    ensures |Elems(ts)| == |ts|
    decreases |ts|
  {
    if |ts| > 0 {
      SortedCardinality(ts[1..]);
      assert ts == [ts[0]] + ts[1..];
      assert Elems(ts) == {ts[0]} + Elems(ts[1..]);
      TripleLtIrreflexive(ts[0]);
      assert ts[0] !in Elems(ts[1..]);
    }
  }

  /** The head of a strictly sorted sequence is its least element. */
  lemma SortedHeadLeast(a: seq<Triple>, x: Triple)
    requires StrictlySorted(a) && x in Elems(a)
    ensures x == a[0] || TripleLt(a[0], x)
  {
    var m :| 0 <= m < |a| && a[m] == x;
  }

  /** Dropping the head of a strictly sorted sequence removes exactly it. */
  lemma SortedTailElems(a: seq<Triple>)
    requires StrictlySorted(a) && |a| > 0
    ensures Elems(a[1..]) == Elems(a) - {a[0]}
  {
    assert a == [a[0]] + a[1..];
    TripleLtIrreflexive(a[0]);
    assert a[0] !in Elems(a[1..]);
  }

  /** Two strictly sorted sequences with the same elements start alike. */
  lemma SortedSameHead(a: seq<Triple>, b: seq<Triple>)
    requires StrictlySorted(a) && StrictlySorted(b) && Elems(a) == Elems(b) && |a| > 0
    ensures |b| > 0 && a[0] == b[0]
  {
    assert a[0] in Elems(b);
    SortedHeadLeast(b, a[0]);
    SortedHeadLeast(a, b[0]);
    if a[0] != b[0] {
      TripleLtTransitive(a[0], b[0], a[0]);
      TripleLtIrreflexive(a[0]);
    }
  }

  /** There is only one strictly sorted arrangement of a set of triples. */
  lemma {:induction false} SortedUnique(a: seq<Triple>, b: seq<Triple>)
    requires StrictlySorted(a) && StrictlySorted(b) && Elems(a) == Elems(b)
    ensures a == b
    decreases |a|
  {
    if |a| > 0 {
      SortedSameHead(a, b);
      SortedTailElems(a);
      SortedTailElems(b);
      SortedUnique(a[1..], b[1..]);
      assert a == [a[0]] + a[1..] && b == [b[0]] + b[1..];
    } else {
      SortedCardinality(b);
    }
  }

  // -----------------------------------------------------------------------
  // expand: each triple to views 0..3
  // -----------------------------------------------------------------------

  /** `[(pk, sid, fid, vid) for vid in range(4)]`. */
  function Views(t: Triple): seq<Entry> {
    [WithView(t, 0), WithView(t, 1), WithView(t, 2), WithView(t, 3)]
  }

  /** Every triple, in order, followed by its four views. */
  function Expand(ts: seq<Triple>): (r: seq<Entry>)
    ensures |r| == ViewCount * |ts|
    ensures forall i :: 0 <= i < |r| ==> r[i] == WithView(ts[i / 4], i % 4)
    decreases |ts|
  {
    if |ts| == 0 then []
    else
      var rest := Expand(ts[1..]);
      assert forall i :: 4 <= i < 4 + |rest| ==> (i - 4) / 4 == i / 4 - 1 && (i - 4) % 4 == i % 4;
      Views(ts[0]) + rest
  }

  /** The canonical multi-view manifest of extend_split.py's main loop. */
  function Canonicalize(es: seq<Entry>): seq<Entry> {
    Expand(Collapse(es))
  }

  lemma ExpandTriples(ts: seq<Triple>)
    ensures TriplesOf(Expand(ts)) == Elems(ts)
  {
    var r := Expand(ts);
    forall t | t in Elems(ts)
      ensures t in TriplesOf(r)
    {
      var k :| 0 <= k < |ts| && ts[k] == t;
      assert TripleOf(r[4 * k]) == t;
    }
  }

  /** The set of triples is preserved: every input triple appears in the
      output, and nothing else does; the input views play no part. */
  lemma CanonicalTriples(es: seq<Entry>)
    ensures TriplesOf(Canonicalize(es)) == TriplesOf(es)
  {
    ExpandTriples(Collapse(es));
  }

  /** The output has four entries per distinct input triple. */
  lemma CanonicalLength(es: seq<Entry>)
    ensures |Canonicalize(es)| == ViewCount * |TriplesOf(es)|
  {
    SortedCardinality(Collapse(es));
  }

  /** Each triple occupies a block of four consecutive entries carrying
      views 0, 1, 2, 3 in that order, so every view index is in 0..3. */
  lemma CanonicalViews(es: seq<Entry>)
    ensures |Canonicalize(es)| % ViewCount == 0
    ensures forall i :: 0 <= i < |Canonicalize(es)| ==> 0 <= Canonicalize(es)[i].vid < ViewCount
    ensures forall b, v :: 0 <= b < |Canonicalize(es)| / 4 && 0 <= v < 4 ==>
      Canonicalize(es)[4 * b + v] == WithView(TripleOf(Canonicalize(es)[4 * b]), v)
  {
    var r := Canonicalize(es);
    forall b, v | 0 <= b < |r| / 4 && 0 <= v < 4
      ensures r[4 * b + v] == WithView(TripleOf(r[4 * b]), v)
    {
      assert (4 * b + v) / 4 == b && (4 * b + v) % 4 == v;
      assert (4 * b) / 4 == b && (4 * b) % 4 == 0;
    }
  }

  /** The output is in ascending tuple order (triples ascending, then views
      ascending), which also means it holds no entry twice. */
  lemma CanonicalSorted(es: seq<Entry>)
    ensures EntriesStrictlySorted(Canonicalize(es))
    ensures forall i, j :: 0 <= i < j < |Canonicalize(es)| ==> Canonicalize(es)[i] != Canonicalize(es)[j]
  {
    var ts := Collapse(es);
    var r := Canonicalize(es);
    forall i, j | 0 <= i < j < |r|
      ensures EntryLt(r[i], r[j]) && r[i] != r[j]
    {
      assert i / 4 <= j / 4;
      if i / 4 < j / 4 {
        assert TripleLt(ts[i / 4], ts[j / 4]);
        TripleLtIrreflexive(ts[i / 4]);
      }
    }
  }

  /** Running the rewrite on its own output changes nothing. */
  lemma CanonicalIdempotent(es: seq<Entry>)
    ensures Canonicalize(Canonicalize(es)) == Canonicalize(es)
  {
    CanonicalTriples(es);
    SortedUnique(Collapse(Canonicalize(es)), Collapse(es));
  }

  /** Three raw entries over two frames give the eight entries of those two
      frames, frame 0 first. */
  lemma ExampleTwoFrames()
    ensures Canonicalize([Entry("S1/t1", 0, 0, 0), Entry("S1/t1", 0, 0, 1), Entry("S1/t1", 0, 1, 2)])
         == [Entry("S1/t1", 0, 0, 0), Entry("S1/t1", 0, 0, 1), Entry("S1/t1", 0, 0, 2), Entry("S1/t1", 0, 0, 3),
             Entry("S1/t1", 0, 1, 0), Entry("S1/t1", 0, 1, 1), Entry("S1/t1", 0, 1, 2), Entry("S1/t1", 0, 1, 3)]
  {
    var a, b := Triple("S1/t1", 0, 0), Triple("S1/t1", 0, 1);
    ExampleCollapse();
    ExpandPair(a, b);
  }

  /** The example's three entries collapse to its two frames, in order. */
  lemma ExampleCollapse()
    ensures Collapse([Entry("S1/t1", 0, 0, 0), Entry("S1/t1", 0, 0, 1), Entry("S1/t1", 0, 1, 2)])
         == [Triple("S1/t1", 0, 0), Triple("S1/t1", 0, 1)]
  {
    var es := [Entry("S1/t1", 0, 0, 0), Entry("S1/t1", 0, 0, 1), Entry("S1/t1", 0, 1, 2)];
    var expected := [Triple("S1/t1", 0, 0), Triple("S1/t1", 0, 1)];
    assert TripleOf(es[0]) == expected[0] && TripleOf(es[1]) == expected[0] && TripleOf(es[2]) == expected[1];
    assert TriplesOf(es) == Elems(expected);
    StrLtIrreflexive("S1/t1");
    assert StrictlySorted(expected);
    SortedUnique(Collapse(es), expected);
  }

  /** Two triples expand to the views of the first, then those of the second. */
  lemma ExpandPair(a: Triple, b: Triple)
    ensures Expand([a, b]) == [WithView(a, 0), WithView(a, 1), WithView(a, 2), WithView(a, 3),
                               WithView(b, 0), WithView(b, 1), WithView(b, 2), WithView(b, 3)]
  {
    assert [a, b][1..] == [b];
    assert [b][1..] == [];
  }

  // -----------------------------------------------------------------------
  // split key and file paths
  // -----------------------------------------------------------------------

  /** The `mode_split` -> split directory table. */
  const ModeSplitKeys: Dict.Table<string, string> := [
    ("default", "split0"), ("subject", "split1"), ("object", "split2"), ("handobject", "split0_ho")
  ]

  /** The dict lookup on the table; an unknown mode raises KeyError. */
  function SplitKey(mode: string): (r: Result<string>)
    ensures r.Success? <==> mode in Dict.Keys(ModeSplitKeys)
  {
    var m := Dict.ToMap(ModeSplitKeys);
    if mode in m then Success(m[mode]) else Failure(KeyMissing(mode))
  }

  /** The four modes map one-to-one onto the four split directories. */
  lemma SplitKeyOneToOne(m1: string, m2: string)
    ensures SplitKey(m1).Success? && SplitKey(m2).Success? && SplitKey(m1) == SplitKey(m2) ==> m1 == m2
    ensures (exists m :: SplitKey(m) == Success("split0")) && (exists m :: SplitKey(m) == Success("split1"))
    ensures (exists m :: SplitKey(m) == Success("split2")) && (exists m :: SplitKey(m) == Success("split0_ho"))
    ensures SplitKey(m1).Success? ==> SplitKey(m1).value in {"split0", "split1", "split2", "split0_ho"}
  {
    SplitKeyTable();
    SplitKeyInjective(m1, m2);
    SplitKeyRange(m1);
  }

  /** Each of the table's modes maps to its own split directory. */
  lemma SplitKeyTable()
    ensures SplitKey("default") == Success("split0") && SplitKey("subject") == Success("split1")
    ensures SplitKey("object") == Success("split2") && SplitKey("handobject") == Success("split0_ho")
  {
    var t := ModeSplitKeys;
    assert Dict.DistinctKeys(t);
    Dict.ToMapOfItem(t, 0);
    Dict.ToMapOfItem(t, 1);
    Dict.ToMapOfItem(t, 2);
    Dict.ToMapOfItem(t, 3);
  }

  /** Two modes with the same split directory are the same mode. */
  lemma SplitKeyInjective(m1: string, m2: string)
    ensures SplitKey(m1).Success? && SplitKey(m2).Success? && SplitKey(m1) == SplitKey(m2) ==> m1 == m2
  {
    SplitKeyTable();
    SplitKeyModes(m1);
    SplitKeyModes(m2);
  }

  /** Only the table's four modes are accepted. */
  lemma SplitKeyModes(m: string)
    ensures SplitKey(m).Success? ==> m == "default" || m == "subject" || m == "object" || m == "handobject"
  {
    var ks := Dict.Keys(ModeSplitKeys);
    assert ks == ["default", "subject", "object", "handobject"];
  }

  /** Every split directory is one of the four. */
  lemma SplitKeyRange(m: string)
    ensures SplitKey(m).Success? ==> SplitKey(m).value in {"split0", "split1", "split2", "split0_ho"}
  {
    if SplitKey(m).Success? {
      Dict.ToMapValueOfItem(ModeSplitKeys, m);
    }
  }

  /** The manifest read for a data split (lines 14-23), as path components. */
  function InputManifest(dataDir: string, dataSplit: string, key: string): seq<string> {
    if dataSplit == "train+val" then [dataDir, "image", "anno", "split", key, "seq_train.json"]
    else if dataSplit == "train" then [dataDir, "image", "anno", "split_train_val", key, "example_split_train.json"]
    else if dataSplit == "val" then [dataDir, "image", "anno", "split_train_val", key, "example_split_val.json"]
    else [dataDir, "image", "anno", "split", key, "seq_test.json"]
  }

  /** The manifest written for a data split (lines 42-51), as path components. */
  function OutputManifest(dataDir: string, dataSplit: string, key: string): seq<string> {
    var prefix := [dataDir, "image", "anno_mv"];
    if dataSplit == "train+val" then prefix + ["split", key, "seq_train.json"]
    else if dataSplit == "train" then prefix + ["split_train_val", key, "example_split_train.json"]
    else if dataSplit == "val" then prefix + ["split_train_val", key, "example_split_val.json"]
    else prefix + ["split", key, "seq_test.json"]
  }

  /** The written file mirrors the read one: same components, except that
      the `anno` root becomes `anno_mv`. */
  lemma OutputMirrorsInput(dataDir: string, dataSplit: string, key: string)
    ensures |OutputManifest(dataDir, dataSplit, key)| == |InputManifest(dataDir, dataSplit, key)| == 6
    ensures InputManifest(dataDir, dataSplit, key)[2] == "anno"
    ensures OutputManifest(dataDir, dataSplit, key) == InputManifest(dataDir, dataSplit, key)[2 := "anno_mv"]
  {
  }

  /** One run of the script: `load` stands for reading a manifest file.  It
      fails only on an unknown mode, and otherwise writes the canonical form
      of the manifest it read to the mirrored path: the four views of each
      distinct triple, sorted. */
  function Run(dataDir: string, dataSplit: string, mode: string, load: seq<string> -> seq<Entry>)
    : (r: Result<(seq<string>, seq<Entry>)>)
    ensures r.Success? <==> mode in Dict.Keys(ModeSplitKeys)
    ensures r.Success? ==>
      var key := SplitKey(mode).value;
      && r.value.0 == InputManifest(dataDir, dataSplit, key)[2 := "anno_mv"]
      && TriplesOf(r.value.1) == TriplesOf(load(InputManifest(dataDir, dataSplit, key)))
      && EntriesStrictlySorted(r.value.1)
      && r.value.1 == Canonicalize(load(InputManifest(dataDir, dataSplit, key)))
  {
    var key :- SplitKey(mode);
    var input := InputManifest(dataDir, dataSplit, key);
    CanonicalTriples(load(input));
    CanonicalSorted(load(input));
    Success((OutputManifest(dataDir, dataSplit, key), Canonicalize(load(input))))
  }

  /** The written manifest is the multi-view form of the one read: four
      entries per distinct triple, in blocks carrying views 0 to 3, and
      rewriting it again changes nothing. */
  lemma RunWritesViews(dataDir: string, dataSplit: string, mode: string, load: seq<string> -> seq<Entry>)
    requires Run(dataDir, dataSplit, mode, load).Success?
    ensures var es := load(InputManifest(dataDir, dataSplit, SplitKey(mode).value));
      var out := Run(dataDir, dataSplit, mode, load).value.1;
      && |out| == ViewCount * |TriplesOf(es)|
      && (forall b, v :: 0 <= b < |out| / 4 && 0 <= v < 4 ==> out[4 * b + v] == WithView(TripleOf(out[4 * b]), v))
      && Canonicalize(out) == out
  {
    var es := load(InputManifest(dataDir, dataSplit, SplitKey(mode).value));
    CanonicalLength(es);
    CanonicalViews(es);
    CanonicalIdempotent(es);
  }
}
