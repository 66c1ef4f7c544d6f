/** One recording seen from one camera (oikit/oi_image/oi_image.py, class
    OakInkImageSequence): the samples of the "all" manifest with the given
    sequence path and view, ordered by subject and then frame. */
module ImageSequence {
  import opened Wrappers
  import OiImage

  type SampleKey = OiImage.SampleKey

  /** The colour-stream names of the four cameras, indexed by view. */
  const ColorViews: seq<string> := ["north_east_color", "south_east_color", "north_west_color", "south_west_color"]

  /** The sort key `subject * 1000 + frame`. */
  function FrameKey(k: SampleKey): int {
    k.subject * 1000 + k.frame
  }

  predicate SortedByKey(s: seq<SampleKey>) {
    forall i, j :: 0 <= i < j < |s| ==> FrameKey(s[i]) <= FrameKey(s[j])
  }

  /** For frame numbers below 1000 the sort key orders samples by subject
      first and frame second. */
  lemma FrameKeyIsLexicographic(a: SampleKey, b: SampleKey)
    requires 0 <= a.frame < 1000 && 0 <= b.frame < 1000
    ensures FrameKey(a) <= FrameKey(b) <==> a.subject < b.subject || (a.subject == b.subject && a.frame <= b.frame)
  {
    if a.subject < b.subject {
      assert (a.subject + 1) * 1000 <= b.subject * 1000;
    } else if a.subject > b.subject {
      assert (b.subject + 1) * 1000 <= a.subject * 1000;
    }
  }

  /** A sample with the requested sequence path and view. */
  predicate InView(k: SampleKey, seqId: string, viewId: int) {
    k.path == seqId && k.view == viewId
  }

  /** The list comprehension that keeps the samples of one sequence and view,
      in manifest order. */
  function SelectView(all: seq<SampleKey>, seqId: string, viewId: int): (r: seq<SampleKey>)
    ensures forall k :: multiset(r)[k] == if InView(k, seqId, viewId) then multiset(all)[k] else 0
    decreases |all|
  {
    if |all| == 0 then []
    else
      var n := |all| - 1;
      assert all == all[..n] + [all[n]];
      var init := SelectView(all[..n], seqId, viewId);
      if InView(all[n], seqId, viewId) then init + [all[n]] else init
  }

  /** Every sample after the first of a sorted list has a key at least the first's. */
  lemma SortedHeadBound(s: seq<SampleKey>)
    requires SortedByKey(s) && |s| > 0
    ensures forall y :: y in s[1..] ==> FrameKey(s[0]) <= FrameKey(y)
  {
    forall y | y in s[1..] ensures FrameKey(s[0]) <= FrameKey(y) {
      var j :| 0 <= j < |s[1..]| && s[1..][j] == y;
      assert s[j + 1] == y;
    }
  }

  /** Inserts `x` after every sample whose key is not larger. */
  function Insert(x: SampleKey, s: seq<SampleKey>): (r: seq<SampleKey>)
    requires SortedByKey(s)
    ensures forall y :: y in r ==> y == x || y in s
    ensures SortedByKey(r)
    ensures multiset(r) == multiset(s) + multiset{x}
    decreases |s|
  {
    if |s| == 0 then [x]
    else if FrameKey(x) < FrameKey(s[0]) then [x] + s
    else
      SortedTail(s);
      var rest := Insert(x, s[1..]);
      assert s == [s[0]] + s[1..];
      SortedHeadBound(s);
      SortedCons(s[0], rest);
      [s[0]] + rest
  }

  /** Dropping the first sample keeps a list sorted. */
  lemma SortedTail(s: seq<SampleKey>)
    requires SortedByKey(s) && |s| > 0
    ensures SortedByKey(s[1..])
  {
    forall i, j | 0 <= i < j < |s| - 1 ensures FrameKey(s[1..][i]) <= FrameKey(s[1..][j]) {
      assert s[1..][i] == s[i + 1] && s[1..][j] == s[j + 1];
    }
  }

  /** A sample whose key bounds a sorted list from below can go in front of it. */
  lemma SortedCons(h: SampleKey, r: seq<SampleKey>)
    requires SortedByKey(r)
    requires forall y :: y in r ==> FrameKey(h) <= FrameKey(y)
    ensures SortedByKey([h] + r)
  {
    forall i, j | 0 <= i < j < |r| + 1 ensures FrameKey(([h] + r)[i]) <= FrameKey(([h] + r)[j]) {
      assert ([h] + r)[j] == r[j - 1];
      assert r[j - 1] in r;
      if i > 0 {
        assert ([h] + r)[i] == r[i - 1];
      }
    }
  }

  /** `list.sort(key=FrameKey)`, as an insertion sort that keeps equal keys
      in their original order. */
  function SortByKey(s: seq<SampleKey>): (r: seq<SampleKey>)
    ensures SortedByKey(r)
    ensures multiset(r) == multiset(s)
    decreases |s|
  {
    if |s| == 0 then []
    else
      var n := |s| - 1;
      assert s == s[..n] + [s[n]];
      Insert(s[n], SortByKey(s[..n]))
  }

  /** The state an OakInkImageSequence holds after construction. */
  datatype SequenceIndex = SequenceIndex(
    name: string,
    image: OiImage.ImageIndex,
    objId: string,
    intentId: string,
    subjectId: seq<string>)

  /** The sample list of a sequence: filtered, then sorted. */
  function SequenceSamples(all: seq<SampleKey>, seqId: string, viewId: int): seq<SampleKey> {
    SortByKey(SelectView(all, seqId, viewId))
  }

  /** `OakInkImageSequence.__init__`: `all` stands for the loaded "all"
      manifest and `status` for the loaded status table.  A view outside the
      four cameras, a sequence path without exactly one '/', or a sequence
      code that does not decode raises; so does a failed handover check. */
  function NewSequence(dataDir: string, seqId: string, viewId: int, enableHandover: bool,
                       all: seq<SampleKey>, status: map<string, string>): (r: Result<SequenceIndex>)
    ensures r.Success? <==>
      && -4 <= viewId < 4
      && OiImage.SeqCatOf(seqId).Success?
      && OiImage.DecodeSeqCat(OiImage.SeqCatOf(seqId).value).Success?
      && (enableHandover ==> OiImage.HandoverInfo(SequenceSamples(all, seqId, viewId)).Success?)
    ensures r.Success? ==>
      && OiImage.WellFormed(r.value.image)
      && r.value.image.infos == SequenceSamples(all, seqId, viewId)
      && (r.value.image.handover.Some? <==> enableHandover)
      && r.value.name == "OakInkImage_" + seqId + "_" + PyIndex(ColorViews, viewId).value
      && r.value.image.status == status && r.value.image.dataDir == dataDir
  {
    var viewName :- PyIndex(ColorViews, viewId);
    var seqCat :- OiImage.SeqCatOf(seqId);
    var infos := SequenceSamples(all, seqId, viewId);
    var code :- OiImage.DecodeSeqCat(seqCat);
    if !enableHandover then
      Success(SequenceIndex("OakInkImage_" + seqId + "_" + viewName,
        OiImage.ImageIndex(dataDir, infos, OiImage.InfoStrings(infos), status, None),
        code.objId, code.actionId, code.subjects))
    else match OiImage.HandoverInfo(infos)
      case Failure(e) => Failure(e)
      case Success(h) =>
        OiImage.HandoverWellFormed(infos);
        Success(SequenceIndex("OakInkImage_" + seqId + "_" + viewName,
          OiImage.ImageIndex(dataDir, infos, OiImage.InfoStrings(infos), status, Some(h)),
          code.objId, code.actionId, code.subjects))
  }

  /** The samples of a sequence are exactly the manifest's samples with that
      path and view, each as often as the manifest lists it, ordered by key. */
  lemma SequenceSamplesAreTheView(all: seq<SampleKey>, seqId: string, viewId: int)
    ensures var s := SequenceSamples(all, seqId, viewId);
      && SortedByKey(s)
      && (forall k :: multiset(s)[k] == if InView(k, seqId, viewId) then multiset(all)[k] else 0)
      && (forall k :: k in s <==> k in all && InView(k, seqId, viewId))
  {
    var s := SequenceSamples(all, seqId, viewId);
    forall k ensures k in s <==> k in all && InView(k, seqId, viewId) {
      assert k in s <==> multiset(s)[k] > 0;
      assert k in all <==> multiset(all)[k] > 0;
    }
  }

  /** Every sample of a constructed sequence reports the sequence's own
      object id. */
  lemma SequenceObjectId(sq: SequenceIndex, dataDir: string, seqId: string, viewId: int, enableHandover: bool,
                         all: seq<SampleKey>, status: map<string, string>, idx: int)
    requires NewSequence(dataDir, seqId, viewId, enableHandover, all, status) == Success(sq)
    requires -|sq.image.infos| <= idx < |sq.image.infos|
    ensures OiImage.GetObjIdx(sq.image, idx) == Success(sq.objId)
  {
    var k := PyIndex(sq.image.infos, idx).value;
    assert k in sq.image.infos;
    SequenceSamplesAreTheView(all, seqId, viewId);
    assert k.path == seqId;
  }
}
