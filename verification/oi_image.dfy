/** The image-sample index (oikit/oi_image/oi_image.py, class OakInkImage):
    sample keys, the sequence-code decoding, the filesystem-safe sample
    identifier, the handover map that pairs a two-subject sample with its
    partner, and the per-index accessors that resolve side-table fields. */
module OiImage {
  import opened Wrappers
  import opened Text
  import Dict
  import ShapeUtils
  import ExtendSplit

  /** One manifest entry: `(sequence path, subject index, frame index, view index)`,
      the sequence path being `{object}_{action}_{subjects}/{timestamp}`. */
  datatype SampleKey = SampleKey(path: string, subject: int, frame: int, view: int)

  /** A decoded sequence code. */
  datatype SeqCode = SeqCode(objId: string, actionId: string, subjects: seq<string>)

  // -----------------------------------------------------------------------
  // intents
  // -----------------------------------------------------------------------

  /** `ALL_INTENT_REV`: action code -> intent name, built by inverting the
      intent table item by item. */
  function IntentRev(): map<string, string> {
    Dict.Invert(ShapeUtils.AllIntent)
  }

  /** The reverse table is the exact inverse of the intent table: a name has
      a code exactly when that code maps back to the name, and the codes are
      exactly "0001".."0004". */
  lemma IntentRevIsInverse(name: string, code: string)
    ensures (name in Dict.ToMap(ShapeUtils.AllIntent) && Dict.ToMap(ShapeUtils.AllIntent)[name] == code)
        <==> (code in IntentRev() && IntentRev()[code] == name)
    ensures IntentRev().Keys == {"0001", "0002", "0003", "0004"}
  {
    ShapeUtils.IntentTableShape();
    Dict.InvertIsInverse(ShapeUtils.AllIntent, name, code);
    IntentRevKeys();
  }

  lemma IntentRevKeys()
    ensures IntentRev().Keys == {"0001", "0002", "0003", "0004"}
  {
    var sw := Dict.Swap(ShapeUtils.AllIntent);
    assert sw[0].0 == "0001" && sw[1].0 == "0002" && sw[2].0 == "0003" && sw[3].0 == "0004";
  }

  /** The handover code reads back as the "handover" intent. */
  lemma HandoverIntentName()
    ensures ShapeUtils.HandoverCode in IntentRev() && IntentRev()[ShapeUtils.HandoverCode] == "handover"
  {
    ShapeUtils.IntentTableShape();
    IntentRevIsInverse("handover", ShapeUtils.HandoverCode);
  }

  // -----------------------------------------------------------------------
  // decode_seq_cat
  // -----------------------------------------------------------------------

  /** `decode_seq_cat`: the '_'-separated fields are object id, action code
      and subject codes; a handover keeps fields 2..3 (as many as exist),
      any other action keeps field 2 only.  Too few fields raise IndexError. */
  function DecodeSeqCat(seqCat: string): (r: Result<SeqCode>)
    ensures var f := Split(seqCat, '_');
      r.Success? <==> |f| >= 2 && (f[1] == ShapeUtils.HandoverCode || |f| >= 3)
    ensures r.Success? ==> '_' !in r.value.objId && '_' !in r.value.actionId
    ensures r.Success? ==> forall k :: 0 <= k < |r.value.subjects| ==> '_' !in r.value.subjects[k]
    ensures r.Success? && r.value.actionId == ShapeUtils.HandoverCode ==> |r.value.subjects| <= 2
    ensures r.Success? && r.value.actionId != ShapeUtils.HandoverCode ==> |r.value.subjects| == 1
  {
    DecodeFields(Split(seqCat, '_'))
  }

  /** The field selection of `decode_seq_cat`, on the already split fields. */
  function DecodeFields(f: seq<string>): Result<SeqCode> {
    if |f| < 2 then Failure(IndexOutOfRange)
    else if f[1] == ShapeUtils.HandoverCode then
      Success(SeqCode(f[0], f[1], f[2..if |f| < 4 then |f| else 4]))
    else if |f| < 3 then Failure(IndexOutOfRange)
    else Success(SeqCode(f[0], f[1], [f[2]]))
  }

  /** Encoding a sequence code with '_' and decoding it gives it back, for
      separator-free fields and a subject count the action allows. */
  lemma DecodeSeqCatRoundTrip(objId: string, actionId: string, subjects: seq<string>)
    requires '_' !in objId && '_' !in actionId
    requires forall k :: 0 <= k < |subjects| ==> '_' !in subjects[k]
    requires if actionId == ShapeUtils.HandoverCode then |subjects| <= 2 else |subjects| == 1
    ensures DecodeSeqCat(Join([objId, actionId] + subjects, "_")) == Success(SeqCode(objId, actionId, subjects))
  {
    var parts := [objId, actionId] + subjects;
    assert forall k :: 0 <= k < |parts| ==> '_' !in parts[k];
    SplitJoin(parts, '_');
    DecodeFieldsOf(objId, actionId, subjects);
  }

  /** The field selection keeps every subject field the action allows. */
  lemma DecodeFieldsOf(objId: string, actionId: string, subjects: seq<string>)
    requires if actionId == ShapeUtils.HandoverCode then |subjects| <= 2 else |subjects| == 1
    ensures DecodeFields([objId, actionId] + subjects) == Success(SeqCode(objId, actionId, subjects))
  {
    var f := [objId, actionId] + subjects;
    assert f[0] == objId && f[1] == actionId;
    assert f[2..|f|] == subjects;
    if actionId != ShapeUtils.HandoverCode {
      assert subjects == [f[2]];
    }
  }

  /** The decoded object id is the text before the first '_'. */
  lemma DecodeSeqCatObjectPrefix(seqCat: string)
    requires DecodeSeqCat(seqCat).Success?
    ensures StartsWith(seqCat, DecodeSeqCat(seqCat).value.objId + "_")
  {
    var f := Split(seqCat, '_');
    JoinSplit(seqCat, '_');
    JoinCons(f[0], f[1..], "_");
    assert f == [f[0]] + f[1..];
  }

  /** `seq_cat, _ = path.split("/")`: exactly one '/' or the unpacking fails. */
  function SeqCatOf(path: string): (r: Result<string>)
    ensures r.Success? <==> |Split(path, '/')| == 2
    ensures r.Success? ==> StartsWith(path, r.value + "/")
  {
    var f := Split(path, '/');
    if |f| == 2 then
      JoinSplit(path, '/');
      Success(f[0])
    else Failure(BadUnpack)
  }

  /** The action code of a sample, as the handover scan decodes it. */
  function ActionOf(k: SampleKey): Result<string> {
    var seqCat :- SeqCatOf(k.path);
    var code :- DecodeSeqCat(seqCat);
    Success(code.actionId)
  }

  predicate IsHandoverKey(k: SampleKey) {
    ActionOf(k) == Success(ShapeUtils.HandoverCode)
  }

  // -----------------------------------------------------------------------
  // _get_info_str
  // -----------------------------------------------------------------------

  /** `_get_info_str`: the stringified fields joined with "__", then every
      '/' replaced by "__". */
  function InfoStr(k: SampleKey): (r: string)
    ensures '/' !in r
  {
    var joined := Join([k.path, IntToString(k.subject), IntToString(k.frame), IntToString(k.view)], "__");
    Replace(joined, '/', "__")
  }

  /** One empty field and one separator-free field in front of the rest. */
  lemma SplitEmptyThenField(a: string, y: string)
    requires '_' !in a
    ensures Split(['_'] + a + ['_'] + y, '_') == ["", a] + Split(y, '_')
  {
    SplitNoSeparator(a, '_');
    SplitAtSeparator(a, y, '_');
    assert ['_'] + a + ['_'] + y == ['_'] + (a + ['_'] + y);
    SplitConsSeparator(a + ['_'] + y, '_');
    ConsAssoc("", [a], Split(y, '_'));
  }

  /** The index part of an identifier after the path's last field. */
  function IndexTail(a: string, b: string, c: string): string {
    ['_'] + a + ['_'] + (['_'] + b + ['_'] + (['_'] + c))
  }

  lemma SplitIndexTail(a: string, b: string, c: string)
    requires '_' !in a && '_' !in b && '_' !in c
    ensures Split(IndexTail(a, b, c), '_') == ["", a, "", b, "", c]
  {
    SplitNoSeparator(c, '_');
    SplitNoSeparator("", '_');
    SplitAtSeparator("", c, '_');
    assert "" + ['_'] + c == ['_'] + c;
    SplitEmptyThenField(b, ['_'] + c);
    SplitEmptyThenField(a, ['_'] + b + ['_'] + (['_'] + c));
  }

  /** The joined form before escaping is the path, a separator, and the tail. */
  lemma JoinedInfo(p: string, a: string, b: string, c: string)
    ensures Join([p, a, b, c], "__") == p + ['_'] + IndexTail(a, b, c)
  {
    JoinCons(b, [c], "__");
    JoinCons(a, [b, c], "__");
    JoinCons(p, [a, b, c], "__");
  }

  /** The identifier is the escaped path, a separator, and the index tail. */
  lemma InfoStrShape(k: SampleKey)
    ensures InfoStr(k) == Replace(k.path, '/', "__") + ['_']
                        + IndexTail(IntToString(k.subject), IntToString(k.frame), IntToString(k.view))
  {
    var a, b, c := IntToString(k.subject), IntToString(k.frame), IntToString(k.view);
    var t := ['_'] + IndexTail(a, b, c);
    JoinedInfo(k.path, a, b, c);
    assert k.path + ['_'] + IndexTail(a, b, c) == k.path + t;
    ReplaceAppend(k.path, t, '/', "__");
    TailHasNoSlash(a, b, c);
    ReplaceAbsent(t, '/', "__");
  }

  lemma TailHasNoSlash(a: string, b: string, c: string)
    requires forall k :: 0 <= k < |a| ==> IsDigit(a[k]) || a[k] == '-'
    requires forall k :: 0 <= k < |b| ==> IsDigit(b[k]) || b[k] == '-'
    requires forall k :: 0 <= k < |c| ==> IsDigit(c[k]) || c[k] == '-'
    ensures '/' !in ['_'] + IndexTail(a, b, c)
    ensures '_' !in a && '_' !in b && '_' !in c
  {
  }

  /** The identifier splits into the escaped path's fields followed by the
      three indices, each behind an empty field. */
  lemma InfoStrFields(k: SampleKey)
    ensures Split(InfoStr(k), '_')
         == Split(Replace(k.path, '/', "__"), '_')
          + ["", IntToString(k.subject), "", IntToString(k.frame), "", IntToString(k.view)]
  {
    var a, b, c := IntToString(k.subject), IntToString(k.frame), IntToString(k.view);
    InfoStrShape(k);
    TailHasNoSlash(a, b, c);
    SplitIndexTail(a, b, c);
    SplitAtSeparator(Replace(k.path, '/', "__"), IndexTail(a, b, c), '_');
  }

  /** Reads the three indices back from the end of an identifier. */
  function DecodeIndices(s: string): Option<(int, int, int)> {
    var f := Split(s, '_');
    var n := |f|;
    if n < 7 then None
    else match (ParseInt(f[n - 5]), ParseInt(f[n - 3]), ParseInt(f[n - 1]))
      case (Some(a), Some(b), Some(c)) => Some((a, b, c))
      case _ => None
  }

  /** The identifier keeps subject, frame and view recoverable, so two samples
      of one sequence path never share an identifier. */
  lemma InfoStrIndicesRoundTrip(k: SampleKey)
    ensures DecodeIndices(InfoStr(k)) == Some((k.subject, k.frame, k.view))
  {
    InfoStrFields(k);
    ParseIntToString(k.subject);
    ParseIntToString(k.frame);
    ParseIntToString(k.view);
  }

  /** The info-string list built in the constructor's own loop (lines 97-101),
      which repeats `_get_info_str` inline. */
  method BuildInfoStrings(infos: seq<SampleKey>) returns (strs: seq<string>)
    ensures |strs| == |infos|
    ensures forall i :: 0 <= i < |infos| ==> strs[i] == InfoStr(infos[i])
  {
    strs := [];
    var i := 0;
    while i < |infos|
      invariant 0 <= i <= |infos|
      invariant |strs| == i
      invariant forall j :: 0 <= j < i ==> strs[j] == InfoStr(infos[j])
    {
      var joined := Join([infos[i].path, IntToString(infos[i].subject), IntToString(infos[i].frame),
                          IntToString(infos[i].view)], "__");
      strs := strs + [Replace(joined, '/', "__")];
      i := i + 1;
    }
  }

  /** The identifiers of a manifest, position by position. */
  function InfoStrings(infos: seq<SampleKey>): (r: seq<string>)
    ensures |r| == |infos|
  {
    seq(|infos|, i requires 0 <= i < |infos| => InfoStr(infos[i]))
  }

  // -----------------------------------------------------------------------
  // _get_handover_info
  // -----------------------------------------------------------------------

  /** The handover map and the positions of the handover entries. */
  datatype Handover = Handover(altOf: map<SampleKey, SampleKey>, positions: seq<nat>)

  /** The partner sample: subject 0 becomes 1, any other subject becomes 0;
      path, frame and view are kept. */
  function Flip(k: SampleKey): (r: SampleKey)
    ensures r.path == k.path && r.frame == k.frame && r.view == k.view
    ensures k.subject == 0 ==> r.subject == 1
    ensures k.subject != 0 ==> r.subject == 0
  {
    k.(subject := if k.subject == 0 then 1 else 0)
  }

  /** The handover entries of a manifest. */
  function HandoverKeys(infos: seq<SampleKey>): set<SampleKey> {
    set i | 0 <= i < |infos| && IsHandoverKey(infos[i]) :: infos[i]
  }

  predicate Ascending(xs: seq<nat>) {
    forall i, j :: 0 <= i < j < |xs| ==> xs[i] < xs[j]
  }

  /** The scan of lines 59-69 over a prefix of the manifest: every entry is
      decoded (a malformed one aborts), and each handover entry is mapped to
      its flipped partner and has its position recorded. */
  function ScanHandover(infos: seq<SampleKey>): (r: Result<Handover>)
    ensures r.Success? <==> forall i :: 0 <= i < |infos| ==> ActionOf(infos[i]).Success?
    decreases |infos|
  {
    if |infos| == 0 then Success(Handover(map[], []))
    else
      var n := |infos| - 1;
      assert forall i :: 0 <= i < n ==> infos[..n][i] == infos[i];
      match ScanHandover(infos[..n])
      case Failure(e) => Failure(e)
      case Success(h) =>
        match ActionOf(infos[n])
        case Failure(e) => Failure(e)
        case Success(action) =>
          if action != ShapeUtils.HandoverCode then Success(h)
          else Success(Handover(h.altOf[infos[n] := Flip(infos[n])], h.positions + [n]))
  }

  lemma HandoverKeysSnoc(infos: seq<SampleKey>)
    requires |infos| > 0
    ensures var n := |infos| - 1;
      HandoverKeys(infos) == HandoverKeys(infos[..n]) + (if IsHandoverKey(infos[n]) then {infos[n]} else {})
  {
    var n := |infos| - 1;
    assert forall i :: 0 <= i < n ==> infos[..n][i] == infos[i];
  }

  /** What a scan of `infos` holds: the keys are exactly the handover
      entries, each mapped to its flipped partner, and the positions are
      exactly the handover entries' positions, ascending. */
  predicate ScanShape(h: Handover, infos: seq<SampleKey>) {
    && h.altOf.Keys == HandoverKeys(infos)
    && (forall k :: k in h.altOf ==> h.altOf[k] == Flip(k))
    && Ascending(h.positions)
    && (forall p :: p in h.positions ==> p < |infos| && IsHandoverKey(infos[p]))
    && (forall i :: 0 <= i < |infos| && IsHandoverKey(infos[i]) ==> i in h.positions)
  }

  /** What a successful scan holds. */
  lemma {:induction false} ScanHandoverShape(infos: seq<SampleKey>)
    requires ScanHandover(infos).Success?
    ensures var h := ScanHandover(infos).value;
      && h.altOf.Keys == HandoverKeys(infos)
      && (forall k :: k in h.altOf ==> h.altOf[k] == Flip(k))
      && Ascending(h.positions)
      && (forall p :: p in h.positions ==> p < |infos| && IsHandoverKey(infos[p]))
      && (forall i :: 0 <= i < |infos| && IsHandoverKey(infos[i]) ==> i in h.positions)
    decreases |infos|
  {
    if |infos| > 0 {
      var n := |infos| - 1;
      ScanHandoverShape(infos[..n]);
      ScanShapeStep(infos, ScanHandover(infos[..n]).value);
    }
  }

  /** One more manifest entry: a handover entry is added to the map and to
      the positions, any other entry leaves the scan as it was. */
  lemma ScanShapeStep(infos: seq<SampleKey>, h: Handover)
    requires |infos| > 0 && ScanShape(h, infos[..|infos| - 1])
    requires ActionOf(infos[|infos| - 1]).Success?
    ensures var n := |infos| - 1;
      ScanShape(if IsHandoverKey(infos[n]) then Handover(h.altOf[infos[n] := Flip(infos[n])], h.positions + [n]) else h,
                infos)
  {
    var n := |infos| - 1;
    var init := infos[..n];
    assert forall i :: 0 <= i < n ==> init[i] == infos[i];
    HandoverKeysSnoc(infos);
    AscendingSnoc(h.positions, n);
  }

  lemma AscendingSnoc(xs: seq<nat>, n: nat)
    requires Ascending(xs)
    requires forall p :: p in xs ==> p < n
    ensures Ascending(xs + [n])
  {
    assert forall i :: 0 <= i < |xs| ==> xs[i] in xs;
  }

  /** `_get_handover_info`: the scan, then the sanity check that every mapped
      partner is itself a key (otherwise an AssertionError). */
  function HandoverInfo(infos: seq<SampleKey>): (r: Result<Handover>)
    ensures r.Success? ==> forall k :: k in r.value.altOf ==> r.value.altOf[k] in r.value.altOf
  {
    var h :- ScanHandover(infos);
    if forall k | k in h.altOf :: h.altOf[k] in h.altOf then Success(h)
    else Failure(AssertionFailed("alt info item missing"))
  }

  /** The handover map is built exactly when every entry decodes and every
      handover entry's flipped partner is also a handover entry of the
      manifest; its keys are then exactly the handover entries. */
  lemma HandoverInfoSucceeds(infos: seq<SampleKey>)
    ensures HandoverInfo(infos).Success? <==>
      (forall i :: 0 <= i < |infos| ==> ActionOf(infos[i]).Success?)
      && (forall k :: k in HandoverKeys(infos) ==> Flip(k) in HandoverKeys(infos))
    ensures HandoverInfo(infos).Success? ==> HandoverInfo(infos).value.altOf.Keys == HandoverKeys(infos)
  {
    if ScanHandover(infos).Success? {
      ScanHandoverShape(infos);
    }
  }

  /** When every handover entry has subject 0 or 1 the map is an involution:
      the partner's partner is the entry itself. */
  lemma HandoverInvolution(infos: seq<SampleKey>, k: SampleKey)
    requires HandoverInfo(infos).Success?
    requires k in HandoverInfo(infos).value.altOf
    requires forall j :: 0 <= j < |infos| && IsHandoverKey(infos[j]) ==> infos[j].subject in {0, 1}
    ensures var m := HandoverInfo(infos).value.altOf; m[m[k]] == k
  {
    ScanHandoverShape(infos);
    assert k in HandoverKeys(infos);
  }

  // -----------------------------------------------------------------------
  // the index and its construction
  // -----------------------------------------------------------------------

  /** The state an OakInkImage holds after construction. */
  datatype ImageIndex = ImageIndex(
    dataDir: string,
    infos: seq<SampleKey>,
    infoStrs: seq<string>,
    status: map<string, string>,
    handover: Option<Handover>)

  /** The split directory chosen by the constructor's if-chain on the mode
      (lines 88-95): an unrecognised mode falls through to "split0_ho". */
  function ModeKey(mode: string): string {
    if mode == "default" then "split0"
    else if mode == "subject" then "split1"
    else if mode == "object" then "split2"
    else "split0_ho"
  }

  /** On the four recognised modes the if-chain agrees with the manifest
      rewrite's table. */
  lemma ModeKeyAgrees(mode: string)
    requires mode in ["default", "subject", "object", "handobject"]
    ensures ExtendSplit.SplitKey(mode) == Success(ModeKey(mode))
  {
    var t := ExtendSplit.ModeSplitKeys;
    assert Dict.DistinctKeys(t);
    var i := if mode == "default" then 0 else if mode == "subject" then 1 else if mode == "object" then 2 else 3;
    assert t[i].0 == mode;
    Dict.ToMapOfItem(t, i);
  }

  /** `_get_info_list`: the manifest file for a data split, as path components. */
  function InfoListFile(dataDir: string, splitKey: string, dataSplit: string): seq<string> {
    if dataSplit == "train+val" then [dataDir, "image", "anno", "split", splitKey, "seq_train.json"]
    else if dataSplit == "train" then [dataDir, "image", "anno", "split_train_val", splitKey, "example_split_train.json"]
    else if dataSplit == "val" then [dataDir, "image", "anno", "split_train_val", splitKey, "example_split_val.json"]
    else [dataDir, "image", "anno", "split", splitKey, "seq_test.json"]
  }

  /** The image index reads exactly the file the manifest rewrite reads, and
      the rewrite's output is that path with `anno` replaced by `anno_mv`. */
  lemma InfoListFileIsRewriteInput(dataDir: string, splitKey: string, dataSplit: string)
    ensures InfoListFile(dataDir, splitKey, dataSplit) == ExtendSplit.InputManifest(dataDir, dataSplit, splitKey)
    ensures ExtendSplit.OutputManifest(dataDir, dataSplit, splitKey)
         == InfoListFile(dataDir, splitKey, dataSplit)[2 := "anno_mv"]
  {
    ExtendSplit.OutputMirrorsInput(dataDir, dataSplit, splitKey);
  }

  /** The manifest the constructor loads: the "all" manifest, or the split file. */
  function ManifestFile(dataDir: string, dataSplit: string, modeSplit: string): seq<string> {
    if dataSplit == "all" then [dataDir, "image", "anno", "seq_all.json"]
    else InfoListFile(dataDir, ModeKey(modeSplit), dataSplit)
  }

  /** The invariants every constructed index keeps. */
  predicate WellFormed(ix: ImageIndex) {
    && |ix.infoStrs| == |ix.infos|
    && (forall i :: 0 <= i < |ix.infos| ==> ix.infoStrs[i] == InfoStr(ix.infos[i]))
    && (ix.handover.Some? ==>
          && ix.handover.value.altOf.Keys == HandoverKeys(ix.infos)
          && (forall k :: k in ix.handover.value.altOf ==>
                ix.handover.value.altOf[k] == Flip(k) && Flip(k) in ix.handover.value.altOf))
  }

  /** `OakInkImage.__init__`: `load` stands for reading a manifest file and
      `status` for the loaded `seq_status.json`.  Handover needs the "all"
      split; with handover the map is built and its checks apply. */
  function NewImage(dataDir: string, dataSplit: string, modeSplit: string, enableHandover: bool,
                    load: seq<string> -> seq<SampleKey>, status: map<string, string>): (r: Result<ImageIndex>)
    ensures r.Success? <==>
      (enableHandover ==> dataSplit == "all" && HandoverInfo(load(ManifestFile(dataDir, dataSplit, modeSplit))).Success?)
    ensures r.Success? ==> WellFormed(r.value)
    ensures r.Success? ==> r.value.infos == load(ManifestFile(dataDir, dataSplit, modeSplit))
    ensures r.Success? ==> (r.value.handover.Some? <==> enableHandover)
    ensures r.Success? ==> r.value.status == status && r.value.dataDir == dataDir
  {
    if enableHandover && dataSplit != "all" then Failure(AssertionFailed("handover need to be enabled in all split"))
    else
      var infos := load(ManifestFile(dataDir, dataSplit, modeSplit));
      if !enableHandover then Success(ImageIndex(dataDir, infos, InfoStrings(infos), status, None))
      else match HandoverInfo(infos)
        case Failure(e) => Failure(e)
        case Success(h) =>
          HandoverWellFormed(infos);
          Success(ImageIndex(dataDir, infos, InfoStrings(infos), status, Some(h)))
  }

  /** A built handover map satisfies the index invariant. */
  lemma HandoverWellFormed(infos: seq<SampleKey>)
    requires HandoverInfo(infos).Success?
    ensures var h := HandoverInfo(infos).value;
      && h.altOf.Keys == HandoverKeys(infos)
      && (forall k :: k in h.altOf ==> h.altOf[k] == Flip(k) && Flip(k) in h.altOf)
  {
    ScanHandoverShape(infos);
  }

  // -----------------------------------------------------------------------
  // accessors
  // -----------------------------------------------------------------------

  /** `get_sample_status`: the status of the sample's sequence path. */
  function GetSampleStatus(ix: ImageIndex, idx: int): (r: Result<string>)
    ensures r.Success? <==> -|ix.infos| <= idx < |ix.infos| && PyIndex(ix.infos, idx).value.path in ix.status
    ensures r.Success? ==> r.value == ix.status[PyIndex(ix.infos, idx).value.path]
  {
    var k :- PyIndex(ix.infos, idx);
    if k.path in ix.status then Success(ix.status[k.path]) else Failure(KeyMissing(k.path))
  }

  /** `get_intent_mode`: the intent name of the sample's action code. */
  function GetIntentMode(ix: ImageIndex, idx: int): (r: Result<string>)
    ensures r.Success? <==>
      -|ix.infos| <= idx < |ix.infos| && ActionOf(PyIndex(ix.infos, idx).value).Success?
      && ActionOf(PyIndex(ix.infos, idx).value).value in {"0001", "0002", "0003", "0004"}
    ensures r.Success? ==>
      var name := r.value;
      name in Dict.ToMap(ShapeUtils.AllIntent)
      && Dict.ToMap(ShapeUtils.AllIntent)[name] == ActionOf(PyIndex(ix.infos, idx).value).value
  {
    var k :- PyIndex(ix.infos, idx);
    var action :- ActionOf(k);
    IntentRevIsInverse("", action);
    if action in IntentRev() then
      IntentRevIsInverse(IntentRev()[action], action);
      Success(IntentRev()[action])
    else Failure(KeyMissing(action))
  }

  /** `get_obj_idx`: the object id of the sample's sequence code, which is
      the text of the path before its first '_'. */
  function GetObjIdx(ix: ImageIndex, idx: int): (r: Result<string>)
    ensures r.Success? <==>
      && -|ix.infos| <= idx < |ix.infos|
      && SeqCatOf(PyIndex(ix.infos, idx).value.path).Success?
      && DecodeSeqCat(SeqCatOf(PyIndex(ix.infos, idx).value.path).value).Success?
    ensures r.Success? ==> '_' !in r.value && StartsWith(PyIndex(ix.infos, idx).value.path, r.value + "_")
  {
    var k :- PyIndex(ix.infos, idx);
    var seqCat :- SeqCatOf(k.path);
    var code :- DecodeSeqCat(seqCat);
    DecodeSeqCatObjectPrefix(seqCat);
    assert StartsWith(k.path, seqCat + "/");
    assert (k.path)[..|code.objId| + 1] == seqCat[..|code.objId| + 1];
    Success(code.objId)
  }

  /** The dict `load_by_info` returns, one field per key; the two hand
      arrays are represented by the annotation files they are read from. */
  datatype Loaded = Loaded(sampleStatus: string, intentMode: string, joints: seq<string>, verts: seq<string>)

  /** The dict `get_hand_over` returns: the sample's own status and intent,
      and under the "alt_" keys every field its partner loads with. */
  datatype HandoverRecord = HandoverRecord(sampleStatus: string, intentMode: string, alt: Loaded)

  /** The hand-annotation file of a sample in one of the two hand folders. */
  function HandFile(ix: ImageIndex, folder: string, k: SampleKey): seq<string> {
    [ix.dataDir, "image", "anno", folder, InfoStr(k) + ".pkl"]
  }

  /** `load_by_info`: status, intent, and the joints and vertices files named
      by the sample identifier; a missing status or an unknown code raises
      KeyError, a malformed path fails to decode. */
  function LoadByInfo(ix: ImageIndex, k: SampleKey): (r: Result<Loaded>)
    ensures r.Success? <==> k.path in ix.status && ActionOf(k).Success? && ActionOf(k).value in IntentRev()
    ensures r.Success? ==>
      && r.value.sampleStatus == ix.status[k.path]
      && r.value.joints == HandFile(ix, "hand_j", k)
      && r.value.verts == HandFile(ix, "hand_v", k)
      && r.value.intentMode in Dict.ToMap(ShapeUtils.AllIntent)
      && Dict.ToMap(ShapeUtils.AllIntent)[r.value.intentMode] == ActionOf(k).value
  {
    if k.path !in ix.status then Failure(KeyMissing(k.path))
    else
      var action :- ActionOf(k);
      if action !in IntentRev() then Failure(KeyMissing(action))
      else
        IntentRevIsInverse(IntentRev()[action], action);
        Success(Loaded(ix.status[k.path], IntentRev()[action], HandFile(ix, "hand_j", k), HandFile(ix, "hand_v", k)))
  }

  /** `get_hand_over`: None when handover is off or the sample is not a
      handover key; an index out of range raises IndexError under handover;
      otherwise the sample's own status and intent plus every field of its
      partner. */
  function GetHandOver(ix: ImageIndex, idx: int): (r: Result<Option<HandoverRecord>>)
    ensures ix.handover.None? ==> r == Success(None)
    ensures (ix.handover.Some? && -|ix.infos| <= idx < |ix.infos|
             && PyIndex(ix.infos, idx).value !in ix.handover.value.altOf) ==> r == Success(None)
    ensures r.Success? && r.value.Some? ==>
      && ix.handover.Some?
      && -|ix.infos| <= idx < |ix.infos|
      && PyIndex(ix.infos, idx).value in ix.handover.value.altOf
      && PyIndex(ix.infos, idx).value.path in ix.status
      && r.value.value.sampleStatus == ix.status[PyIndex(ix.infos, idx).value.path]
      && LoadByInfo(ix, ix.handover.value.altOf[PyIndex(ix.infos, idx).value]).Success?
      && r.value.value.alt == LoadByInfo(ix, ix.handover.value.altOf[PyIndex(ix.infos, idx).value]).value
    ensures ix.handover.Some? && r.Success? ==> -|ix.infos| <= idx < |ix.infos|
    ensures ix.handover.Some? && -|ix.infos| <= idx < |ix.infos| && PyIndex(ix.infos, idx).value in ix.handover.value.altOf ==>
      var k := PyIndex(ix.infos, idx).value;
      && (r.Success? <==>
            && k.path in ix.status
            && ActionOf(k).Success? && ActionOf(k).value in IntentRev()
            && LoadByInfo(ix, ix.handover.value.altOf[k]).Success?)
      && (r.Success? ==> r.value.Some? && r.value.value.intentMode == IntentRev()[ActionOf(k).value])
  {
    if ix.handover.None? then Success(None)
    else
      var k :- PyIndex(ix.infos, idx);
      if k !in ix.handover.value.altOf then Success(None)
      else if k.path !in ix.status then Failure(KeyMissing(k.path))
      else
        var action :- ActionOf(k);
        if action !in IntentRev() then Failure(KeyMissing(action))
        else
          var alt :- LoadByInfo(ix, ix.handover.value.altOf[k]);
          Success(Some(HandoverRecord(ix.status[k.path], IntentRev()[action], alt)))
  }

  /** In a well-formed index the partner of a handover key is its flipped
      sample, which is itself a handover sample. */
  lemma PartnerIsHandover(ix: ImageIndex, k: SampleKey)
    requires WellFormed(ix) && ix.handover.Some? && k in ix.handover.value.altOf
    ensures ix.handover.value.altOf[k] == Flip(k)
    ensures IsHandoverKey(k) && IsHandoverKey(Flip(k))
  {
    assert k in HandoverKeys(ix.infos);
    assert ActionOf(Flip(k)) == ActionOf(k);
  }

  /** On a constructed index a returned handover record is a handover on both
      sides, and its partner fields are those of the flipped sample: its
      status and its own hand files. */
  lemma GetHandOverPartner(ix: ImageIndex, idx: int)
    requires WellFormed(ix)
    requires GetHandOver(ix, idx).Success? && GetHandOver(ix, idx).value.Some?
    ensures var res := GetHandOver(ix, idx).value.value;
      var partner := Flip(PyIndex(ix.infos, idx).value);
      && res.intentMode == "handover"
      && res.alt.intentMode == "handover"
      && res.alt.sampleStatus == ix.status[partner.path]
      && res.alt.joints == HandFile(ix, "hand_j", partner)
      && res.alt.verts == HandFile(ix, "hand_v", partner)
  {
    var k := PyIndex(ix.infos, idx).value;
    PartnerIsHandover(ix, k);
    HandoverIntentName();
  }
}
