/** The per-file step of the grasp-catalog crawl (oikit/oi_shape/oi_shape.py,
    `OakInkShape.__init__`, lines 38-119): configuration validation, the
    exactly-one-match rule, the object-id consistency check, the intent and
    partition filters, and the handover subject split.  The regular
    expressions and the file reads are inputs: each visited file arrives with
    the matches the two path patterns found, and the provenance text is read
    and parsed by functions the caller supplies. */
module Grasp {
  import opened Wrappers
  import opened Text
  import Dict
  import ShapeUtils

  // -----------------------------------------------------------------------
  // configuration
  // -----------------------------------------------------------------------

  /** The validated request: partitions, categories, intent names, and the
      action codes of those intents. */
  datatype Config = Config(splits: seq<string>, categories: seq<string>, intents: seq<string>, intentIdx: seq<string>)

  /** `intent_idx` holds, position by position, the action code of each
      requested intent name. */
  predicate IntentCodes(cfg: Config) {
    && |cfg.intentIdx| == |cfg.intents|
    && forall k :: 0 <= k < |cfg.intents| ==>
         cfg.intents[k] in Dict.ToMap(ShapeUtils.AllIntent)
         && cfg.intentIdx[k] == Dict.ToMap(ShapeUtils.AllIntent)[cfg.intents[k]]
  }

  /** Lines 38-47: normalise each argument to a list, abort unless every
      element is allowed, then translate the intent names to action codes. */
  function ValidateConfig(dataSplit: ShapeUtils.Arg, intentMode: ShapeUtils.Arg, category: ShapeUtils.Arg): (r: Result<Config>)
    ensures r.Success? <==>
      && (forall k :: 0 <= k < |ShapeUtils.ToList(dataSplit)| ==> ShapeUtils.ToList(dataSplit)[k] in ShapeUtils.AllSplit)
      && (forall k :: 0 <= k < |ShapeUtils.ToList(category)| ==> ShapeUtils.ToList(category)[k] in ShapeUtils.AllCat)
      && (forall k :: 0 <= k < |ShapeUtils.ToList(intentMode)| ==>
            ShapeUtils.ToList(intentMode)[k] in Dict.Keys(ShapeUtils.AllIntent))
    ensures r.Success? ==>
      && r.value.splits == ShapeUtils.ToList(dataSplit)
      && r.value.categories == ShapeUtils.ToList(category)
      && r.value.intents == ShapeUtils.ToList(intentMode)
      && IntentCodes(r.value)
  {
    var splits := ShapeUtils.ToList(dataSplit);
    var categories := ShapeUtils.ToList(category);
    var intents := ShapeUtils.ToList(intentMode);
    if !(ShapeUtils.CheckValid(splits, ShapeUtils.AllSplit)
         && ShapeUtils.CheckValid(categories, ShapeUtils.AllCat)
         && ShapeUtils.CheckValid(intents, Dict.Keys(ShapeUtils.AllIntent)))
    then Failure(AssertionFailed("invalid data split, category, or intent!"))
    else
      var table := Dict.ToMap(ShapeUtils.AllIntent);
      assert forall k :: 0 <= k < |intents| ==> intents[k] in table by {
        forall k | 0 <= k < |intents| ensures intents[k] in table {
          var keys := Dict.Keys(ShapeUtils.AllIntent);
          var j :| 0 <= j < |keys| && keys[j] == intents[k];
          assert ShapeUtils.AllIntent[j].0 == intents[k];
        }
      }
      Success(Config(splits, categories, intents, seq(|intents|, k requires 0 <= k < |intents| => table[intents[k]])))
  }

  /** A record passes the intent filter exactly when its action code reads
      back, through the inverted intent table, as one of the requested intents. */
  lemma IntentFilterIsRequestedIntent(cfg: Config, action: string)
    requires IntentCodes(cfg)
    ensures action in cfg.intentIdx <==>
      action in Dict.Invert(ShapeUtils.AllIntent) && Dict.Invert(ShapeUtils.AllIntent)[action] in cfg.intents
  {
    ShapeUtils.IntentTableShape();
    var inv := Dict.Invert(ShapeUtils.AllIntent);
    if action in cfg.intentIdx {
      var k :| 0 <= k < |cfg.intentIdx| && cfg.intentIdx[k] == action;
      Dict.InvertIsInverse(ShapeUtils.AllIntent, cfg.intents[k], action);
    }
    if action in inv && inv[action] in cfg.intents {
      var k :| 0 <= k < |cfg.intents| && cfg.intents[k] == inv[action];
      Dict.InvertIsInverse(ShapeUtils.AllIntent, cfg.intents[k], action);
    }
  }

  /** The constructor's default arguments: every split, every intent, every category. */
  function DefaultConfig(): Result<Config> {
    ValidateConfig(ShapeUtils.Many(ShapeUtils.AllSplit), ShapeUtils.Many(Dict.Keys(ShapeUtils.AllIntent)),
                   ShapeUtils.Many(ShapeUtils.AllCat))
  }

  /** The defaults are accepted and select the four action codes in table order. */
  lemma DefaultConfigValid()
    ensures DefaultConfig().Success?
    ensures DefaultConfig().value.intentIdx == ["0001", "0002", "0003", "0004"]
  {
    var keys := Dict.Keys(ShapeUtils.AllIntent);
    assert forall k :: 0 <= k < |ShapeUtils.AllSplit| ==> ShapeUtils.AllSplit[k] in ShapeUtils.AllSplit;
    assert forall k :: 0 <= k < |ShapeUtils.AllCat| ==> ShapeUtils.AllCat[k] in ShapeUtils.AllCat;
    assert forall k :: 0 <= k < |keys| ==> keys[k] in keys;
    assert DefaultConfig().Success?;
    DefaultCodes(DefaultConfig().value);
  }

  lemma DefaultCodes(cfg: Config)
    requires IntentCodes(cfg) && cfg.intents == Dict.Keys(ShapeUtils.AllIntent)
    ensures cfg.intentIdx == ["0001", "0002", "0003", "0004"]
  {
    ShapeUtils.IntentCodeTable();
    assert cfg.intents[0] == "use" && cfg.intents[1] == "hold";
    assert cfg.intents[2] == "liftup" && cfg.intents[3] == "handover";
  }

  // -----------------------------------------------------------------------
  // partition filter
  // -----------------------------------------------------------------------

  /** The partition an object hash falls in: residues 0-7 train, 8 val, 9 test. */
  function Partition(h: nat): (p: string)
    ensures p in ShapeUtils.AllSplit
  {
    if h % 10 < 8 then "train" else if h % 10 == 8 then "val" else "test"
  }

  /** Lines 85-90: the three-way skip chain on `hash % 10`. */
  predicate KeptBySplit(h: nat, splits: seq<string>) {
    if h % 10 < 8 && "train" !in splits then false
    else if h % 10 == 8 && "val" !in splits then false
    else if h % 10 == 9 && "test" !in splits then false
    else true
  }

  /** The skip chain keeps a record exactly when the partition of its object
      hash is requested; with all three partitions requested it keeps all. */
  lemma KeptBySplitIsPartition(h: nat, splits: seq<string>)
    ensures KeptBySplit(h, splits) <==> Partition(h) in splits
    ensures (forall s :: s in ShapeUtils.AllSplit ==> s in splits) ==> KeptBySplit(h, splits)
  {
  }

  /** The partition decision depends on the object alone: two records of
      one object are both kept or both skipped. */
  lemma PartitionPerObject(g1: GraspItem, g2: GraspItem, cfg: Config, hash: string -> nat)
    requires g1.objId == g2.objId
    ensures KeptBySplit(hash(g1.objId), cfg.splits) <==> KeptBySplit(hash(g2.objId), cfg.splits)
    ensures KeptBySplit(hash(g1.objId), cfg.splits) <==> Partition(hash(g2.objId)) in cfg.splits
  {
    KeptBySplitIsPartition(hash(g1.objId), cfg.splits);
  }

  /** An object hashing to 8 modulo 10 is kept for "val" only. */
  lemma ValidationResidueScenario(h: nat)
    requires h % 10 == 8
    ensures KeptBySplit(h, ["val"])
    ensures !KeptBySplit(h, ["train"]) && !KeptBySplit(h, ["test"])
  {
  }

  // -----------------------------------------------------------------------
  // one visited file
  // -----------------------------------------------------------------------

  /** A match of the virtual-instance pattern: the grasp directory (relative
      to the catalog root), the object group of the path, and the tag. */
  datatype VirtualMatch = VirtualMatch(dir: string, rawOid: string, tag: string)

  /** A match of the real-instance pattern: the grasp directory and the
      object group of the path. */
  datatype RealMatch = RealMatch(dir: string, rawOid: string)

  /** One file the walk visits: its path, and what the two path patterns
      found in it. */
  datatype FileVisit = FileVisit(handFile: seq<string>, virtualMatches: seq<VirtualMatch>, realMatches: seq<RealMatch>)

  /** The groups the provenance pattern recovers:
      `(pass_stage, raw_obj_id, action_id, subject_id, seq_ts)`. */
  datatype Provenance = Provenance(passStage: string, rawObjId: string, actionId: string, subjectId: string, seqTs: string)

  /** The collaborators of the crawl: reading a provenance file, the
      provenance pattern's `findall`, and the md5 of an object id as an
      integer. */
  datatype Sources = Sources(read: seq<string> -> string, parse: string -> seq<Provenance>, hash: string -> nat)

  /** A grasp record.  The hand parameters and the joints and vertices the
      hand model computes from them are represented by the hand-parameter
      file they come from; `alt` is the partner's, once paired. */
  datatype GraspItem = GraspItem(
    seqId: string,
    objId: string,
    hand: seq<string>,
    isVirtual: bool,
    rawObjId: string,
    actionId: string,
    subjectId: string,
    subjectAltId: Option<string>,
    seqTs: string,
    source: string,
    passStage: string,
    alt: Option<seq<string>>)

  /** Lines 92-98: a handover's subject field "a_b" gives subject a and
      alternate b, swapped when the provenance text contains "_alt"; any
      other action has no alternate.  A handover field without '_' raises
      IndexError. */
  function Subjects(p: Provenance, source: string): (r: Result<(string, Option<string>)>)
    ensures p.actionId != ShapeUtils.HandoverCode ==> r == Success((p.subjectId, None))
    ensures r.Success? && p.actionId == ShapeUtils.HandoverCode ==> r.value.1.Some?
  {
    if p.actionId == ShapeUtils.HandoverCode then
      var f := Split(p.subjectId, '_');
      if |f| < 2 then Failure(IndexOutOfRange)
      else if Contains(source, "_alt") then Success((f[1], Some(f[0])))
      else Success((f[0], Some(f[1])))
    else Success((p.subjectId, None))
  }

  /** For a compound field "a_b" the subjects are (a, b), or (b, a) for an
      "_alt" provenance. */
  lemma HandoverSubjectSplit(p: Provenance, source: string, a: string, b: string)
    requires p.actionId == ShapeUtils.HandoverCode
    requires '_' !in a && '_' !in b && p.subjectId == a + "_" + b
    ensures !Contains(source, "_alt") ==> Subjects(p, source) == Success((a, Some(b)))
    ensures Contains(source, "_alt") ==> Subjects(p, source) == Success((b, Some(a)))
  {
    JoinCons(a, [b], "_");
    SplitJoin([a, b], '_');
  }

  /** The object id a match implies (the tag for a virtual instance), and
      the Python consistency assertion of line 79. */
  predicate Consistent(isVirtual: bool, pathOid: string, objId: string, rawObjId: string) {
    (isVirtual && rawObjId == pathOid) || objId == rawObjId
  }

  /** The filters a crawled record has passed. */
  predicate Admitted(g: GraspItem, cfg: Config, hash: string -> nat) {
    && g.actionId in cfg.intentIdx
    && KeptBySplit(hash(g.objId), cfg.splits)
    && (g.actionId == ShapeUtils.HandoverCode <==> g.subjectAltId.Some?)
    && g.alt.None?
  }

  /** Exactly one of the two path patterns matched (the assertion of line 66). */
  predicate SingleMatch(v: FileVisit) {
    |v.virtualMatches| + |v.realMatches| == 1
  }

  /** Line 64: the file is a virtual instance when the virtual pattern matched. */
  function MatchIsVirtual(v: FileVisit): bool {
    |v.virtualMatches| > 0
  }

  /** The grasp directory of the single match. */
  function MatchDir(v: FileVisit): string
    requires SingleMatch(v)
  {
    if MatchIsVirtual(v) then v.virtualMatches[0].dir else v.realMatches[0].dir
  }

  /** The object group of the path in the single match. */
  function MatchPathOid(v: FileVisit): string
    requires SingleMatch(v)
  {
    if MatchIsVirtual(v) then v.virtualMatches[0].rawOid else v.realMatches[0].rawOid
  }

  /** Line 77: the object id, which is the tag for a virtual instance. */
  function MatchObjId(v: FileVisit): string
    requires SingleMatch(v)
  {
    if MatchIsVirtual(v) then v.virtualMatches[0].tag else MatchPathOid(v)
  }

  /** Line 67: the provenance text of the match's grasp directory. */
  function SourceText(v: FileVisit, root: string, src: Sources): string
    requires SingleMatch(v)
  {
    src.read([root, MatchDir(v), "source.txt"])
  }

  /** Lines 63-119 for one visited file: no match means no record; more
      than one aborts; a provenance text the pattern does not match raises
      IndexError; an inconsistent object id aborts; the intent and partition
      filters skip the file without aborting; a handover subject field
      without '_' raises IndexError; otherwise one record, whose provenance fields are those
      of the first provenance match. */
  function ProcessVisit(v: FileVisit, cfg: Config, root: string, src: Sources): (r: Result<Option<GraspItem>>)
    ensures |v.virtualMatches| + |v.realMatches| == 0 ==> r == Success(None)
    ensures |v.virtualMatches| + |v.realMatches| > 1 ==> r.Failure?
    ensures SingleMatch(v) && |src.parse(SourceText(v, root, src))| == 0 ==> r == Failure(IndexOutOfRange)
    ensures SingleMatch(v) && |src.parse(SourceText(v, root, src))| > 0
            && !Consistent(MatchIsVirtual(v), MatchPathOid(v), MatchObjId(v), src.parse(SourceText(v, root, src))[0].rawObjId)
            ==> r.Failure?
    ensures r.Success? && r.value.Some? ==>
      var g := r.value.value;
      && Admitted(g, cfg, src.hash)
      && g.hand == v.handFile
      && (g.isVirtual <==> |v.virtualMatches| == 1)
      && (g.isVirtual ==> g.objId == v.virtualMatches[0].tag
                          && Consistent(true, v.virtualMatches[0].rawOid, g.objId, g.rawObjId))
      && (!g.isVirtual ==> |v.realMatches| == 1 && g.objId == v.realMatches[0].rawOid && g.objId == g.rawObjId)
    ensures r.Success? && r.value.Some? ==>
      && SingleMatch(v)
      && var source := SourceText(v, root, src);
      && |src.parse(source)| > 0
      && var p := src.parse(source)[0];
      && var g := r.value.value;
      && g.rawObjId == p.rawObjId && g.actionId == p.actionId && g.seqTs == p.seqTs
      && g.passStage == p.passStage && g.source == source
      && Subjects(p, source) == Success((g.subjectId, g.subjectAltId))
    ensures SingleMatch(v) && |src.parse(SourceText(v, root, src))| > 0 ==>
      var p := src.parse(SourceText(v, root, src))[0];
      Consistent(MatchIsVirtual(v), MatchPathOid(v), MatchObjId(v), p.rawObjId) ==>
        && (p.actionId !in cfg.intentIdx || !KeptBySplit(src.hash(MatchObjId(v)), cfg.splits) ==> r == Success(None))
        && (p.actionId in cfg.intentIdx && KeptBySplit(src.hash(MatchObjId(v)), cfg.splits) ==>
              (r.Success? <==> Subjects(p, SourceText(v, root, src)).Success?) && (r.Success? ==> r.value.Some?))
  {
    var count := |v.virtualMatches| + |v.realMatches|;
    if count == 0 then Success(None)
    else if count != 1 then Failure(AssertionFailed("regex should return only one match"))
    else
      var isVirtual := MatchIsVirtual(v);
      var pathOid := MatchPathOid(v);
      var source := SourceText(v, root, src);
      var parsed := src.parse(source);
      if |parsed| == 0 then Failure(IndexOutOfRange)
      else
        var p := parsed[0];
        var objId := MatchObjId(v);
        if !Consistent(isVirtual, pathOid, objId, p.rawObjId) then Failure(AssertionFailed("object id mismatch"))
        else if p.actionId !in cfg.intentIdx then Success(None)
        else if !KeptBySplit(src.hash(objId), cfg.splits) then Success(None)
        else
          var subjects :- Subjects(p, source);
          Success(Some(GraspItem(
            Join([p.rawObjId, p.actionId, p.subjectId, p.seqTs], "_"), objId, v.handFile, isVirtual, p.rawObjId,
            p.actionId, subjects.0, subjects.1, p.seqTs, source, p.passStage, None)))
  }

  /** A single-match file whose provenance parses and agrees with the path
      never aborts the crawl: it yields a record exactly when both filters
      let it through, and is skipped otherwise. */
  lemma ProcessVisitFilters(v: FileVisit, cfg: Config, root: string, src: Sources)
    requires SingleMatch(v)
    ensures var source := SourceText(v, root, src);
      var parsed := src.parse(source);
      |parsed| > 0 && Consistent(MatchIsVirtual(v), MatchPathOid(v), MatchObjId(v), parsed[0].rawObjId)
      && Subjects(parsed[0], source).Success? ==>
        && ProcessVisit(v, cfg, root, src).Success?
        && (ProcessVisit(v, cfg, root, src).value.Some?
            <==> parsed[0].actionId in cfg.intentIdx && Partition(src.hash(MatchObjId(v))) in cfg.splits)
  {
    KeptBySplitIsPartition(src.hash(MatchObjId(v)), cfg.splits);
  }

  /** The seq_id of a record is its provenance's object, action, subject
      field and timestamp joined with '_'; for '_'-free object, action and
      timestamp those three read back from it, and the fields between the
      action and the timestamp re-join to the raw subject field, before it
      is split into subject and alternate ("a_b" for a handover). */
  lemma SeqIdFields(g: GraspItem, v: FileVisit, cfg: Config, root: string, src: Sources)
    requires ProcessVisit(v, cfg, root, src) == Success(Some(g))
    requires '_' !in g.rawObjId && '_' !in g.actionId && '_' !in g.seqTs
    ensures var f := Split(g.seqId, '_');
      |f| >= 4 && f[0] == g.rawObjId && f[1] == g.actionId && f[|f| - 1] == g.seqTs
    ensures var f := Split(g.seqId, '_');
      |f| >= 4 && Join(f[2..|f| - 1], "_") == src.parse(SourceText(v, root, src))[0].subjectId
    ensures var f := Split(g.seqId, '_');
      |f| >= 4 && (g.subjectAltId.None? ==> Join(f[2..|f| - 1], "_") == g.subjectId)
  {
    var q := src.parse(SourceText(v, root, src))[0];
    SplitFourFields(q.rawObjId, q.actionId, q.subjectId, q.seqTs);
  }

  /** Four fields joined with '_', of which all but the third are '_'-free,
      split back into the first two, the last, and a middle that re-joins
      to the third. */
  lemma SplitFourFields(a: string, b: string, m: string, t: string)
    requires '_' !in a && '_' !in b && '_' !in t
    ensures var f := Split(Join([a, b, m, t], "_"), '_');
      && |f| >= 4 && f[0] == a && f[1] == b && f[|f| - 1] == t
      && Join(f[2..|f| - 1], "_") == m
  {
    JoinCons(m, [t], "_");
    JoinCons(b, [m, t], "_");
    JoinCons(a, [b, m, t], "_");
    SplitNoSeparator(a, '_');
    SplitNoSeparator(b, '_');
    SplitNoSeparator(t, '_');
    SplitAtSeparator(m, t, '_');
    SplitAtSeparator(b, m + "_" + t, '_');
    SplitAtSeparator(a, b + "_" + (m + "_" + t), '_');
    var f := Split(Join([a, b, m, t], "_"), '_');
    var mid := Split(m, '_');
    assert f == [a] + ([b] + (mid + [t]));
    assert f[2..|f| - 1] == mid;
    JoinSplit(m, '_');
  }
}
