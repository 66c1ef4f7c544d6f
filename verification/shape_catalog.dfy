/** The grasp catalog (oikit/oi_shape/oi_shape.py, class OakInkShape): the
    per-category crawl that records where each category's records start,
    handover resolution, the object warehouse over the surviving object ids,
    and the item accessors.  The walk of a category directory is an input
    function returning the visited files in walk order. */
module ShapeCatalog {
  import opened Wrappers
  import ShapeUtils
  import Dict
  import Grasp
  import GraspPairing

  type GraspItem = Grasp.GraspItem

  /** The directory walk: the files visited under a directory, in the order
      the walk (with sorted sub-directories) visits them. */
  type Walk = seq<string> -> seq<Grasp.FileVisit>

  // -----------------------------------------------------------------------
  // the crawl
  // -----------------------------------------------------------------------

  /** The records one category's walk yields, in visit order. */
  function CrawlFiles(visits: seq<Grasp.FileVisit>, cfg: Grasp.Config, root: string, src: Grasp.Sources)
    : (r: Result<seq<GraspItem>>)
    ensures r.Success? ==> forall g :: g in r.value ==> Grasp.Admitted(g, cfg, src.hash)
    decreases |visits|
  {
    if |visits| == 0 then Success([])
    else
      var n := |visits| - 1;
      var done :- CrawlFiles(visits[..n], cfg, root, src);
      var one :- Grasp.ProcessVisit(visits[n], cfg, root, src);
      Success(if one.Some? then done + [one.value] else done)
  }

  /** The record one visited file contributes, if it yields one. */
  function Yielded(v: Grasp.FileVisit, cfg: Grasp.Config, root: string, src: Grasp.Sources): seq<GraspItem> {
    var one := Grasp.ProcessVisit(v, cfg, root, src);
    if one.Success? && one.value.Some? then [one.value.value] else []
  }

  /** `f` applied to each element, the results joined front to back. */
  function FlatMap<T, U>(xs: seq<T>, f: T -> seq<U>): seq<U>
    decreases |xs|
  {
    if |xs| == 0 then [] else f(xs[0]) + FlatMap(xs[1..], f)
  }

  /** Joining from the front agrees with adding the last element's part to
      the join of the others. */
  lemma {:induction false} FlatMapSnoc<T, U>(xs: seq<T>, f: T -> seq<U>)
    requires |xs| > 0
    ensures FlatMap(xs, f) == FlatMap(xs[..|xs| - 1], f) + f(xs[|xs| - 1])
    decreases |xs|
  {
    var n := |xs| - 1;
    if n == 0 {
      assert xs[..n] == [];
    } else {
      var tail := xs[1..];
      FlatMapSnoc(tail, f);
      assert tail[..n - 1] == xs[..n][1..];
      assert tail[n - 1] == xs[n];
      assert xs[..n][0] == xs[0];
    }
  }

  /** The records the visited files yield, in visit order. */
  function Kept(visits: seq<Grasp.FileVisit>, cfg: Grasp.Config, root: string, src: Grasp.Sources): seq<GraspItem> {
    FlatMap(visits, v => Yielded(v, cfg, root, src))
  }

  /** A category's walk aborts exactly when some visited file aborts. */
  lemma {:induction false} CrawlFilesAborts(visits: seq<Grasp.FileVisit>, cfg: Grasp.Config, root: string,
                                            src: Grasp.Sources)
    ensures CrawlFiles(visits, cfg, root, src).Success?
            <==> forall k :: 0 <= k < |visits| ==> Grasp.ProcessVisit(visits[k], cfg, root, src).Success?
    decreases |visits|
  {
    if |visits| > 0 {
      var n := |visits| - 1;
      var init := visits[..n];
      CrawlFilesAborts(init, cfg, root, src);
      CrawlFilesStep(visits, cfg, root, src);
      if CrawlFiles(visits, cfg, root, src).Success? {
        forall k | 0 <= k < |visits| ensures Grasp.ProcessVisit(visits[k], cfg, root, src).Success? {
          if k < n {
            assert init[k] == visits[k];
          }
        }
      } else if CrawlFiles(init, cfg, root, src).Failure? {
        var k :| 0 <= k < n && !Grasp.ProcessVisit(init[k], cfg, root, src).Success?;
        assert init[k] == visits[k];
      }
    }
  }

  /** A walk that does not abort gives every record the visited files yield,
      in visit order. */
  lemma {:induction false} CrawlFilesKept(visits: seq<Grasp.FileVisit>, cfg: Grasp.Config, root: string,
                                          src: Grasp.Sources)
    ensures CrawlFiles(visits, cfg, root, src).Success? ==> CrawlFiles(visits, cfg, root, src).value == Kept(visits, cfg, root, src)
    decreases |visits|
  {
    if |visits| > 0 && CrawlFiles(visits, cfg, root, src).Success? {
      var n := |visits| - 1;
      CrawlFilesStep(visits, cfg, root, src);
      CrawlFilesKept(visits[..n], cfg, root, src);
      FlatMapSnoc(visits, v => Yielded(v, cfg, root, src));
    }
  }

  /** One more visited file: the walk continues exactly when the earlier
      files and this one succeed, adding this file's yield. */
  lemma CrawlFilesStep(visits: seq<Grasp.FileVisit>, cfg: Grasp.Config, root: string, src: Grasp.Sources)
    requires |visits| > 0
    ensures var n := |visits| - 1;
      var r := CrawlFiles(visits, cfg, root, src);
      var done := CrawlFiles(visits[..n], cfg, root, src);
      && (r.Success? <==> done.Success? && Grasp.ProcessVisit(visits[n], cfg, root, src).Success?)
      && (r.Success? ==> r.value == done.value + Yielded(visits[n], cfg, root, src))
  {
  }

  /** The end of category `c`'s records: the next category's start, or the
      end of the list for the last one. */
  function SegmentEnd(begins: seq<nat>, c: nat, total: nat): nat
    requires c < |begins|
  {
    if c + 1 < |begins| then begins[c + 1] else total
  }

  /** The records one category contributes. */
  function CategoryRecords(cat: string, cfg: Grasp.Config, root: string, walk: Walk, src: Grasp.Sources)
    : Result<seq<GraspItem>>
  {
    CrawlFiles(walk([root, cat]), cfg, root, src)
  }

  /** Start offsets into a list of `total` records: non-decreasing from 0. */
  predicate Offsets(begins: seq<nat>, total: nat) {
    && GraspPairing.NonDecreasing(begins)
    && (|begins| > 0 ==> begins[0] == 0)
    && (forall c :: 0 <= c < |begins| ==> begins[c] <= total)
  }

  /** What the crawl's result satisfies. */
  predicate CrawlShape(gs: seq<GraspItem>, begins: seq<nat>, cats: seq<string>, cfg: Grasp.Config, root: string,
                       walk: Walk, src: Grasp.Sources) {
    && |begins| == |cats|
    && Offsets(begins, |gs|)
    && (forall c :: 0 <= c < |cats| ==>
          CategoryRecords(cats[c], cfg, root, walk, src) == Success(gs[begins[c]..SegmentEnd(begins, c, |gs|)]))
  }

  /** Lines 55-119: for each category, note the current list length as its
      start offset, then append the records its walk yields. */
  function Crawl(cats: seq<string>, cfg: Grasp.Config, root: string, walk: Walk, src: Grasp.Sources)
    : (r: Result<(seq<GraspItem>, seq<nat>)>)
    ensures r.Success? ==> forall g :: g in r.value.0 ==> Grasp.Admitted(g, cfg, src.hash)
    decreases |cats|
  {
    if |cats| == 0 then Success(([], []))
    else
      var n := |cats| - 1;
      var prev :- Crawl(cats[..n], cfg, root, walk, src);
      var more :- CategoryRecords(cats[n], cfg, root, walk, src);
      Success((prev.0 + more, prev.1 + [|prev.0|]))
  }

  /** The start offsets are one per category, non-decreasing from 0, and
      between consecutive offsets lie exactly the records of that category. */
  lemma {:induction false} CrawlSegments(cats: seq<string>, cfg: Grasp.Config, root: string, walk: Walk, src: Grasp.Sources)
    requires Crawl(cats, cfg, root, walk, src).Success?
    ensures var r := Crawl(cats, cfg, root, walk, src).value;
      CrawlShape(r.0, r.1, cats, cfg, root, walk, src)
    decreases |cats|
  {
    if |cats| > 0 {
      var n := |cats| - 1;
      CrawlSegments(cats[..n], cfg, root, walk, src);
      CrawlStep(cats, cfg, root, walk, src);
    }
  }

  /** One step of the crawl keeps the segment shape. */
  lemma CrawlStep(cats: seq<string>, cfg: Grasp.Config, root: string, walk: Walk, src: Grasp.Sources)
    requires |cats| > 0
    requires Crawl(cats, cfg, root, walk, src).Success?
    requires var prev := Crawl(cats[..|cats| - 1], cfg, root, walk, src);
      prev.Success? && CrawlShape(prev.value.0, prev.value.1, cats[..|cats| - 1], cfg, root, walk, src)
    ensures var r := Crawl(cats, cfg, root, walk, src).value;
      CrawlShape(r.0, r.1, cats, cfg, root, walk, src)
  {
    var n := |cats| - 1;
    var init := cats[..n];
    var prev := Crawl(init, cfg, root, walk, src).value;
    var more := CategoryRecords(cats[n], cfg, root, walk, src).value;
    var gs := prev.0 + more;
    var begins := prev.1 + [|prev.0|];
    CrawlUnfold(cats, cfg, root, walk, src);
    if n == 0 {
      assert prev.0 == [];
    }
    OffsetsStep(prev.1, |prev.0|, |more|);
    forall c | 0 <= c < |cats|
      ensures CategoryRecords(cats[c], cfg, root, walk, src) == Success(gs[begins[c]..SegmentEnd(begins, c, |gs|)])
    {
      SegmentOf(cats, prev.0, prev.1, more, c, cfg, root, walk, src);
    }
  }

  lemma SegmentOf(cats: seq<string>, gs: seq<GraspItem>, begins: seq<nat>, more: seq<GraspItem>, c: nat,
                  cfg: Grasp.Config, root: string, walk: Walk, src: Grasp.Sources)
    requires c < |cats| == |begins| + 1
    requires CrawlShape(gs, begins, cats[..|cats| - 1], cfg, root, walk, src)
    requires CategoryRecords(cats[|cats| - 1], cfg, root, walk, src) == Success(more)
    ensures var bs := begins + [|gs|];
      CategoryRecords(cats[c], cfg, root, walk, src) == Success((gs + more)[bs[c]..SegmentEnd(bs, c, |gs + more|)])
  {
    var n := |cats| - 1;
    if c < n {
      assert cats[..n][c] == cats[c];
      assert CategoryRecords(cats[c], cfg, root, walk, src) == Success(gs[begins[c]..SegmentEnd(begins, c, |gs|)]);
      OldSegment(gs, begins, more, c);
    } else {
      var bs := begins + [|gs|];
      assert bs[c] == |gs| && SegmentEnd(bs, c, |gs + more|) == |gs + more|;
      assert (gs + more)[|gs|..|gs + more|] == more;
    }
  }

  /** One unfolding of the crawl. */
  lemma CrawlUnfold(cats: seq<string>, cfg: Grasp.Config, root: string, walk: Walk, src: Grasp.Sources)
    requires |cats| > 0
    requires Crawl(cats, cfg, root, walk, src).Success?
    ensures var prev := Crawl(cats[..|cats| - 1], cfg, root, walk, src);
      var more := CategoryRecords(cats[|cats| - 1], cfg, root, walk, src);
      && prev.Success? && more.Success?
      && Crawl(cats, cfg, root, walk, src).value == (prev.value.0 + more.value, prev.value.1 + [|prev.value.0|])
  {
  }

  lemma OffsetsStep(begins: seq<nat>, total: nat, extra: nat)
    requires Offsets(begins, total)
    requires |begins| == 0 ==> total == 0
    ensures Offsets(begins + [total], total + extra)
  {
  }

  /** Appending records and an offset leaves the earlier segments unchanged. */
  lemma OldSegment(gs: seq<GraspItem>, begins: seq<nat>, more: seq<GraspItem>, c: nat)
    requires c < |begins|
    requires Offsets(begins, |gs|)
    ensures var bs := begins + [|gs|];
      (gs + more)[bs[c]..SegmentEnd(bs, c, |gs + more|)] == gs[begins[c]..SegmentEnd(begins, c, |gs|)]
  {
  }

  // -----------------------------------------------------------------------
  // the warehouse
  // -----------------------------------------------------------------------

  /** The distinct object ids of the records, in order of first appearance. */
  function ObjIds(gs: seq<GraspItem>): (r: seq<string>)
    ensures forall k :: k in r <==> exists g :: g in gs && g.objId == k
    ensures forall a, b :: 0 <= a < b < |r| ==> r[a] != r[b]
    decreases |gs|
  {
    if |gs| == 0 then []
    else
      var n := |gs| - 1;
      var prev := ObjIds(gs[..n]);
      assert forall g :: g in gs <==> g in gs[..n] || g == gs[n];
      if gs[n].objId in prev then prev else prev + [gs[n].objId]
  }

  /** The mesh-file lookup's inputs: metadata tables, data root and listing. */
  datatype MeshSource = MeshSource(dataRoot: string, meta: ShapeUtils.ObjMeta, glob: (seq<string>, string) -> seq<string>)

  /** The mesh file of one object, with the lookup's default arguments
      (downsampled meshes, key "align"). */
  function MeshOf(oid: string, ms: MeshSource): Result<string> {
    ShapeUtils.GetObjPath(oid, ms.dataRoot, ms.meta, true, "align", ms.glob)
  }

  /** Lines 173-186 for the object ids in iteration order: each id's mesh is
      located; the first failing lookup aborts. */
  function Warehouse(ids: seq<string>, ms: MeshSource): (r: Result<map<string, string>>)
    ensures r.Success? <==> forall k :: 0 <= k < |ids| ==> MeshOf(ids[k], ms).Success?
    ensures r.Success? ==> forall oid :: oid in r.value <==> oid in ids
    decreases |ids|
  {
    if |ids| == 0 then Success(map[])
    else
      var n := |ids| - 1;
      match Warehouse(ids[..n], ms)
      case Failure(e) => PrefixIndices(ids); Failure(e)
      case Success(prev) =>
        match MeshOf(ids[n], ms)
        case Failure(e) => Failure(e)
        case Success(mesh) =>
          PrefixIndices(ids); Dict.MembersSnoc(ids);
          Success(prev[ids[n] := mesh])
  }

  /** The front of a non-empty list holds its first elements. */
  lemma PrefixIndices<T>(s: seq<T>)
    requires |s| > 0
    ensures forall k :: 0 <= k < |s| - 1 ==> s[..|s| - 1][k] == s[k]
  {
  }

  /** Each warehouse entry is the mesh file located for its object id. */
  lemma {:induction false} WarehouseValues(ids: seq<string>, ms: MeshSource, oid: string)
    requires Warehouse(ids, ms).Success? && oid in Warehouse(ids, ms).value
    ensures MeshOf(oid, ms).Success? && Warehouse(ids, ms).value[oid] == MeshOf(oid, ms).value
    decreases |ids|
  {
    var n := |ids| - 1;
    if oid != ids[n] {
      WarehouseValues(ids[..n], ms, oid);
    }
  }

  // -----------------------------------------------------------------------
  // the catalog
  // -----------------------------------------------------------------------

  /** What an OakInkShape holds after construction: the records and the
      object id -> mesh file warehouse. */
  datatype Catalog = Catalog(cfg: Grasp.Config, grasps: seq<GraspItem>, warehouse: map<string, string>)

  /** `OakInkShape.__init__` without the hand-model numerics.  Stacking the
      hand parameters of an empty record list (line 130) raises ValueError,
      so a crawl that keeps no record aborts the construction.  Otherwise
      the construction succeeds exactly when the configuration is valid, the
      crawl and the pairing do not abort, and every record's mesh loads. */
  function BuildCatalog(dataSplit: ShapeUtils.Arg, intentMode: ShapeUtils.Arg, category: ShapeUtils.Arg,
                        root: string, walk: Walk, src: Grasp.Sources, ms: MeshSource): (r: Result<Catalog>)
    ensures r.Success? ==> Grasp.ValidateConfig(dataSplit, intentMode, category) == Success(r.value.cfg)
    ensures r.Success? ==>
      && Crawl(r.value.cfg.categories, r.value.cfg, root, walk, src).Success?
      && |Crawl(r.value.cfg.categories, r.value.cfg, root, walk, src).value.0| > 0
    ensures r.Success? <==>
      && Grasp.ValidateConfig(dataSplit, intentMode, category).Success?
      && var cfg := Grasp.ValidateConfig(dataSplit, intentMode, category).value;
         && Crawl(cfg.categories, cfg, root, walk, src).Success?
         && var crawled := Crawl(cfg.categories, cfg, root, walk, src).value;
            && |crawled.0| > 0
            && GraspPairing.Resolve(crawled.0, crawled.1, "handover" in cfg.intents).Success?
            && Warehouse(ObjIds(GraspPairing.Resolve(crawled.0, crawled.1, "handover" in cfg.intents).value), ms).Success?
  {
    var cfg :- Grasp.ValidateConfig(dataSplit, intentMode, category);
    var crawled :- Crawl(cfg.categories, cfg, root, walk, src);
    if |crawled.0| == 0 then Failure(ValueError("need at least one array to stack"))
    else
      var grasps :- GraspPairing.Resolve(crawled.0, crawled.1, "handover" in cfg.intents);
      var warehouse :- Warehouse(ObjIds(grasps), ms);
      Success(Catalog(cfg, grasps, warehouse))
  }

  /** The invariants of a constructed catalog: every record passed both
      filters, every handover record carries its partner's hand, and the
      warehouse keys are exactly the records' object ids. */
  predicate Built(cat: Catalog, src: Grasp.Sources) {
    && (forall g :: g in cat.grasps ==>
          && g.actionId in cat.cfg.intentIdx
          && Grasp.KeptBySplit(src.hash(g.objId), cat.cfg.splits)
          && (g.actionId == ShapeUtils.HandoverCode ==> g.alt.Some?))
    && cat.warehouse.Keys == set g | g in cat.grasps :: g.objId
  }

  /** A handover record can only survive when the handover intent was requested. */
  lemma HandoverCodeNeedsIntent(cfg: Grasp.Config)
    requires Grasp.IntentCodes(cfg)
    requires ShapeUtils.HandoverCode in cfg.intentIdx
    ensures "handover" in cfg.intents
  {
    Grasp.IntentFilterIsRequestedIntent(cfg, ShapeUtils.HandoverCode);
    ShapeUtils.IntentTableShape();
    Dict.InvertIsInverse(ShapeUtils.AllIntent, "handover", ShapeUtils.HandoverCode);
  }

  /** The warehouse built over `ObjIds(gs)` has the records' object ids as keys. */
  lemma WarehouseKeys(gs: seq<GraspItem>, ms: MeshSource)
    requires Warehouse(ObjIds(gs), ms).Success?
    ensures Warehouse(ObjIds(gs), ms).value.Keys == set g | g in gs :: g.objId
  {
    var w := Warehouse(ObjIds(gs), ms).value;
    forall x | x in w.Keys ensures x in (set g | g in gs :: g.objId) {
      var g :| g in gs && g.objId == x;
    }
    forall x | x in (set g | g in gs :: g.objId) ensures x in w.Keys {
      var g :| g in gs && g.objId == x;
      assert x in ObjIds(gs);
    }
  }

  /** Every constructed catalog satisfies the invariants. */
  lemma BuildCatalogIsBuilt(dataSplit: ShapeUtils.Arg, intentMode: ShapeUtils.Arg, category: ShapeUtils.Arg,
                            root: string, walk: Walk, src: Grasp.Sources, ms: MeshSource)
    requires BuildCatalog(dataSplit, intentMode, category, root, walk, src, ms).Success?
    ensures Built(BuildCatalog(dataSplit, intentMode, category, root, walk, src, ms).value, src)
  {
    var cat := BuildCatalog(dataSplit, intentMode, category, root, walk, src, ms).value;
    var cfg := cat.cfg;
    var crawled := Crawl(cfg.categories, cfg, root, walk, src).value;
    var gs := crawled.0;
    assert cat.grasps == GraspPairing.Resolve(gs, crawled.1, "handover" in cfg.intents).value;
    forall g | g in cat.grasps
      ensures g.actionId in cfg.intentIdx && Grasp.KeptBySplit(src.hash(g.objId), cfg.splits)
      ensures g.actionId == ShapeUtils.HandoverCode ==> g.alt.Some?
    {
      ResolvedRecord(gs, crawled.1, cfg, src, g);
    }
    WarehouseKeys(cat.grasps, ms);
  }

  /** A record that survives resolution passed both filters, and carries a
      partner's hand when it is a handover record. */
  lemma ResolvedRecord(gs: seq<GraspItem>, begins: seq<nat>, cfg: Grasp.Config, src: Grasp.Sources, g: GraspItem)
    requires Grasp.IntentCodes(cfg)
    requires forall x :: x in gs ==> Grasp.Admitted(x, cfg, src.hash)
    requires GraspPairing.Resolve(gs, begins, "handover" in cfg.intents).Success?
    requires g in GraspPairing.Resolve(gs, begins, "handover" in cfg.intents).value
    ensures g.actionId in cfg.intentIdx && Grasp.KeptBySplit(src.hash(g.objId), cfg.splits)
    ensures g.actionId == ShapeUtils.HandoverCode ==> g.alt.Some?
  {
    if "handover" in cfg.intents {
      var paired := GraspPairing.Pair(gs, begins).value;
      assert g in paired;
      var i :| 0 <= i < |paired| && paired[i] == g;
      GraspPairing.PairFacts(gs, begins, i);
      assert gs[i] in gs;
    } else if g.actionId == ShapeUtils.HandoverCode {
      HandoverCodeNeedsIntent(cfg);
    }
  }

  /** The catalog holds the crawled records: all non-handover records, in
      crawl order; with the handover intent absent, exactly the crawled
      list; otherwise each record is a crawled one, and a record carrying a
      hand took it from a cross-matching crawled partner. */
  lemma BuildCatalogRecords(dataSplit: ShapeUtils.Arg, intentMode: ShapeUtils.Arg, category: ShapeUtils.Arg,
                            root: string, walk: Walk, src: Grasp.Sources, ms: MeshSource)
    requires BuildCatalog(dataSplit, intentMode, category, root, walk, src, ms).Success?
    ensures var cat := BuildCatalog(dataSplit, intentMode, category, root, walk, src, ms).value;
      var crawled := Crawl(cat.cfg.categories, cat.cfg, root, walk, src).value.0;
      && GraspPairing.NonHandovers(cat.grasps) == GraspPairing.NonHandovers(crawled)
      && ("handover" !in cat.cfg.intents ==> cat.grasps == crawled)
      && (forall g :: g in cat.grasps ==> g.(alt := None) in crawled)
      && (forall g :: g in cat.grasps && g.alt.Some? ==>
            exists x :: x in crawled && GraspPairing.IsPartner(g, x) && GraspPairing.CrossMatch(g, x) && g.alt == Some(x.hand))
  {
    var cat := BuildCatalog(dataSplit, intentMode, category, root, walk, src, ms).value;
    var cfg := cat.cfg;
    var crawled := Crawl(cfg.categories, cfg, root, walk, src).value;
    var gs := crawled.0;
    var h := "handover" in cfg.intents;
    assert cat.grasps == GraspPairing.Resolve(gs, crawled.1, h).value;
    GraspPairing.ResolveKeepsNonHandovers(gs, crawled.1, h);
    forall g | g in cat.grasps
      ensures g.(alt := None) in gs
      ensures g.alt.Some? ==>
        exists x :: x in gs && GraspPairing.IsPartner(g, x) && GraspPairing.CrossMatch(g, x) && g.alt == Some(x.hand)
    {
      GraspPairing.ResolvedOrigin(gs, crawled.1, h, g);
    }
  }

  /** `__len__`. */
  function Length(cat: Catalog): (r: nat)
    ensures forall idx: int :: -(r as int) <= idx < r <==> PyIndex(cat.grasps, idx).Success?
  {
    |cat.grasps|
  }

  /** `get_hand_over`: the partner's hand of record `idx`; a record without
      one fails, as subscripting None does. */
  function GetHandOver(cat: Catalog, idx: int): (r: Result<seq<string>>)
    ensures r.Success? ==> PyIndex(cat.grasps, idx).Success? && PyIndex(cat.grasps, idx).value.alt == Some(r.value)
    ensures PyIndex(cat.grasps, idx).Success? && PyIndex(cat.grasps, idx).value.alt.Some? ==> r.Success?
  {
    var g :- PyIndex(cat.grasps, idx);
    match g.alt
    case None => Failure(NotSubscriptable)
    case Some(h) => Success(h)
  }

  /** A record as `__getitem__` returns it: the record, its object's mesh,
      and for a handover the partner's hand. */
  datatype Item = Item(grasp: GraspItem, objMesh: string, altHand: Option<seq<string>>)

  /** `__getitem__`. */
  function GetItem(cat: Catalog, idx: int): (r: Result<Item>)
    ensures r.Success? ==>
      && PyIndex(cat.grasps, idx).Success?
      && r.value.grasp == PyIndex(cat.grasps, idx).value
      && r.value.grasp.objId in cat.warehouse
      && r.value.objMesh == cat.warehouse[r.value.grasp.objId]
      && (r.value.altHand.Some? <==> r.value.grasp.actionId == ShapeUtils.HandoverCode)
      && (r.value.altHand.Some? ==> r.value.grasp.alt == r.value.altHand)
  {
    var g :- PyIndex(cat.grasps, idx);
    if g.objId !in cat.warehouse then Failure(KeyMissing(g.objId))
    else if g.actionId == ShapeUtils.HandoverCode then
      var alt :- GetHandOver(cat, idx);
      Success(Item(g, cat.warehouse[g.objId], Some(alt)))
    else Success(Item(g, cat.warehouse[g.objId], None))
  }

  /** On a constructed catalog every index in range can be read. */
  lemma GetItemTotal(cat: Catalog, src: Grasp.Sources, idx: int)
    requires Built(cat, src)
    requires -|cat.grasps| <= idx < |cat.grasps|
    ensures GetItem(cat, idx).Success?
  {
    var g := PyIndex(cat.grasps, idx).value;
    assert g in cat.grasps;
    assert g.objId in cat.warehouse;
  }

  /** On a constructed catalog `__getitem__` succeeds exactly for the indices
      that `__len__` admits, counted from either end. */
  lemma LengthIsItemRange(cat: Catalog, src: Grasp.Sources, idx: int)
    requires Built(cat, src)
    ensures GetItem(cat, idx).Success? <==> -(Length(cat) as int) <= idx < Length(cat)
  {
    if -(Length(cat) as int) <= idx < Length(cat) {
      GetItemTotal(cat, src, idx);
    }
  }

  // -----------------------------------------------------------------------
  // a worked pairing
  // -----------------------------------------------------------------------

  function Record(objId: string, hand: string, subject: string, alt: string, source: string): GraspItem {
    Grasp.GraspItem("seq", objId, [hand], false, objId, ShapeUtils.HandoverCode, subject, Some(alt), "ts", source,
                    "pass1", None)
  }

  /** Two handover records with the same timestamp, object and stage, a
      different provenance and swapped subjects pair with each other; a
      third with the same timestamp but another object pairs with neither
      and is dropped. */
  lemma PairingScenario()
    ensures var a := Record("O1", "ha", "1", "2", "srcA");
      var b := Record("O1", "hb", "2", "1", "srcA_alt");
      var c := Record("O2", "hc", "1", "2", "srcC");
      GraspPairing.Resolve([a, b, c], [0], true) == Success([a.(alt := Some(["hb"])), b.(alt := Some(["ha"]))])
  {
    var a := Record("O1", "ha", "1", "2", "srcA");
    var b := Record("O1", "hb", "2", "1", "srcA_alt");
    var c := Record("O2", "hc", "1", "2", "srcC");
    var gs := [a, b, c];
    assert "srcA" != "srcA_alt";
    assert "O1" != "O2";
    assert GraspPairing.CategoryStart([0], 0) == Some(0);
    assert GraspPairing.CategoryStart([0], 1) == Some(0);
    assert GraspPairing.CategoryStart([0], 2) == Some(0);
    assert GraspPairing.FirstMatch(gs, a, 0) == Some(1);
    assert GraspPairing.FirstMatch(gs, b, 0) == Some(0);
    assert GraspPairing.FirstMatch(gs, c, 2) == None;
    assert GraspPairing.FirstMatch(gs, c, 1) == None;
    assert GraspPairing.FirstMatch(gs, c, 0) == None;
    var p := [a.(alt := Some(["hb"])), b.(alt := Some(["ha"])), c];
    assert GraspPairing.PairOne(gs, [0], 0) == Success(p[0]);
    assert GraspPairing.PairOne(gs, [0], 1) == Success(p[1]);
    assert GraspPairing.PairOne(gs, [0], 2) == Success(p[2]);
    var q := GraspPairing.PairPrefix(gs, [0], 3);
    GraspPairing.PairPrefixSpec(gs, [0], 3);
    assert q.Success?;
    assert q.value[0] == p[0] && q.value[1] == p[1] && q.value[2] == p[2];
    assert q.value == p;
    assert GraspPairing.Pair(gs, [0]) == Success(p);
    assert !GraspPairing.Survives(c);
    assert GraspPairing.DropUnpaired([c]) == [];
    assert p[1..] == [p[1], c];
    assert p[1..][1..] == [c];
    assert GraspPairing.DropUnpaired(p[1..]) == [p[1]];
    assert GraspPairing.DropUnpaired(p) == [p[0], p[1]];
  }
}
