/** The affordance knowledge base (oikit/oak_base.py): per object, the part
    list read from the part files' sidecars and the index from attribute to
    parts; over all objects, the index from attribute to objects; and the
    lookups that aggregate every attribute starting with "attach_to" or
    "connect_to".  Directory listings are given as data and sidecar files
    through a lookup function; paths are lists of components. */
module OakBase {
  import opened Wrappers
  import opened Text
  import Dict

  /** Lines 4-34. */
  const Categories: seq<string> := [
    "pincer", "hammer", "power_drill", "can", "screwdriver", "squeeze_tube", "cup", "wrench",
    "game_controller", "camera", "headphones", "mouse", "frying_pan", "bowl", "trigger_sprayer", "mug",
    "binoculars", "lotion_bottle", "flashlight", "eyeglasses", "lightbulb", "marker", "toothbrush", "bottle",
    "cylinder_bottle", "wineglass", "teapot", "scissor", "knife"]

  /** Lines 36-67. */
  const AttributePhrases: seq<string> := [
    "contain_sth", "cover_sth", "pump_out_sth", "cut_sth", "stab_sth", "flow_out_sth", "flow_in_sth",
    "secure_sth", "tighten_sth", "loosen_sth", "control_sth", "clamp_sth", "brush_sth", "trigger_sth",
    "observe_sth", "illuminate_sth", "point_to_sth", "shear_sth", "attach_to_sth", "connect_to_sth",
    "knock_sth", "spray_sth", "draw_sth", "no_function", "held_by_hand", "pulled_by_hand",
    "pressed/unpressed_by_hand", "screwed/unscrewed_by_hand", "plugged/unplugged_by_hand",
    "squeezed/unsqueezed_by_hand"]

  // -----------------------------------------------------------------------
  // one object
  // -----------------------------------------------------------------------

  /** A part's sidecar JSON file: absent, or present with its "name" and
      "attr" entries when they exist. */
  datatype Sidecar = Missing | Present(name: Option<string>, attr: Option<seq<string>>)

  /** What a sidecar says about its part. */
  datatype PartInfo = PartInfo(name: string, attrs: seq<string>)

  /** The assertion of line 84. */
  predicate IsPartFile(pf: string) {
    EndsWith(pf, ".ply") && StartsWith(pf, "part_")
  }

  /** Line 85: the part file name with ".ply" replaced by ".json". */
  function SidecarName(pf: string): (r: string)
    requires IsPartFile(pf)
    ensures |r| == |pf| + 1
  {
    pf[..|pf| - 4] + ".json"
  }

  /** The sidecar name keeps the stem and the "part_" prefix, ends in
      ".json", and distinct part files have distinct sidecars. */
  lemma SidecarNameShape(pf: string, other: string)
    requires IsPartFile(pf) && IsPartFile(other)
    ensures StartsWith(SidecarName(pf), "part_") && EndsWith(SidecarName(pf), ".json")
    ensures SidecarName(pf)[..|pf| - 4] == pf[..|pf| - 4]
    ensures SidecarName(pf) == SidecarName(other) <==> pf == other
  {
    var s := SidecarName(pf);
    assert s[..5] == pf[..5];
    assert s[|s| - 5..] == ".json";
    if s == SidecarName(other) {
      assert |pf| == |other|;
      assert pf[..|pf| - 4] == s[..|pf| - 4] == other[..|other| - 4];
      assert pf == pf[..|pf| - 4] + pf[|pf| - 4..];
      assert other == other[..|other| - 4] + other[|other| - 4..];
    }
  }

  /** Lines 84-90 for one part file. */
  function ReadPart(objDir: seq<string>, pf: string, sidecars: seq<string> -> Sidecar): (r: Result<PartInfo>)
    ensures r.Success? <==>
      && IsPartFile(pf)
      && sidecars(objDir + [SidecarName(pf)]).Present?
      && sidecars(objDir + [SidecarName(pf)]).name.Some?
      && sidecars(objDir + [SidecarName(pf)]).attr.Some?
    ensures r.Success? ==>
      var sc := sidecars(objDir + [SidecarName(pf)]);
      r.value == PartInfo(sc.name.value, sc.attr.value)
  {
    if !IsPartFile(pf) then Failure(AssertionFailed("part file is not valid"))
    else match sidecars(objDir + [SidecarName(pf)])
      case Missing => Failure(AssertionFailed("part info file does not exist"))
      case Present(name, attr) =>
        if name.None? then Failure(KeyMissing("name"))
        else if attr.None? then Failure(KeyMissing("attr"))
        else Success(PartInfo(name.value, attr.value))
  }

  /** The part files read in order; the first bad one aborts. */
  function ReadParts(objDir: seq<string>, partFiles: seq<string>, sidecars: seq<string> -> Sidecar)
    : (r: Result<seq<PartInfo>>)
    ensures r.Success? <==> forall i :: 0 <= i < |partFiles| ==> ReadPart(objDir, partFiles[i], sidecars).Success?
    ensures r.Success? ==>
      && |r.value| == |partFiles|
      && forall i :: 0 <= i < |partFiles| ==> r.value[i] == ReadPart(objDir, partFiles[i], sidecars).value
    decreases |partFiles|
  {
    if |partFiles| == 0 then Success([])
    else
      var n := |partFiles| - 1;
      match ReadParts(objDir, partFiles[..n], sidecars)
      case Failure(e) => Failure(e)
      case Success(init) =>
        match ReadPart(objDir, partFiles[n], sidecars)
        case Failure(e) => Failure(e)
        case Success(p) => Success(init + [p])
  }

  /** The `(attribute, [part name])` items the loop of lines 95-98 appends,
      in order: for every part, one per entry of its attribute list. */
  function AttrItems(parts: seq<PartInfo>): Dict.Table<string, seq<string>>
    decreases |parts|
  {
    if |parts| == 0 then []
    else
      var n := |parts| - 1;
      AttrItems(parts[..n]) + Dict.Tag(parts[n].attrs, parts[n].name)
  }

  /** `ObjectAffordanceKnowledge`. */
  datatype Knowledge = Knowledge(
    category: string,
    objId: string,
    nParts: nat,
    objDir: seq<string>,
    partNames: seq<string>,
    partNameToSegs: Dict.Table<string, seq<string>>,
    partNameToAttrs: Dict.Table<string, seq<string>>,
    partAttrToNames: Dict.Table<string, seq<string>>)

  /** The knowledge built from parts read from the given files. */
  function Index(category: string, objId: string, nParts: nat, objDir: seq<string>, partFiles: seq<string>,
                 parts: seq<PartInfo>): Knowledge
    requires |parts| == |partFiles|
  {
    Knowledge(category, objId, nParts, objDir,
      seq(|parts|, i requires 0 <= i < |parts| => parts[i].name),
      Dict.PutAll(seq(|parts|, i requires 0 <= i < |parts| => (parts[i].name, objDir + [partFiles[i]]))),
      Dict.PutAll(seq(|parts|, i requires 0 <= i < |parts| => (parts[i].name, parts[i].attrs))),
      Dict.Group(AttrItems(parts)))
  }

  /** `ObjectAffordanceKnowledge.__init__` (lines 72-98). */
  function NewKnowledge(category: string, objId: string, nParts: nat, objDir: seq<string>, partFiles: seq<string>,
                        sidecars: seq<string> -> Sidecar): (r: Result<Knowledge>)
    ensures r.Success? <==> forall i :: 0 <= i < |partFiles| ==> ReadPart(objDir, partFiles[i], sidecars).Success?
    ensures r.Success? ==>
      && r.value.category == category && r.value.objId == objId && r.value.nParts == nParts
      && |r.value.partNames| == |partFiles|
      && forall i :: 0 <= i < |partFiles| ==> r.value.partNames[i] == ReadPart(objDir, partFiles[i], sidecars).value.name
  {
    var parts :- ReadParts(objDir, partFiles, sidecars);
    Success(Index(category, objId, nParts, objDir, partFiles, parts))
  }

  /** The attribute and part-name tables are consistent both ways: a part
      name is listed under an attribute exactly when a part of that name
      carries the attribute, and the attribute keys are exactly the
      attributes some part carries, each once. */
  lemma {:induction false} AttrItemsMembers(parts: seq<PartInfo>, a: string, name: string)
    ensures a in Dict.Keys(AttrItems(parts)) <==> exists i :: 0 <= i < |parts| && a in parts[i].attrs
    ensures name in Dict.Gather(AttrItems(parts), a)
        <==> exists i :: 0 <= i < |parts| && parts[i].name == name && a in parts[i].attrs
    decreases |parts|
  {
    if |parts| > 0 {
      var n := |parts| - 1;
      var init := parts[..n];
      AttrItemsMembers(init, a, name);
      var tag := Dict.Tag(parts[n].attrs, parts[n].name);
      assert AttrItems(parts) == AttrItems(init) + tag;
      Dict.KeysConcat(AttrItems(init), tag);
      Dict.KeysTag(parts[n].attrs, parts[n].name);
      Dict.GatherAppend(AttrItems(init), tag, a);
      Dict.GatherMembers(tag, a, name);
      assert name in Dict.Gather(tag, a) <==> parts[n].name == name && a in parts[n].attrs;
      assert forall i :: 0 <= i < n ==> init[i] == parts[i];
    }
  }

  /** A name has an attribute list and a segment file exactly when it is a
      part name, and its attribute list is that of a part of that name. */
  lemma KnowledgePartTables(category: string, objId: string, nParts: nat, objDir: seq<string>,
                            partFiles: seq<string>, parts: seq<PartInfo>, name: string)
    requires |parts| == |partFiles|
    ensures var k := Index(category, objId, nParts, objDir, partFiles, parts);
      && (Dict.Lookup(k.partNameToAttrs, name).Some? <==> name in k.partNames)
      && (Dict.Lookup(k.partNameToSegs, name).Some? <==> name in k.partNames)
      && (Dict.Lookup(k.partNameToAttrs, name).Some? ==>
            exists i :: 0 <= i < |parts| && parts[i].name == name
                        && Dict.Lookup(k.partNameToAttrs, name).value == parts[i].attrs)
  {
    var k := Index(category, objId, nParts, objDir, partFiles, parts);
    var attrItems := seq(|parts|, i requires 0 <= i < |parts| => (parts[i].name, parts[i].attrs));
    var segItems := seq(|parts|, i requires 0 <= i < |parts| => (parts[i].name, objDir + [partFiles[i]]));
    Dict.PutAllItem(attrItems, name);
    Dict.PutAllItem(segItems, name);
    assert k.partNameToAttrs == Dict.PutAll(attrItems) && k.partNameToSegs == Dict.PutAll(segItems);
    if Dict.Lookup(k.partNameToAttrs, name).Some? {
      var v := Dict.Lookup(k.partNameToAttrs, name).value;
      var i :| 0 <= i < |attrItems| && attrItems[i] == (name, v);
      assert parts[i].name == name && v == parts[i].attrs;
    }
    NamedItems(parts, attrItems, k.partNames, name);
    NamedItems(parts, segItems, k.partNames, name);
  }

  /** A table with one item per part, keyed by the part's name, has an item
      for `name` exactly when `name` is one of the part names. */
  lemma NamedItems<V>(parts: seq<PartInfo>, items: Dict.Table<string, V>, names: seq<string>, name: string)
    requires |items| == |parts| && |names| == |parts|
    requires forall i :: 0 <= i < |parts| ==> items[i].0 == parts[i].name && names[i] == parts[i].name
    ensures (exists i :: 0 <= i < |items| && items[i].0 == name) <==> name in names
  {
    if name in names {
      var i :| 0 <= i < |names| && names[i] == name;
      assert items[i].0 == name;
    }
  }

  /** With distinct part names, each part's attribute list is exactly what
      `get_part_attribute_by_name` returns for it. */
  lemma DistinctPartAttributes(category: string, objId: string, nParts: nat, objDir: seq<string>,
                               partFiles: seq<string>, parts: seq<PartInfo>, i: nat)
    requires |parts| == |partFiles| && i < |parts|
    requires forall a, b :: 0 <= a < b < |parts| ==> parts[a].name != parts[b].name
    ensures var k := Index(category, objId, nParts, objDir, partFiles, parts);
      PartAttributeByName(k, parts[i].name) == Success(parts[i].attrs)
  {
    var attrItems := seq(|parts|, j requires 0 <= j < |parts| => (parts[j].name, parts[j].attrs));
    Dict.ToMapOfItem(attrItems, i);
    Dict.PutAllLookup(attrItems, parts[i].name);
  }

  // -----------------------------------------------------------------------
  // lookups by attribute
  // -----------------------------------------------------------------------

  /** The two attribute names that aggregate every key they prefix. */
  predicate IsAggregate(attribute: string) {
    attribute == "attach_to" || attribute == "connect_to"
  }

  /** Selects the keys that start with `prefix`. */
  function Prefixed(prefix: string): string -> bool {
    key => StartsWith(key, prefix)
  }

  /** The lookup shared by `get_part_name_by_attribute` (lines 100-114) and
      `get_objs_by_attribute` (lines 159-173): for the aggregating names,
      the lists of every key with that prefix in key order; otherwise the
      exact key, failing when it is absent. */
  function ByAttribute<T>(t: Dict.Table<string, seq<T>>, attribute: string): (r: Result<seq<T>>)
    ensures IsAggregate(attribute) ==> r == Success(Dict.Collect(t, Prefixed(attribute)))
    ensures !IsAggregate(attribute) ==> (r.Success? <==> attribute in Dict.Keys(t))
    ensures !IsAggregate(attribute) && r.Success? ==> Dict.Lookup(t, attribute) == Some(r.value)
  {
    if IsAggregate(attribute) then Success(Dict.Collect(t, Prefixed(attribute)))
    else match Dict.Lookup(t, attribute)
      case None => Failure(KeyMissing(attribute))
      case Some(v) => Success(v)
  }

  /** Looking up an index built by appending agrees with the items appended:
      an exact name gives the concatenation of its items' lists, an
      aggregating name gives, up to order within keys, every value appended
      under a key it prefixes. */
  lemma ByAttributeOfGroup<T>(items: Dict.Table<string, seq<T>>, attribute: string)
    ensures !IsAggregate(attribute) ==>
      ByAttribute(Dict.Group(items), attribute)
        == if attribute in Dict.Keys(items) then Success(Dict.Gather(items, attribute)) else Failure(KeyMissing(attribute))
    ensures IsAggregate(attribute) ==>
      ByAttribute(Dict.Group(items), attribute).Success?
      && multiset(ByAttribute(Dict.Group(items), attribute).value)
         == multiset(Dict.Collect(items, Prefixed(attribute)))
  {
    Dict.GroupLookup(items, attribute);
    Dict.CollectGroup(items, Prefixed(attribute));
  }

  /** `get_part_name_by_attribute`. */
  function PartNamesByAttribute(k: Knowledge, attribute: string): Result<seq<string>>
  {
    ByAttribute(k.partAttrToNames, attribute)
  }

  /** `get_part_attribute_by_name` (lines 116-117). */
  function PartAttributeByName(k: Knowledge, name: string): (r: Result<seq<string>>)
    ensures r.Success? <==> name in Dict.Keys(k.partNameToAttrs)
  {
    match Dict.Lookup(k.partNameToAttrs, name)
    case None => Failure(KeyMissing(name))
    case Some(v) => Success(v)
  }

  /** On a constructed object, an exact attribute lookup succeeds exactly
      when some part carries the attribute, and lists exactly the names of
      the parts that carry it. */
  lemma PartNamesByAttributeExact(parts: seq<PartInfo>, k: Knowledge, attribute: string, name: string)
    requires k.partAttrToNames == Dict.Group(AttrItems(parts))
    requires !IsAggregate(attribute)
    ensures PartNamesByAttribute(k, attribute).Success? <==> exists i :: 0 <= i < |parts| && attribute in parts[i].attrs
    ensures PartNamesByAttribute(k, attribute).Success? ==>
      (name in PartNamesByAttribute(k, attribute).value
       <==> exists i :: 0 <= i < |parts| && parts[i].name == name && attribute in parts[i].attrs)
  {
    ByAttributeOfGroup(AttrItems(parts), attribute);
    AttrItemsMembers(parts, attribute, name);
  }

  /** On a constructed object, an aggregating lookup lists exactly the names
      of the parts carrying an attribute with that prefix. */
  lemma PartNamesByAttributeAggregate(parts: seq<PartInfo>, k: Knowledge, attribute: string, name: string)
    requires k.partAttrToNames == Dict.Group(AttrItems(parts))
    requires IsAggregate(attribute)
    ensures PartNamesByAttribute(k, attribute).Success?
    ensures name in PartNamesByAttribute(k, attribute).value
        <==> exists i :: 0 <= i < |parts| && parts[i].name == name && HasPrefixed(parts[i].attrs, attribute)
  {
    var items := AttrItems(parts);
    ByAttributeOfGroup(items, attribute);
    SameMembers(PartNamesByAttribute(k, attribute).value, Dict.Collect(items, Prefixed(attribute)), name);
    AggregateMembers(parts, attribute, name);
  }

  /** Sequences that are permutations of each other have the same members. */
  lemma SameMembers<T>(a: seq<T>, b: seq<T>, x: T)
    requires multiset(a) == multiset(b)
    ensures x in a <==> x in b
  {
    assert x in a <==> multiset(a)[x] > 0;
    assert x in b <==> multiset(b)[x] > 0;
  }

  /** Collected part names come from parts carrying a selected attribute,
      and every such part contributes. */
  lemma {:induction false} AggregateMembers(parts: seq<PartInfo>, prefix: string, name: string)
    ensures name in Dict.Collect(AttrItems(parts), Prefixed(prefix))
        <==> exists i :: 0 <= i < |parts| && parts[i].name == name && HasPrefixed(parts[i].attrs, prefix)
    decreases |parts|
  {
    if |parts| > 0 {
      var n := |parts| - 1;
      var init := parts[..n];
      AggregateMembers(init, prefix, name);
      var tag := Dict.Tag(parts[n].attrs, parts[n].name);
      assert AttrItems(parts) == AttrItems(init) + tag;
      Dict.CollectAppend(AttrItems(init), tag, Prefixed(prefix));
      Dict.CollectTag(parts[n].attrs, parts[n].name, Prefixed(prefix), name);
      KeepPrefixed(parts[n].attrs, prefix);
      assert forall i :: 0 <= i < n ==> init[i] == parts[i];
    }
  }

  /** Some attribute of the list starts with `prefix`. */
  predicate HasPrefixed(attrs: seq<string>, prefix: string) {
    exists a :: a in attrs && StartsWith(a, prefix)
  }

  lemma KeepPrefixed(attrs: seq<string>, prefix: string)
    ensures (exists a :: a in attrs && Prefixed(prefix)(a)) <==> HasPrefixed(attrs, prefix)
  {
    if exists a :: a in attrs && Prefixed(prefix)(a) {
      var a :| a in attrs && Prefixed(prefix)(a);
      assert StartsWith(a, prefix);
    }
    if HasPrefixed(attrs, prefix) {
      var a :| a in attrs && StartsWith(a, prefix);
      assert Prefixed(prefix)(a);
    }
  }

  // -----------------------------------------------------------------------
  // the whole base
  // -----------------------------------------------------------------------

  /** One entry of a category directory's listing. */
  datatype ObjectEntry = ObjectEntry(name: string, isDir: bool, files: seq<string>)

  /** One entry of the base directory's listing. */
  datatype CategoryEntry = CategoryEntry(name: string, isDir: bool, objects: seq<ObjectEntry>)

  /** `OakBase`: category -> objects, attribute -> objects. */
  datatype Base = Base(
    dataDir: seq<string>,
    categories: Dict.Table<string, seq<Knowledge>>,
    attributes: Dict.Table<string, seq<Knowledge>>)

  /** Line 142: the files of an object directory that end in ".ply". */
  function PlyFiles(files: seq<string>): (r: seq<string>)
    ensures forall f :: f in r <==> f in files && EndsWith(f, ".ply")
    decreases |files|
  {
    if |files| == 0 then []
    else
      var n := |files| - 1;
      assert forall f :: f in files <==> f in files[..n] || f == files[n];
      PlyFiles(files[..n]) + (if EndsWith(files[n], ".ply") then [files[n]] else [])
  }

  /** A listing entry the constructor skips, or an object directory all of
      whose part files read. */
  predicate Readable(cateDir: seq<string>, o: ObjectEntry, sidecars: seq<string> -> Sidecar) {
    o.isDir ==> forall j :: 0 <= j < |PlyFiles(o.files)| ==>
      ReadPart(cateDir + [o.name], PlyFiles(o.files)[j], sidecars).Success?
  }

  /** The object directories of a category listing, in listing order (the
      entries line 139 does not skip). */
  function ObjectDirs(objs: seq<ObjectEntry>): (r: seq<ObjectEntry>)
    ensures forall o :: o in r <==> o in objs && o.isDir
    decreases |objs|
  {
    if |objs| == 0 then []
    else
      var n := |objs| - 1;
      assert forall o :: o in objs <==> o in objs[..n] || o == objs[n];
      ObjectDirs(objs[..n]) + (if objs[n].isDir then [objs[n]] else [])
  }

  /** Lines 142-147: the knowledge built from one object directory, over
      its ".ply" files. */
  function ObjectOf(cateDir: seq<string>, cate: string, o: ObjectEntry, sidecars: seq<string> -> Sidecar)
    : (r: Result<Knowledge>)
    ensures r.Success? ==> r.value.category == cate && r.value.objId == o.name
  {
    var parts := PlyFiles(o.files);
    NewKnowledge(cate, o.name, |parts|, cateDir + [o.name], parts, sidecars)
  }

  /** Lines 137-148 for one category: one knowledge per object directory,
      in listing order. */
  function BuildObjects(cateDir: seq<string>, cate: string, objs: seq<ObjectEntry>, sidecars: seq<string> -> Sidecar)
    : (r: Result<seq<Knowledge>>)
    ensures r.Success? ==> forall o :: o in r.value ==> o.category == cate
    ensures r.Success? <==> forall i :: 0 <= i < |objs| ==> Readable(cateDir, objs[i], sidecars)
    ensures r.Success? ==> |r.value| <= |objs|
    decreases |objs|
  {
    if |objs| == 0 then Success([])
    else
      var n := |objs| - 1;
      assert forall i :: 0 <= i < n ==> objs[..n][i] == objs[i];
      var init :- BuildObjects(cateDir, cate, objs[..n], sidecars);
      var o := objs[n];
      if !o.isDir then Success(init)
      else
        var oak :- ObjectOf(cateDir, cate, o, sidecars);
        Success(init + [oak])
  }

  /** The category directories of the data directory's listing, in listing
      order (the entries line 131 does not skip). */
  function CategoryDirs(cats: seq<CategoryEntry>): (r: seq<CategoryEntry>)
    ensures forall c :: c in r <==> c in cats && c.isDir
    decreases |cats|
  {
    if |cats| == 0 then []
    else
      var n := |cats| - 1;
      assert forall c :: c in cats <==> c in cats[..n] || c == cats[n];
      CategoryDirs(cats[..n]) + (if cats[n].isDir then [cats[n]] else [])
  }

  /** A listing entry the constructor skips, or a category directory all of
      whose object directories read. */
  predicate CategoryReadable(dataDir: seq<string>, c: CategoryEntry, sidecars: seq<string> -> Sidecar) {
    c.isDir ==> forall j :: 0 <= j < |c.objects| ==> Readable(dataDir + [c.name], c.objects[j], sidecars)
  }

  /** Lines 129-148: every category directory, in listing order, with the
      objects built from it. */
  function BuildCategories(dataDir: seq<string>, cats: seq<CategoryEntry>, sidecars: seq<string> -> Sidecar)
    : (r: Result<Dict.Table<string, seq<Knowledge>>>)
    ensures r.Success? ==> forall i :: 0 <= i < |r.value| ==> forall o :: o in r.value[i].1 ==> o.category == r.value[i].0
    ensures r.Success? ==> forall c :: c in Dict.Keys(r.value) <==> exists i :: 0 <= i < |cats| && cats[i].isDir && cats[i].name == c
    ensures r.Success? <==> forall i :: 0 <= i < |cats| ==> CategoryReadable(dataDir, cats[i], sidecars)
    decreases |cats|
  {
    if |cats| == 0 then Success([])
    else
      var n := |cats| - 1;
      var init :- BuildCategories(dataDir, cats[..n], sidecars);
      var c := cats[n];
      assert forall i :: 0 <= i < n ==> cats[..n][i] == cats[i];
      if !c.isDir then Success(init)
      else
        var oaks :- BuildObjects(dataDir + [c.name], c.name, c.objects, sidecars);
        Dict.KeysAppend(init, c.name, oaks);
        Success(init + [(c.name, oaks)])
  }

  /** Building a category's objects is building one object per object
      directory in listing order, with the first failure aborting. */
  lemma {:induction false} BuildObjectsIsMap(cateDir: seq<string>, cate: string, objs: seq<ObjectEntry>,
                                             sidecars: seq<string> -> Sidecar)
    ensures BuildObjects(cateDir, cate, objs, sidecars)
         == MapResult(ObjectDirs(objs), o => ObjectOf(cateDir, cate, o, sidecars))
    decreases |objs|
  {
    if |objs| > 0 {
      var n := |objs| - 1;
      var f := o => ObjectOf(cateDir, cate, o, sidecars);
      var ds0 := ObjectDirs(objs[..n]);
      BuildObjectsIsMap(cateDir, cate, objs[..n], sidecars);
      assert BuildObjects(cateDir, cate, objs[..n], sidecars) == MapResult(ds0, f);
      if objs[n].isDir {
        var ds := ObjectDirs(objs);
        assert ds == ds0 + [objs[n]];
        assert ds[..|ds| - 1] == ds0 && ds[|ds| - 1] == objs[n];
        MapResultSnoc(ds, f);
        assert f(objs[n]) == ObjectOf(cateDir, cate, objs[n], sidecars);
      } else {
        assert ObjectDirs(objs) == ds0;
      }
    }
  }

  /** A category's objects are those built from its object directories,
      one each, in listing order, each under its directory's name. */
  lemma BuildObjectsListing(cateDir: seq<string>, cate: string, objs: seq<ObjectEntry>,
                            sidecars: seq<string> -> Sidecar)
    requires BuildObjects(cateDir, cate, objs, sidecars).Success?
    ensures var r := BuildObjects(cateDir, cate, objs, sidecars).value;
      && |r| == |ObjectDirs(objs)|
      && forall k :: 0 <= k < |r| ==>
           ObjectOf(cateDir, cate, ObjectDirs(objs)[k], sidecars) == Success(r[k]) && r[k].objId == ObjectDirs(objs)[k].name
  {
    BuildObjectsIsMap(cateDir, cate, objs, sidecars);
    MapResultElements(ObjectDirs(objs), o => ObjectOf(cateDir, cate, o, sidecars));
  }

  /** The category table holds one entry per category directory, in listing
      order, under the directory's name, with the objects built from it. */
  lemma {:induction false} BuildCategoriesListing(dataDir: seq<string>, cats: seq<CategoryEntry>,
                                                  sidecars: seq<string> -> Sidecar)
    requires BuildCategories(dataDir, cats, sidecars).Success?
    ensures var r := BuildCategories(dataDir, cats, sidecars).value;
      && |r| == |CategoryDirs(cats)|
      && forall k :: 0 <= k < |r| ==>
           && r[k].0 == CategoryDirs(cats)[k].name
           && BuildObjects(dataDir + [r[k].0], r[k].0, CategoryDirs(cats)[k].objects, sidecars) == Success(r[k].1)
    decreases |cats|
  {
    if |cats| > 0 {
      var n := |cats| - 1;
      BuildCategoriesListing(dataDir, cats[..n], sidecars);
      var init := BuildCategories(dataDir, cats[..n], sidecars).value;
      var c := cats[n];
      if c.isDir {
        var oaks := BuildObjects(dataDir + [c.name], c.name, c.objects, sidecars).value;
        var r := BuildCategories(dataDir, cats, sidecars).value;
        var ds := CategoryDirs(cats);
        assert r == init + [(c.name, oaks)];
        assert ds == CategoryDirs(cats[..n]) + [c];
        forall k | 0 <= k < |r|
          ensures r[k].0 == ds[k].name
          ensures BuildObjects(dataDir + [r[k].0], r[k].0, ds[k].objects, sidecars) == Success(r[k].1)
        {
          if k < |init| {
            assert r[k] == init[k] && ds[k] == CategoryDirs(cats[..n])[k];
          }
        }
      }
    }
  }

  /** All objects in the order the constructor visits them. */
  function AllObjects(built: Dict.Table<string, seq<Knowledge>>): seq<Knowledge>
    decreases |built|
  {
    if |built| == 0 then []
    else
      var n := |built| - 1;
      AllObjects(built[..n]) + built[n].1
  }

  /** The `(attribute, [object])` items the loop of lines 150-154 appends:
      one per distinct attribute of each object, in visiting order. */
  function ObjAttrItems(oaks: seq<Knowledge>): Dict.Table<string, seq<Knowledge>>
    decreases |oaks|
  {
    if |oaks| == 0 then []
    else
      var n := |oaks| - 1;
      ObjAttrItems(oaks[..n]) + Dict.Tag(Dict.Keys(oaks[n].partAttrToNames), oaks[n])
  }

  /** `OakBase.__init__`, with `OAKINK_DIR` as a parameter: it fails exactly
      when some part of some object directory does not read, and then has a
      category key for each category directory name. */
  function NewBase(oakinkDir: string, cats: seq<CategoryEntry>, sidecars: seq<string> -> Sidecar): (r: Result<Base>)
    ensures r.Success? <==> forall i :: 0 <= i < |cats| ==> CategoryReadable([oakinkDir, "OakBase"], cats[i], sidecars)
    ensures r.Success? ==> r.value.dataDir == [oakinkDir, "OakBase"]
    ensures r.Success? ==> forall c :: c in Dict.Keys(r.value.categories) <==> exists i :: 0 <= i < |cats| && cats[i].isDir && cats[i].name == c
  {
    var dataDir := [oakinkDir, "OakBase"];
    var built :- BuildCategories(dataDir, cats, sidecars);
    Dict.GroupKeys(built);
    Success(Base(dataDir, Dict.Group(built), Dict.Group(ObjAttrItems(AllObjects(built)))))
  }

  /** `get_objs_by_category` (lines 156-157). */
  function ObjsByCategory(b: Base, category: string): (r: Result<seq<Knowledge>>)
    ensures r.Success? <==> category in Dict.Keys(b.categories)
  {
    match Dict.Lookup(b.categories, category)
    case None => Failure(KeyMissing(category))
    case Some(v) => Success(v)
  }

  /** `get_objs_by_attribute`. */
  function ObjsByAttribute(b: Base, attribute: string): Result<seq<Knowledge>>
  {
    ByAttribute(b.attributes, attribute)
  }

  /** An object "has" an attribute when its attribute index lists it. */
  predicate HasAttribute(o: Knowledge, attribute: string) {
    attribute in Dict.Keys(o.partAttrToNames)
  }

  /** The objects having an attribute, in order, each once. */
  function Having(oaks: seq<Knowledge>, attribute: string): (r: seq<Knowledge>)
    ensures forall o :: o in r <==> o in oaks && HasAttribute(o, attribute)
    decreases |oaks|
  {
    if |oaks| == 0 then []
    else
      var n := |oaks| - 1;
      assert forall o :: o in oaks <==> o in oaks[..n] || o == oaks[n];
      Having(oaks[..n], attribute) + (if HasAttribute(oaks[n], attribute) then [oaks[n]] else [])
  }

  /** Objects whose attribute keys are distinct, as every constructed one's are. */
  predicate DistinctAttributes(oaks: seq<Knowledge>) {
    forall o :: o in oaks ==> Dict.DistinctKeys(o.partAttrToNames)
  }

  /** Each object is listed under an attribute once for each attribute it
      has: the list under `a` is exactly the objects having `a`, in order. */
  lemma {:induction false} ObjAttrItemsGather(oaks: seq<Knowledge>, a: string)
    requires DistinctAttributes(oaks)
    ensures Dict.Gather(ObjAttrItems(oaks), a) == Having(oaks, a)
    ensures a in Dict.Keys(ObjAttrItems(oaks)) <==> exists o :: o in oaks && HasAttribute(o, a)
    decreases |oaks|
  {
    if |oaks| > 0 {
      var n := |oaks| - 1;
      DistinctAttributesPrefix(oaks, n);
      ObjAttrItemsGather(oaks[..n], a);
      ObjAttrItemsStep(oaks, a);
    }
  }

  lemma DistinctAttributesPrefix(oaks: seq<Knowledge>, n: nat)
    requires DistinctAttributes(oaks) && n <= |oaks|
    ensures DistinctAttributes(oaks[..n])
  {
    forall o | o in oaks[..n] ensures Dict.DistinctKeys(o.partAttrToNames) {
      assert o in oaks;
    }
  }

  lemma ObjAttrItemsStep(oaks: seq<Knowledge>, a: string)
    requires |oaks| > 0 && DistinctAttributes(oaks)
    requires var init := oaks[..|oaks| - 1];
      && Dict.Gather(ObjAttrItems(init), a) == Having(init, a)
      && (a in Dict.Keys(ObjAttrItems(init)) <==> exists o :: o in init && HasAttribute(o, a))
    ensures Dict.Gather(ObjAttrItems(oaks), a) == Having(oaks, a)
    ensures a in Dict.Keys(ObjAttrItems(oaks)) <==> exists o :: o in oaks && HasAttribute(o, a)
  {
    var n := |oaks| - 1;
    var init := oaks[..n];
    var last := oaks[n];
    var ks := Dict.Keys(last.partAttrToNames);
    var tag := Dict.Tag(ks, last);
    var head := ObjAttrItems(init);
    assert ObjAttrItems(oaks) == head + tag;
    assert Having(oaks, a) == Having(init, a) + (if HasAttribute(last, a) then [last] else []);
    assert last in oaks;
    Dict.GatherAppend(head, tag, a);
    Dict.GatherTag(ks, last, a);
    Dict.KeysConcat(head, tag);
    Dict.KeysTag(ks, last);
    Dict.MembersSnoc(oaks);
  }

  /** The objects of a constructed base keep the distinct attribute keys of
      their construction. */
  lemma {:induction false} BuiltAttributesDistinct(dataDir: seq<string>, cats: seq<CategoryEntry>,
                                                   sidecars: seq<string> -> Sidecar)
    requires BuildCategories(dataDir, cats, sidecars).Success?
    ensures DistinctAttributes(AllObjects(BuildCategories(dataDir, cats, sidecars).value))
    decreases |cats|
  {
    if |cats| > 0 {
      var n := |cats| - 1;
      BuiltAttributesDistinct(dataDir, cats[..n], sidecars);
      var c := cats[n];
      if c.isDir {
        ObjectsAttributesDistinct(dataDir + [c.name], c.name, c.objects, sidecars);
        var init := BuildCategories(dataDir, cats[..n], sidecars).value;
        var oaks := BuildObjects(dataDir + [c.name], c.name, c.objects, sidecars).value;
        assert BuildCategories(dataDir, cats, sidecars).value == init + [(c.name, oaks)];
        assert (init + [(c.name, oaks)])[..|init|] == init;
        assert AllObjects(init + [(c.name, oaks)]) == AllObjects(init) + oaks;
      }
    }
  }

  lemma {:induction false} ObjectsAttributesDistinct(cateDir: seq<string>, cate: string, objs: seq<ObjectEntry>,
                                                     sidecars: seq<string> -> Sidecar)
    requires BuildObjects(cateDir, cate, objs, sidecars).Success?
    ensures DistinctAttributes(BuildObjects(cateDir, cate, objs, sidecars).value)
    decreases |objs|
  {
    if |objs| > 0 {
      var n := |objs| - 1;
      ObjectsAttributesDistinct(cateDir, cate, objs[..n], sidecars);
      var o := objs[n];
      if o.isDir {
        var parts := PlyFiles(o.files);
        var read := ReadParts(cateDir + [o.name], parts, sidecars).value;
        Dict.GroupKeys(AttrItems(read));
      }
    }
  }

  /** On a constructed base, an exact attribute lookup succeeds exactly when
      some object has the attribute and returns the objects having it, in
      visiting order, each once; an aggregating lookup returns, up to order,
      one entry per object and attribute it has with that prefix. */
  lemma ObjsByAttributeCorrect(oakinkDir: string, cats: seq<CategoryEntry>, sidecars: seq<string> -> Sidecar,
                               attribute: string)
    requires NewBase(oakinkDir, cats, sidecars).Success?
    ensures var b := NewBase(oakinkDir, cats, sidecars).value;
      var oaks := AllObjects(BuildCategories([oakinkDir, "OakBase"], cats, sidecars).value);
      && (!IsAggregate(attribute) ==>
            ObjsByAttribute(b, attribute)
              == if exists o :: o in oaks && HasAttribute(o, attribute) then Success(Having(oaks, attribute))
                 else Failure(KeyMissing(attribute)))
      && (IsAggregate(attribute) ==>
            ObjsByAttribute(b, attribute).Success?
            && multiset(ObjsByAttribute(b, attribute).value)
               == multiset(Dict.Collect(ObjAttrItems(oaks), Prefixed(attribute))))
  {
    var built := BuildCategories([oakinkDir, "OakBase"], cats, sidecars).value;
    var oaks := AllObjects(built);
    BuiltAttributesDistinct([oakinkDir, "OakBase"], cats, sidecars);
    ByAttributeOfGroup(ObjAttrItems(oaks), attribute);
    if !IsAggregate(attribute) {
      ObjAttrItemsGather(oaks, attribute);
    }
  }

  /** On a constructed base, a category lookup succeeds exactly for the
      listed category directories, and every object it returns belongs to
      that category. */
  lemma ObjsByCategoryCorrect(oakinkDir: string, cats: seq<CategoryEntry>, sidecars: seq<string> -> Sidecar,
                              category: string)
    requires NewBase(oakinkDir, cats, sidecars).Success?
    ensures var r := ObjsByCategory(NewBase(oakinkDir, cats, sidecars).value, category);
      && (r.Success? <==> exists i :: 0 <= i < |cats| && cats[i].isDir && cats[i].name == category)
      && (r.Success? ==> forall o :: o in r.value ==> o.category == category)
      && (r.Success? ==> r.value == Dict.Gather(BuildCategories([oakinkDir, "OakBase"], cats, sidecars).value, category))
  {
    var built := BuildCategories([oakinkDir, "OakBase"], cats, sidecars).value;
    Dict.GroupKeys(built);
    Dict.GroupLookup(built, category);
    var r := ObjsByCategory(NewBase(oakinkDir, cats, sidecars).value, category);
    if r.Success? {
      forall o | o in r.value ensures o.category == category {
        Dict.GatherMembers(built, category, o);
      }
    }
  }

  /** The objects under a category directory's name are those built from
      that directory, when the listing names it once (as a directory listing
      does). */
  lemma ObjsByCategoryIsDirectory(oakinkDir: string, cats: seq<CategoryEntry>, sidecars: seq<string> -> Sidecar, i: nat)
    requires NewBase(oakinkDir, cats, sidecars).Success?
    requires i < |cats| && cats[i].isDir
    requires forall k :: 0 <= k < |cats| && k != i ==> cats[k].name != cats[i].name
    ensures var c := cats[i];
      var objs := BuildObjects([oakinkDir, "OakBase", c.name], c.name, c.objects, sidecars);
      objs.Success? && ObjsByCategory(NewBase(oakinkDir, cats, sidecars).value, c.name) == Success(objs.value)
  {
    var dataDir := [oakinkDir, "OakBase"];
    assert dataDir + [cats[i].name] == [oakinkDir, "OakBase", cats[i].name];
    BuildCategoriesGather(dataDir, cats, sidecars, i);
    Dict.GroupLookup(BuildCategories(dataDir, cats, sidecars).value, cats[i].name);
  }

  /** In the category table, the entries under a directory name that the
      listing holds once gather to the objects built from that directory. */
  lemma {:induction false} BuildCategoriesGather(dataDir: seq<string>, cats: seq<CategoryEntry>,
                                                 sidecars: seq<string> -> Sidecar, i: nat)
    requires BuildCategories(dataDir, cats, sidecars).Success?
    requires i < |cats| && cats[i].isDir
    requires forall k :: 0 <= k < |cats| && k != i ==> cats[k].name != cats[i].name
    ensures var c := cats[i];
      var objs := BuildObjects(dataDir + [c.name], c.name, c.objects, sidecars);
      objs.Success? && Dict.Gather(BuildCategories(dataDir, cats, sidecars).value, c.name) == objs.value
    decreases |cats|
  {
    var n := |cats| - 1;
    var init := cats[..n];
    var name := cats[i].name;
    var prev := BuildCategories(dataDir, init, sidecars).value;
    var built := BuildCategories(dataDir, cats, sidecars).value;
    assert forall k :: 0 <= k < n ==> init[k] == cats[k];
    if i == n {
      var oaks := BuildObjects(dataDir + [name], name, cats[n].objects, sidecars).value;
      assert built == prev + [(name, oaks)];
      Dict.GatherAbsent(prev, name);
      assert built[..|prev|] == prev;
    } else {
      BuildCategoriesGather(dataDir, init, sidecars, i);
      if cats[n].isDir {
        var oaks := BuildObjects(dataDir + [cats[n].name], cats[n].name, cats[n].objects, sidecars).value;
        assert built == prev + [(cats[n].name, oaks)];
        assert built[..|prev|] == prev;
      }
    }
  }

  /** Objects collected under selected attributes are exactly the objects
      having one of them. */
  lemma {:induction false} ObjAggregateMembers(oaks: seq<Knowledge>, keep: string -> bool, o: Knowledge)
    ensures o in Dict.Collect(ObjAttrItems(oaks), keep)
        <==> o in oaks && exists a :: a in Dict.Keys(o.partAttrToNames) && keep(a)
    decreases |oaks|
  {
    if |oaks| > 0 {
      var n := |oaks| - 1;
      var init := oaks[..n];
      ObjAggregateMembers(init, keep, o);
      var tag := Dict.Tag(Dict.Keys(oaks[n].partAttrToNames), oaks[n]);
      assert ObjAttrItems(oaks) == ObjAttrItems(init) + tag;
      Dict.CollectAppend(ObjAttrItems(init), tag, keep);
      Dict.CollectTag(Dict.Keys(oaks[n].partAttrToNames), oaks[n], keep, o);
      assert o in oaks <==> o in init || o == oaks[n];
    }
  }

  /** On a constructed base, an aggregating attribute lookup returns exactly
      the objects having an attribute with that prefix. */
  lemma ObjsByAttributeAggregate(oakinkDir: string, cats: seq<CategoryEntry>, sidecars: seq<string> -> Sidecar,
                                 attribute: string, o: Knowledge)
    requires NewBase(oakinkDir, cats, sidecars).Success?
    requires IsAggregate(attribute)
    ensures var b := NewBase(oakinkDir, cats, sidecars).value;
      var oaks := AllObjects(BuildCategories([oakinkDir, "OakBase"], cats, sidecars).value);
      && ObjsByAttribute(b, attribute).Success?
      && (o in ObjsByAttribute(b, attribute).value
          <==> o in oaks && exists a :: HasAttribute(o, a) && StartsWith(a, attribute))
  {
    var oaks := AllObjects(BuildCategories([oakinkDir, "OakBase"], cats, sidecars).value);
    var items := ObjAttrItems(oaks);
    ByAttributeOfGroup(items, attribute);
    SameMembers(ObjsByAttribute(NewBase(oakinkDir, cats, sidecars).value, attribute).value,
                Dict.Collect(items, Prefixed(attribute)), o);
    ObjAggregateMembers(oaks, Prefixed(attribute), o);
    assert forall a :: Prefixed(attribute)(a) == StartsWith(a, attribute);
  }
}
