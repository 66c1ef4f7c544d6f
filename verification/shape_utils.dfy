/** The constant tables and small helpers of the grasp-catalog package
    (oikit/oi_shape/utils.py): the allowed categories, splits and intents,
    `to_list`, `check_valid`, and the mesh-file choice of `get_obj_path`. */
module ShapeUtils {
  import opened Wrappers
  import opened Text
  import Dict

  /** `ALL_CAT`: the object categories a grasp catalog may be asked for. */
  const AllCat: seq<string> := [
    "apple", "banana", "binoculars", "bottle", "bowl", "cameras", "can", "cup",
    "cylinder_bottle", "donut", "eyeglasses", "flashlight", "fryingpan",
    "gamecontroller", "hammer", "headphones", "knife", "lightbulb", "lotion_pump",
    "mouse", "mug", "pen", "phone", "pincer", "power_drill", "scissors",
    "screwdriver", "squeezable", "stapler", "teapot", "toothbrush",
    "trigger_sprayer", "wineglass", "wrench"
  ]

  /** `ALL_SPLIT`: the three partitions. */
  const AllSplit: seq<string> := ["train", "val", "test"]

  /** `ALL_INTENT`: intent name to 4-digit action code, in declaration order.
      The image package declares the identical table; it is modelled once, here. */
  const AllIntent: Dict.Table<string, string> := [
    ("use", "0001"), ("hold", "0002"), ("liftup", "0003"), ("handover", "0004")
  ]

  /** The action code of a handover recording. */
  const HandoverCode: string := "0004"

  /** The intent table is a four-entry bijection whose codes are the four
      consecutive codes "0001".."0004" and whose names are the four intents. */
  lemma IntentTableShape()
    ensures Dict.Keys(AllIntent) == ["use", "hold", "liftup", "handover"]
    ensures Dict.DistinctKeys(AllIntent) && Dict.DistinctValues(AllIntent)
    ensures forall i :: 0 <= i < |AllIntent| ==> AllIntent[i].1 == ['0', '0', '0', DigitChar(i + 1)]
    ensures Dict.ToMap(AllIntent)["handover"] == HandoverCode
  {
    Dict.ToMapOfItem(AllIntent, 3);
  }

  /** The intent names, in table order, and the action code of each. */
  lemma IntentCodeTable()
    ensures Dict.Keys(AllIntent) == ["use", "hold", "liftup", "handover"]
    ensures var m := Dict.ToMap(AllIntent);
      && "use" in m && m["use"] == "0001" && "hold" in m && m["hold"] == "0002"
      && "liftup" in m && m["liftup"] == "0003" && "handover" in m && m["handover"] == "0004"
  {
    assert Dict.DistinctKeys(AllIntent);
    Dict.ToMapOfItem(AllIntent, 0);
    Dict.ToMapOfItem(AllIntent, 1);
    Dict.ToMapOfItem(AllIntent, 2);
    Dict.ToMapOfItem(AllIntent, 3);
  }

  // -----------------------------------------------------------------------
  // to_list / check_valid
  // -----------------------------------------------------------------------

  /** A constructor argument that may be one string or a list of them. */
  datatype Arg = One(item: string) | Many(items: seq<string>)

  /** `to_list`: a list is returned as it is, anything else is wrapped. */
  function ToList(x: Arg): (r: seq<string>)
    ensures x.Many? ==> r == x.items
    ensures x.One? ==> |r| == 1 && r[0] == x.item
  {
    match x
    case Many(items) => items
    case One(item) => [item]
  }

  /** `check_valid`: scans the list and answers False at the first element
      missing from the valid list. */
  function CheckValid(xs: seq<string>, valid: seq<string>): (ok: bool)
    ensures ok <==> forall k :: 0 <= k < |xs| ==> xs[k] in valid
    decreases |xs|
  {
    if |xs| == 0 then true
    else if xs[0] !in valid then false
    else CheckValid(xs[1..], valid)
  }

  // -----------------------------------------------------------------------
  // get_obj_path
  // -----------------------------------------------------------------------

  /** The mesh variant directory: downsampled meshes live under "align_ds". */
  function MeshSuffix(useDownsample: bool): (d: string)
    ensures useDownsample <==> d == "align_ds"
    ensures !useDownsample <==> d == "align"
  {
    if useDownsample then "align_ds" else "align"
  }

  /** The two object tables (`object_id.json`, `virtual_object_id.json`),
      each reduced to object id -> display name. */
  datatype ObjMeta = ObjMeta(realNames: map<string, string>, virtualNames: map<string, string>)

  /** The directory that is globbed for meshes, as path components.  The
      real-object table takes precedence; the virtual one is consulted only
      for ids the real one lacks, and an id in neither raises KeyError. */
  function MeshDir(oid: string, dataPath: string, meta: ObjMeta, useDownsample: bool): (r: Result<seq<string>>)
    ensures oid in meta.realNames ==>
      r == Success([dataPath, "OakInkObjectsV2", meta.realNames[oid], MeshSuffix(useDownsample)])
    ensures oid !in meta.realNames && oid in meta.virtualNames ==>
      r == Success([dataPath, "OakInkVirtualObjectsV2", meta.virtualNames[oid], MeshSuffix(useDownsample)])
    ensures r.Success? <==> oid in meta.realNames || oid in meta.virtualNames
  {
    if oid in meta.realNames then
      Success([dataPath, "OakInkObjectsV2", meta.realNames[oid], MeshSuffix(useDownsample)])
    else if oid in meta.virtualNames then
      Success([dataPath, "OakInkVirtualObjectsV2", meta.virtualNames[oid], MeshSuffix(useDownsample)])
    else Failure(KeyMissing(oid))
  }

  /** `os.path.split(p)[1]`: the part after the last '/'. */
  function BaseName(p: string): (b: string)
    ensures '/' !in b
  {
    var fields := Split(p, '/');
    fields[|fields| - 1]
  }

  /** The candidates whose file name contains `key`, in order. */
  function KeepWithKey(cands: seq<string>, key: string): (r: seq<string>)
    ensures |r| <= |cands|
    ensures forall x :: x in r <==> x in cands && Contains(BaseName(x), key)
    decreases |cands|
  {
    if |cands| == 0 then []
    else if Contains(BaseName(cands[0]), key) then [cands[0]] + KeepWithKey(cands[1..], key)
    else KeepWithKey(cands[1..], key)
  }

  /** The choice among the globbed meshes: with more than one candidate only
      those whose file name contains `key` stay, and exactly one must remain. */
  function SelectMesh(cands: seq<string>, key: string): (r: Result<string>)
    ensures r.Success? <==> |cands| == 1 || (|cands| > 1 && |KeepWithKey(cands, key)| == 1)
    ensures r.Success? ==> r.value in cands
    ensures r.Success? && |cands| == 1 ==> r.value == cands[0]
    ensures r.Success? && |cands| > 1 ==> Contains(BaseName(r.value), key)
  {
    var kept := if |cands| > 1 then KeepWithKey(cands, key) else cands;
    if |kept| == 1 then Success(kept[0]) else Failure(AssertionFailed("exactly one mesh"))
  }

  /** `get_obj_path`: `glob` stands for the file-system listing of a
      directory for one extension pattern; ".obj" files come before ".ply".
      An unknown id raises KeyError; a single mesh is returned as it is;
      several are narrowed to those whose file name contains `key`, and the
      assertion demands exactly one. */
  function GetObjPath(oid: string, dataPath: string, meta: ObjMeta, useDownsample: bool, key: string,
                      glob: (seq<string>, string) -> seq<string>): (r: Result<string>)
    ensures r.Success? ==> oid in meta.realNames || oid in meta.virtualNames
    ensures r.Success? ==>
      var dir := MeshDir(oid, dataPath, meta, useDownsample).value;
      r.value in glob(dir, "*.obj") + glob(dir, "*.ply")
    ensures MeshDir(oid, dataPath, meta, useDownsample).Success? ==>
      var dir := MeshDir(oid, dataPath, meta, useDownsample).value;
      var cands := glob(dir, "*.obj") + glob(dir, "*.ply");
      && (r.Success? <==> |cands| == 1 || (|cands| > 1 && |KeepWithKey(cands, key)| == 1))
      && (|cands| == 1 ==> r == Success(cands[0]))
      && (r.Success? && |cands| > 1 ==> Contains(BaseName(r.value), key))
  {
    var dir :- MeshDir(oid, dataPath, meta, useDownsample);
    SelectMesh(glob(dir, "*.obj") + glob(dir, "*.ply"), key)
  }
}
