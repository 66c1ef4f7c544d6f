# OakInk toolkit core, modelled in Dafny

This project models the data-indexing core of the OakInk toolkit (`oikit`).
That core covers three areas.

**Image manifests and handover pairs**
- `dev/extend_split.py` rewrites an image split manifest into its multi-view form.
  It keeps one entry per (sequence, subject, frame) triple and expands each triple to the four camera views.
- `OakInkImage` loads a split manifest and turns each sample identifier into its on-disk stem (`_get_info_str`).
- It decodes a sequence code (`decode_seq_cat`).
- For handover recordings, it builds the map from each sample to the same frame seen from the other subject (`_get_handover_info`).
- It answers the per-sample accessors for status, intent, object id and handover partner.
- `OakInkImageSequence` restricts the "all" manifest to one sequence and one view, sorted by subject and frame.

**Grasp catalog**
- `OakInkShape` validates its request (partitions, intents, categories).
- It crawls the grasp directory of each category.
- It keeps the records that pass the intent filter and the object-hash partition filter.
- It pairs each handover grasp with its partner.
- It drops handovers that found no partner.
- It builds the object-mesh warehouse.
- It answers `__getitem__` and `get_hand_over`.
- The helpers it relies on live in `oi_shape/utils.py`: `to_list`, `check_valid`, `get_obj_path` and the constant tables.

**Object affordance knowledge base**
- `OakBase` reads every object's part files and their JSON sidecars.
- It builds the per-object tables (part name → attributes, attribute → part names) and the base-wide tables (category → objects, attribute → objects).
- It answers lookups by exact attribute; the two aggregate names `attach_to` and `connect_to` instead gather every attribute that starts with them.

**How the model is organised**
- There is one module per source unit:
  - `ExtendSplit`;
  - `OiImage` and `ImageSequence`;
  - `ShapeUtils`;
  - `Grasp` (the per-file crawl step);
  - `GraspPairing` (handover pairing and the drop);
  - `ShapeCatalog` (the whole constructor, the warehouse and the accessors);
  - `OakBase`.
- Three support modules:
  - `Wrappers` holds `Option`, `Result` and the Python exception kinds, plus Python-style negative indexing.
  - `Text` holds Python's `split`, `join`, `replace`, `startswith` and `endswith` on `seq<char>`.
  - `Dict` holds insertion-ordered dictionaries as sequences of pairs. It models `d[k] = v` (`Put`), `setdefault(k, []).extend(...)` (`Extend`, `Group`) and key selection by predicate (`Collect`).
- Every exception the modelled code raises becomes a `Failure`: AssertionError, KeyError, IndexError, a failed tuple unpack, subscripting `None`, an unbound local name, or the ValueError of stacking an empty list.
- The I/O parameters are total functions, so a failing read (a missing file, malformed JSON) is not modelled.
- File reads, JSON parsing, directory walks, globbing and md5 are parameters of the operations.
- A path is the list of its `os.path.join` components.

## Model

| member | source | states |
|---|---|---|
| ExtendSplit.Collapse | dev/extend_split.py:28-34 | the de-duplicated index list is strictly sorted and holds exactly the (sequence, subject, frame) triples of the input |
| ExtendSplit.Expand | dev/extend_split.py:36-40 | the output has four entries per triple, and entry i is triple i / 4 seen from view i % 4 |
| ExtendSplit.CanonicalTriples | dev/extend_split.py:28-40 | the rewritten manifest covers exactly the triples of the input manifest, no more and no fewer |
| ExtendSplit.CanonicalLength | dev/extend_split.py:28-40 | the rewritten manifest has four times as many entries as the input has distinct triples |
| ExtendSplit.CanonicalViews | dev/extend_split.py:36-40 | every block of four consecutive entries is one triple with views 0, 1, 2, 3 in order |
| ExtendSplit.CanonicalSorted | dev/extend_split.py:34-40 | the rewritten manifest is strictly ordered and has no duplicate entry |
| ExtendSplit.CanonicalIdempotent | dev/extend_split.py:28-40 | rewriting an already rewritten manifest changes nothing |
| ExtendSplit.SortedUnique | dev/extend_split.py:34 | two strictly sorted triple lists with the same elements are equal, so `sorted(set)` is determined by the set |
| ExtendSplit.ExampleTwoFrames | dev/extend_split.py:28-40 | two views of one frame and one view of another become eight entries, four per frame |
| ExtendSplit.SplitKey | dev/extend_split.py:7-12 | a mode is accepted exactly when it is one of the four known modes; any other mode raises KeyError |
| ExtendSplit.SplitKeyOneToOne | dev/extend_split.py:7-12 | different modes select different split keys, and every one of the four split keys is selected by some mode |
| ExtendSplit.OutputMirrorsInput | dev/extend_split.py:14-23 | the output path equals the input path with the `anno` component replaced by `anno_mv`, for every data split |
| ExtendSplit.Run | dev/extend_split.py:6-56 | the script fails only on an unknown mode; otherwise it writes, to the mirrored path, the four views of each distinct triple of the manifest it read, sorted |
| ExtendSplit.RunWritesViews | dev/extend_split.py:6-56 | the written manifest has four entries per distinct triple, views 0 to 3 of one triple side by side in order, and sorting it again changes nothing |
| OiImage.IntentRevIsInverse | oikit/oi_image/oi_image.py:13-19 | the reversed intent table maps a code back to a name exactly when the forward table maps that name to the code |
| OiImage.HandoverIntentName | oikit/oi_image/oi_image.py:13-19 | the handover code reads back as the intent "handover" |
| OiImage.DecodeSeqCat | oikit/oi_image/oi_image.py:22-30 | decoding succeeds exactly when there are enough fields; the decoded fields contain no `_`; a handover has up to two subjects and any other action exactly one |
| OiImage.DecodeSeqCatRoundTrip | oikit/oi_image/oi_image.py:22-30 | joining an object id, an action code and subject codes (none containing `_`) with `_` and then decoding gives them back |
| OiImage.DecodeSeqCatObjectPrefix | oikit/oi_image/oi_image.py:22-30 | the decoded object id followed by `_` is a prefix of the sequence code |
| OiImage.SeqCatOf | oikit/oi_image/oi_image.py:330-331 | unpacking a sequence path into two parts succeeds exactly when it has one `/`, and the sequence code is the part before it |
| OiImage.InfoStr | oikit/oi_image/oi_image.py:50-53 | the on-disk stem of a sample never contains `/` |
| OiImage.InfoStrFields | oikit/oi_image/oi_image.py:50-53 | the stem splits into the path with `/` turned into `__`, followed by the subject, frame and view indices |
| OiImage.InfoStrIndicesRoundTrip | oikit/oi_image/oi_image.py:50-53 | the subject, frame and view indices can be read back from the stem |
| OiImage.BuildInfoStrings | oikit/oi_image/oi_image.py:97-101 | the stem list has one stem per manifest sample, position by position |
| OiImage.Flip | oikit/oi_image/oi_image.py:56-74 | the partner of a handover sample is the same frame and view of the other subject (subject 0 and subject 1 swap) |
| OiImage.ScanHandoverShape | oikit/oi_image/oi_image.py:56-74 | the scan records each handover sample with its flipped partner, and the recorded sample positions are ascending |
| OiImage.HandoverInfo | oikit/oi_image/oi_image.py:56-74 | a built handover map is closed: every mapped partner is itself a key (the "alt info item missing" assertion); when it builds is stated by HandoverInfoSucceeds |
| OiImage.HandoverInfoSucceeds | oikit/oi_image/oi_image.py:56-74 | building the handover map succeeds exactly when every sample's code decodes and every handover sample's flipped partner is itself a handover sample of the manifest; the map's keys are then exactly the handover samples |
| OiImage.HandoverInvolution | oikit/oi_image/oi_image.py:56-74 | when handover subjects are 0 or 1, the partner of a sample's partner is the sample itself |
| OiImage.ModeKeyAgrees | oikit/oi_image/oi_image.py:86-95 | for the four known modes, the constructor's mode chain picks the same split key as the manifest rewriter |
| OiImage.InfoListFileIsRewriteInput | oikit/oi_image/oi_image.py:36-47 | the manifest the image index reads is exactly the file the rewriter reads, and the rewriter's output is its `anno_mv` mirror |
| OiImage.NewImage | oikit/oi_image/oi_image.py:76-134 | construction fails only when handover is requested outside the "all" split, or when the handover map cannot be built; a constructed index holds the loaded manifest, the given status map and data directory, and a consistent handover map |
| OiImage.GetSampleStatus | oikit/oi_image/oi_image.py:260-263 | the status is found exactly when the index is in range and the sample's sequence has a status entry |
| OiImage.GetIntentMode | oikit/oi_image/oi_image.py:265-271 | the intent is found exactly when the sample's code is one of the four known codes, and the intent table maps the answer back to that code |
| OiImage.GetObjIdx | oikit/oi_image/oi_image.py:207-211 | the lookup succeeds exactly when the index is in Python range and the sample's sequence path and its code decode; the object id contains no `_`, and followed by `_` it is a prefix of the sequence path |
| OiImage.LoadByInfo | oikit/oi_image/oi_image.py:298-317 | loading succeeds exactly when the status exists and the code is a known intent; the record carries that status, the matching intent and the sample's own joints and vertices files |
| OiImage.GetHandOver | oikit/oi_image/oi_image.py:273-296 | the result is None when handover is off or the sample has no partner; with handover on, an index out of Python range raises; for a paired sample the call succeeds exactly when the sample has a status, its action code is a known intent and the partner loads, and the record's intent is that of the action code; a returned record carries the sample's status and the partner's full loaded record |
| OiImage.PartnerIsHandover | oikit/oi_image/oi_image.py:56-74 | in a constructed index, every partner is the flipped sample and both sides are handover samples |
| OiImage.GetHandOverPartner | oikit/oi_image/oi_image.py:273-296 | a returned handover record has intent "handover" on both sides, and its partner fields are the status and hand files of the flipped sample |
| ImageSequence.SelectView | oikit/oi_image/oi_image.py:337-338 | the selection holds each manifest sample of the requested path and view exactly as often as the manifest does, and nothing else |
| ImageSequence.SortByKey | oikit/oi_image/oi_image.py:341 | the sorted samples are a permutation of the input, ordered by `subject * 1000 + frame` |
| ImageSequence.FrameKeyIsLexicographic | oikit/oi_image/oi_image.py:341 | for frame numbers below 1000 the sort key orders by subject first and then by frame |
| ImageSequence.NewSequence | oikit/oi_image/oi_image.py:322-347 | construction succeeds exactly when the view is one of the four cameras, the path and code decode, and (with handover) the map builds; the index holds the sorted view, the given status map and data directory, and a name made of the path and camera |
| ImageSequence.SequenceSamplesAreTheView | oikit/oi_image/oi_image.py:337-341 | the sequence's samples are exactly the manifest's samples with that path and view, with multiplicity, in key order |
| ImageSequence.SequenceObjectId | oikit/oi_image/oi_image.py:207-211 | every sample of a constructed sequence reports the sequence's own object id |
| ShapeUtils.IntentTableShape | oikit/oi_shape/utils.py:51-56 | the intent table maps use, hold, liftup and handover one-to-one to the codes 0001 to 0004 |
| ShapeUtils.ToList | oikit/oi_shape/utils.py:61-64 | a list argument is kept as it is, and a single value becomes a one-element list |
| ShapeUtils.CheckValid | oikit/oi_shape/utils.py:67-71 | the check passes exactly when every element is allowed |
| ShapeUtils.MeshSuffix | oikit/oi_shape/utils.py:79-95 | the downsampled flag selects the `align_ds` mesh directory, and otherwise `align` |
| ShapeUtils.MeshDir | oikit/oi_shape/utils.py:79-95 | real objects are looked up first and virtual objects second; an object in neither table raises |
| ShapeUtils.KeepWithKey | oikit/oi_shape/utils.py:79-95 | the candidates kept are exactly those whose base name contains the key |
| ShapeUtils.SelectMesh | oikit/oi_shape/utils.py:79-95 | a single candidate is taken as is; among several, the one whose base name contains the key is taken only when it is unique |
| ShapeUtils.GetObjPath | oikit/oi_shape/utils.py:79-95 | a returned path belongs to a known object and is a mesh file in that object's directory; for a known object it succeeds exactly when the directory holds one mesh, returned unchanged, or several of which exactly one has the key in its file name |
| Grasp.ValidateConfig | oikit/oi_shape/oi_shape.py:38-47 | the request is accepted exactly when every partition, category and intent is allowed; the action codes are the intent table's codes, position by position |
| Grasp.IntentFilterIsRequestedIntent | oikit/oi_shape/oi_shape.py:81-82 | the intent filter keeps a record exactly when the inverted intent table reads its code back as a requested intent |
| Grasp.DefaultConfigValid | oikit/oi_shape/oi_shape.py:26-47 | the default arguments are accepted and select all four action codes in table order |
| Grasp.KeptBySplitIsPartition | oikit/oi_shape/oi_shape.py:84-90 | the partition filter keeps a record exactly when its object hash's partition is requested, and requesting every partition keeps every record |
| Grasp.PartitionPerObject | oikit/oi_shape/oi_shape.py:84-90 | two records of the same object get the same keep-or-skip decision, the one its partition dictates |
| Grasp.ValidationResidueScenario | oikit/oi_shape/oi_shape.py:84-90 | an object whose hash ends in 8 belongs to the validation partition only |
| Grasp.HandoverSubjectSplit | oikit/oi_shape/oi_shape.py:92-98 | the subject field "a_b" gives subject a with alternate b, and the other way round for an `_alt` provenance |
| Grasp.ProcessVisit | oikit/oi_shape/oi_shape.py:63-119 | a file with no match yields nothing and more than one match aborts; a provenance text the pattern does not match raises IndexError and an object id that disagrees with the path aborts; a record has passed both filters, its object id is the path's tag (virtual) or raw id (real), and its raw object id, action, timestamp, pass stage and subjects come from the first provenance match of the provenance text it carries; a well-formed file that fails either filter is skipped without aborting, and one that passes both yields a record exactly when its subjects read (a handover's subject field must contain `_`) |
| Grasp.ProcessVisitFilters | oikit/oi_shape/oi_shape.py:78-98 | a well-formed single-match file whose subjects read never aborts, and yields a record exactly when its intent is requested and its partition is requested |
| Grasp.SeqIdFields | oikit/oi_shape/oi_shape.py:101-119 | the record's seq_id reads back as its raw object id, action code and timestamp, and the fields between the action code and the timestamp re-join to the raw subject field of the provenance match ("a_b" for a handover, not the split subject); for a non-handover that is the record's subject |
| GraspPairing.IsPartnerSymmetric | oikit/oi_shape/oi_shape.py:153-160 | the partner relation is symmetric and no record is its own partner |
| GraspPairing.CategoryStartIsLargest | oikit/oi_shape/oi_shape.py:148-152 | the scan start is the largest category start not after the record |
| GraspPairing.FindCategoryStart | oikit/oi_shape/oi_shape.py:148-152 | the loop with `break` computes that category start |
| GraspPairing.FirstMatch | oikit/oi_shape/oi_shape.py:153-167 | the match found is a partner, and no earlier record in the window is one; no match means no partner in the window |
| GraspPairing.PairOne | oikit/oi_shape/oi_shape.py:146-167 | a record without an alternate subject is unchanged; one before any category start aborts; otherwise, with the first partner from the category start on, it aborts exactly when the subjects do not cross-match and else gains exactly the partner's hand; without a partner it is unchanged |
| GraspPairing.PairPrefixSpec | oikit/oi_shape/oi_shape.py:145-167 | pairing the first n records succeeds exactly when each of them pairs, and then record i of the result is record i paired on its own |
| GraspPairing.PairHandovers | oikit/oi_shape/oi_shape.py:145-167 | the in-place loop over the list computes the same result as the record-by-record definition |
| GraspPairing.DropUnpaired | oikit/oi_shape/oi_shape.py:169 | the kept records are exactly the non-handovers and the paired handovers |
| GraspPairing.DropUnpairedIsOrderedFilter | oikit/oi_shape/oi_shape.py:169 | the drop distributes over concatenation, so it keeps the original order |
| GraspPairing.Resolve | oikit/oi_shape/oi_shape.py:144-169 | without a handover request the list is untouched; with one, every surviving record is a non-handover or is paired |
| GraspPairing.PairFacts | oikit/oi_shape/oi_shape.py:144-167 | after pairing, every record is its original with at most its partner field set, and a set partner field belongs to a true partner |
| GraspPairing.PartnerIsPaired | oikit/oi_shape/oi_shape.py:144-167 | a handover with a partner in its window ends up paired |
| ShapeCatalog.CrawlFiles | oikit/oi_shape/oi_shape.py:63-119 | every crawled record passed the intent and partition filters |
| ShapeCatalog.CrawlFilesAborts | oikit/oi_shape/oi_shape.py:63-119 | a category's walk aborts exactly when some visited file aborts |
| ShapeCatalog.CrawlFilesKept | oikit/oi_shape/oi_shape.py:63-119 | a walk that does not abort gives exactly the records the visited files yield, in visit order |
| ShapeCatalog.Crawl | oikit/oi_shape/oi_shape.py:52-119 | every record of a successful crawl passed the intent and partition filters, has an alternate subject exactly when it is a handover, and is not yet paired; its layout is stated by CrawlSegments |
| ShapeCatalog.CrawlSegments | oikit/oi_shape/oi_shape.py:52-119 | the category start offsets are non-decreasing and start at 0, and each category's records are exactly the slice between its offset and the next |
| ShapeCatalog.ObjIds | oikit/oi_shape/oi_shape.py:173 | the object ids are exactly those of the records, each listed once |
| ShapeCatalog.Warehouse | oikit/oi_shape/oi_shape.py:172-186 | the warehouse builds exactly when every object's mesh resolves, and its keys are exactly the object ids |
| ShapeCatalog.WarehouseValues | oikit/oi_shape/oi_shape.py:172-186 | each object's entry is that object's resolved mesh |
| ShapeCatalog.WarehouseKeys | oikit/oi_shape/oi_shape.py:172-186 | the warehouse covers exactly the objects of the final record list |
| ShapeCatalog.BuildCatalog | oikit/oi_shape/oi_shape.py:26-188 | a constructed catalog keeps exactly the request that validation accepted, its crawl succeeded, and the crawl kept at least one record (an empty one raises ValueError when the hand parameters are stacked, line 130); conversely it is constructed whenever the request validates, the crawl keeps at least one record, the pairing does not abort and every record's mesh loads |
| ShapeCatalog.HandoverCodeNeedsIntent | oikit/oi_shape/oi_shape.py:144 | the handover code is selected only when the handover intent is requested |
| ShapeCatalog.ResolvedRecord | oikit/oi_shape/oi_shape.py:144-169 | a record that survives pairing and the drop passed both filters, and is paired when it is a handover |
| GraspPairing.ResolvedOrigin | oikit/oi_shape/oi_shape.py:146-169 | a surviving record is an input record with at most a hand added, taken from an input partner whose subjects cross-match |
| GraspPairing.ResolveKeepsNonHandovers | oikit/oi_shape/oi_shape.py:144-169 | pairing and the drop keep every non-handover record, unchanged and in order |
| GraspPairing.NonHandoversDrop | oikit/oi_shape/oi_shape.py:169 | the drop removes handover records only |
| ShapeCatalog.BuildCatalogIsBuilt | oikit/oi_shape/oi_shape.py:26-188 | in a constructed catalog every record passed the intent and partition filters, every handover record has a partner's hand, and the warehouse keys are exactly the records' object ids |
| ShapeCatalog.BuildCatalogRecords | oikit/oi_shape/oi_shape.py:55-169 | the catalog keeps every crawled non-handover record in crawl order, is exactly the crawl without the handover intent, and otherwise holds only crawled records, each hand taken from a cross-matching crawled partner |
| ShapeCatalog.GetHandOver | oikit/oi_shape/oi_shape.py:207-215 | the partner is returned exactly when the record at that index is paired; an unpaired record raises |
| ShapeCatalog.GetItem | oikit/oi_shape/oi_shape.py:193-205 | the item is the record at that index with its object's mesh from the warehouse, and it carries a partner hand exactly when it is a handover, that hand being the record's partner |
| ShapeCatalog.Length | oikit/oi_shape/oi_shape.py:190-191 | the length admits exactly the indices that Python indexing accepts, from either end |
| ShapeCatalog.LengthIsItemRange | oikit/oi_shape/oi_shape.py:190-205 | on a constructed catalog `__getitem__` succeeds exactly for the indices within the length, from either end |
| ShapeCatalog.GetItemTotal | oikit/oi_shape/oi_shape.py:193-205 | on a constructed catalog, every index in range yields an item |
| ShapeCatalog.PairingScenario | oikit/oi_shape/oi_shape.py:144-169 | two mirrored handover grasps of one frame are paired with each other, and a third grasp with no partner is dropped |
| OakBase.SidecarNameShape | oikit/oak_base.py:84-85 | a part file's sidecar keeps its `part_` stem and ends in `.json`, and different part files have different sidecars |
| OakBase.ReadPart | oikit/oak_base.py:84-90 | a part reads exactly when its file name is valid and its sidecar exists with both `name` and `attr` |
| OakBase.NewKnowledge | oikit/oak_base.py:72-98 | an object reads exactly when every part reads, and its part names are those of its parts in order |
| OakBase.AttrItemsMembers | oikit/oak_base.py:95-98 | an attribute is a key exactly when some part has it, and a part name is listed under it exactly when that part has it |
| OakBase.KnowledgePartTables | oikit/oak_base.py:92-94 | a name has an attribute list exactly when it is a part name, and the list is the attributes of a part of that name |
| OakBase.DistinctPartAttributes | oikit/oak_base.py:116-117 | with distinct part names, looking up a part's name returns that part's own attribute list |
| OakBase.ByAttributeOfGroup | oikit/oak_base.py:100-114 | on a grouped table an exact lookup gives every item listed under the attribute, and an aggregate lookup gives the items under every matching attribute |
| OakBase.PartNamesByAttributeExact | oikit/oak_base.py:100-114 | `PartNamesByAttribute`, which has no contract of its own: an exact attribute is found exactly when some part has it, and a part name is returned exactly when that part has it |
| OakBase.PartNamesByAttributeAggregate | oikit/oak_base.py:100-110 | `PartNamesByAttribute`: an aggregate lookup always succeeds, and returns exactly the part names that have an attribute starting with the aggregate name |
| OakBase.PartAttributeByName | oikit/oak_base.py:116-117 | the attributes of a name are found exactly when the name is a part name |
| OakBase.BuildObjects | oikit/oak_base.py:137-146 | a category builds exactly when every object in it reads, and every built object belongs to that category |
| OakBase.BuildObjectsIsMap | oikit/oak_base.py:137-147 | building a category is building one object per object directory in listing order, the first failure aborting with its error |
| OakBase.BuildObjectsListing | oikit/oak_base.py:137-147 | a built category has one object per object directory, in listing order, each built from that directory's ".ply" files under the directory's name |
| OakBase.BuildCategories | oikit/oak_base.py:129-148 | the table builds exactly when every object directory of every category directory reads; its keys are exactly the category directory names, and each category holds only its own objects |
| OakBase.BuildCategoriesListing | oikit/oak_base.py:129-148 | the table has one entry per category directory, in listing order, under the directory's name, holding the objects built from that directory |
| OakBase.BuildCategoriesGather | oikit/oak_base.py:129-148 | the entries under a directory name the listing holds once gather to the objects built from that directory |
| OakBase.NewBase | oikit/oak_base.py:125-154 | the base builds exactly when every object directory of every category directory reads, its data directory is `OAKINK_DIR/OakBase`, and its category keys are exactly the category directory names |
| OakBase.ObjsByCategory | oikit/oak_base.py:156-157 | the lookup succeeds exactly when the category is a key of the base, otherwise KeyError; its value is stated by ObjsByCategoryCorrect |
| OakBase.ObjsByCategoryCorrect | oikit/oak_base.py:156-157 | the objects of a category are found exactly when the category is a directory; they all belong to it and are the objects of every table entry under that name, in order |
| OakBase.ObjsByCategoryIsDirectory | oikit/oak_base.py:156-157 | for a category directory the listing names once, `get_objs_by_category` returns exactly the objects built from that directory |
| OakBase.ObjAttrItemsGather | oikit/oak_base.py:150-154 | the objects under an attribute are exactly the objects having it, in base order |
| OakBase.ObjsByAttributeCorrect | oikit/oak_base.py:159-173 | `ObjsByAttribute`, which has no contract of its own: an exact attribute is found exactly when some object has it, and then gives exactly the objects having it |
| OakBase.ObjsByAttributeAggregate | oikit/oak_base.py:159-169 | `ObjsByAttribute`: an aggregate lookup always succeeds, and returns exactly the base's objects that have an attribute starting with the aggregate name |
| Dict.GroupLookup | oikit/oak_base.py:95-98 | after `setdefault(k, []).append` over a list of items, the list under a key is the concatenation, in order, of what every item contributed to it |
| Dict.CollectGroup | oikit/oak_base.py:100-110 | aggregating over the grouped table gives the same multiset as aggregating over the ungrouped items |

## Left out

- Hand model, forward kinematics, joints and vertices: the MANO layer is a foreign numerical library. A record carries the hand-parameter file it came from, and a paired record carries its partner's.
- Mesh loading, the bounding-box re-centring, trimesh, numpy arrays and floating point are left out. The warehouse maps an object id to the mesh path `get_obj_path` resolves.
- Regular expressions, md5 and JSON decoding are left out. Path-pattern matches, the provenance pattern's groups, the object hash and the sidecar contents are inputs.
- `os.walk`, `glob`, `os.listdir`, `os.path.isdir`/`exists` and file reads are left out; their results are parameters.
  - The crawl takes the visited files in walk order.
  - The base takes the directory listing as entries with a directory flag.
- `OakInkImage.get_image_path`, `get_image`, the camera, 2D/3D joint, vertex, MANO, object-transform and corner getters are left out. Each is a file read or numeric projection.
- `_get_info_list`'s JSON read is left out: `load` stands for it. The path it reads is modelled.
- The handover info list (`handover_info_list`) built alongside the map is not modelled; only the map is.
- Visualisation, `viz_dataset`, the demo and download scripts, and `tqdm` progress bars are left out.
- `__getitem__` (oi_shape.py:193-205) writes `obj_verts`, `obj_faces` and, for a handover, the `alt_*` hand arrays into the stored record `self.grasp_list[idx]` itself and returns that same dict, so a later read of the index sees the added keys. The model is pure: it returns the record, its warehouse mesh and the partner's hand, and leaves the catalog unchanged.
- `os.environ["OAKINK_DIR"]` (oak_base.py:126) raises KeyError when the variable is unset, and `OakInkImage` and `OakInkImageSequence` assert that it is set (oi_image.py:81, 331). The model takes the directory as a parameter, so neither failure is modelled.
- The warehouse iterates the object ids in first-appearance order, while the source iterates a Python set. The order matters only for which missing mesh is reported first.
- In the source `cat_begin_idx` persists from one record to the next. The model recomputes it per record and fails with an unbound name if no start is at or before the record. Because the first category starts at 0 this never happens for a catalog the crawl builds, and the two agree.
- The pairing window starts at the record's category and runs to the end of the whole list, as the code does at oi_shape.py:153; it is not limited to the category.
- ExtendSplit.SplitKey: an unknown mode raises KeyError. The image index's own mode chain (oi_image.py:86-95) instead falls back to `split0_ho`; OiImage.ModeKeyAgrees relates the two on the four known modes only.
- ImageSequence.SortByKey: the source's sort is stable; the model's insertion sort is too, but stability is not stated as a property.
- The virtual-instance check at oi_shape.py:79 is a disjunction: it passes when the tag equals the raw object id or when the path id does. The model keeps the disjunction.
- OakBase.ObjsByCategoryIsDirectory: assumes the listing names the directory once, as a directory listing does. ObjsByCategoryCorrect states the general case: the entries under a repeated name are concatenated in listing order.
- The constants (categories, partitions, intents) are those of `oi_shape/utils.py`; `oi_utils` as imported by `oi_shape.py` is not part of this model.
