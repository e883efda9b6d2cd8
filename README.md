# Sorting image files by the people in them: a Dafny model

This project models the core of a photo organiser written in Python. The
organiser does four things:

- It scans a folder of `.jpg`/`.jpeg`/`.png` files.
- It records each photo once per content hash (SHA-256 read in 64 KiB
  chunks). A photo seen again under a new path only gets its path and
  filename, and possibly its location, rewritten.
- It detects faces once per photo and stores one row per face: an embedding
  and the JSON text of its bounding box.
- It groups the face embeddings into clusters (DBSCAN) and resolves each
  cluster to a person. A cluster joins the first stored person whose
  centroid lies closer than 0.5 and re-averages that centroid. Otherwise it
  becomes a new person called `Person<n>`.

Around that core the model covers:

- the person thumbnail: the largest face, widened by 30 pixels and clamped to
  the image;
- the stand-alone script's own scan, its crop, and its report of photos per
  person;
- the system-preferences store: values are saved as text and read back as a
  bool, an int, a float or text.

Modules, one per source file (plus shared vocabulary):

- `Common`: Option, bytes, ASCII lower-casing, decimal rendering.
- `Files`: directory entries and the image-extension filter.
- `Store`: the photos/faces/people tables and the `Database` class, whose
  methods are the SQL statements the code runs.
- `Geometry`: boxes, area, the widened and clamped crop box.
- `PyNumbers`: Python's `int()` and `float()` on text.
- `SysPrefs`: `repositories/sys_prefs_repo.py`.
- `FaceDetection`: `face_detection.py`.
- `FaceClustering`: `face_clustering.py`.
- `PhotoController`: `app_logic.py`.
- `App`: `App.py`.

Each state-changing method is proved against a specification function on
the table values. DB-changing calls into other modules are given as
`db.Snapshot() == Spec(old(db.Snapshot()), …)`. The properties are lemmas
about those functions. `Valid()` holds at every step. It says that photo,
face and person ids are distinct and below their counters, and that no two
photos share a hash.

These are parameters of the model:

- the SHA-256 function (`sha256`);
- the face detector with its embedding network (`detect`);
- DBSCAN (the `labels` argument, or `cluster`);
- the embedding distance and mean (`dist`, `mean`);
- `json.loads` (`loads`);
- `Image.open` (`openImage`, or the width and height).

EXIF dates, sizes and reverse geocoding arrive already read, in each file's
`meta`. A size Pillow cannot read is None and None. A geocoding lookup that
raised is `location == None`, because `get_location` then returns the result
of `print`. `_scan_metadata` unpacks that None and raises a TypeError, and
`analyze_folder` has no handler for it. `ScanMetadata` then reports failure
without writing, and `AnalyzeFolder` stops at that file with the status
`Raised` and does not cluster.

## Model

| member | source | states |
|---|---|---|
| Files.ImageFiles | app_logic.py:27-31 | a file is kept exactly when it is a regular file with an image suffix, and the result is no longer than the folder (the order is stated by `Files.ImageFilesSnoc`) |
| Files.ImageFilesSnoc | app_logic.py:27-31 | filtering proceeds in directory order: one more entry appends itself when it is an image file, and nothing otherwise |
| Files.ImageNameIff | app_logic.py:30 | the suffix test passes exactly when the name ends, ignoring ASCII case, in `.jpg`, `.jpeg` or `.png` with at least one character before it |
| Common.PrefixedNamesDistinct | face_clustering.py:105 | `Person<a>` and `Person<b>` differ whenever a and b differ |
| Store.FindByHash | face_detection.py:39-41 | the first photo row with the hash, or None exactly when no row has it |
| Store.FindByHashAppendNew | app_logic.py:74-78 | after inserting a photo with a previously unknown hash, the lookup finds the new last row |
| Store.UpdateCentroidAt | face_clustering.py:99-102 | updating a person's centroid by id changes that one person's centroid and nothing else |
| Store.Database.UpdatePhoto | app_logic.py:72-73 | the new tables are the old ones with that photo's path, filename and optional location rewritten |
| Store.Database.InsertPhoto | app_logic.py:75-78 | appends one unanalyzed photo with the next id and returns that id |
| Store.Database.MarkAnalyzed | face_detection.py:71-73 | sets `already_analyzed` on the photo with that id |
| Store.Database.InsertFace | face_detection.py:68-69 | appends one face row with the next id and returns that id |
| Store.Database.UpdateFacePerson | face_clustering.py:130-133 | sets `person_id` on the face with that id |
| Store.Database.InsertPerson | face_clustering.py:108-109 | appends one person with the next id and returns that id |
| Store.Database.UpdatePersonCentroid | face_clustering.py:99-102 | replaces the centroid of the person with that id |
| Geometry.CropBox | app_logic.py:125-130 | each edge is the face edge moved out by 30 pixels, or the image border where that would be outside the image |
| Geometry.CropIsIntersection | app_logic.py:125-130 | the crop spans are exactly the image spans intersected with the face spans widened by 30 |
| Geometry.CropContainsFace | App.py:112-116 | for a face inside the image, the crop lies inside the image and contains the whole face |
| PyNumbers.ParseIntOfRendered | repositories/sys_prefs_repo.py:11-24 | `int(str(n)) == n` for every integer n |
| PyNumbers.IntsAreFloats | repositories/sys_prefs_repo.py:23-27 | text that `int()` accepts, `float()` accepts as the same value |
| SysPrefs.SystemPrefsRepository.constructor | repositories/sys_prefs_repo.py:4 | the repository starts over the given stored key/value table |
| SysPrefs.SystemPrefsRepository.SavePref | repositories/sys_prefs_repo.py:6-12 | upsert: the key now maps to `str(value)`, and every other key keeps its presence and its value |
| SysPrefs.SystemPrefsRepository.LoadPref | repositories/sys_prefs_repo.py:14-29 | a missing key gives the default; a present key gives the decoded stored text |
| SysPrefs.DecodeBoolWords | repositories/sys_prefs_repo.py:21-22 | `true`/`false` in any ASCII case decode to that bool, and only those words decode to a bool |
| SysPrefs.DecodePrefersInt | repositories/sys_prefs_repo.py:23-27 | text that is an integer decodes as an int, though `float()` would accept it too |
| SysPrefs.DecodeTextOnlyWhenNotNumeric | repositories/sys_prefs_repo.py:21-29 | the stored text comes back unchanged exactly when it is neither a bool word nor an int nor a float |
| SysPrefs.LetterLedIsText | repositories/sys_prefs_repo.py:23-29 | a word starting with a letter, not a bool word and not `inf`/`infinity`/`nan`, comes back as text |
| SysPrefs.DecodeSavedBool | repositories/sys_prefs_repo.py:11-22 | a saved bool loads back as the same bool |
| SysPrefs.DecodeSavedInt | repositories/sys_prefs_repo.py:11-24 | a saved int loads back as the same int |
| SysPrefs.DecodeSavedNone | repositories/sys_prefs_repo.py:11-29 | a saved None loads back as the text `None`, not as None |
| SysPrefs.SaveThenLoad | repositories/sys_prefs_repo.py:6-29 | after a save, the key is present and loads back as the saved bool, int or `"None"`; saved text loads back unchanged exactly when it is neither `true`/`false` in any case nor a Python int or float |
| FaceDetection.ReadChunk | face_detection.py:86 | a read returns the next `BUF_SIZE` bytes, or all that remain |
| FaceDetection.ComputeHash | face_detection.py:81-88 | the digest is SHA-256 of the whole content; the chunks fed in concatenate to the content, none is empty or longer than 65536, and all but the last are full |
| FaceDetection.FaceInserts | face_detection.py:62-69 | definition: the rows the insert loop writes, one per detected face, with the box as the JSON text `[[x1, y1, x2, y2]]`; what inserting them does is stated by `FaceDetection.InsertFacesEffect` and `FaceDetection.ProcessSuccess` |
| FaceDetection.InsertFacesEffect | face_detection.py:62-69 | inserting the faces appends exactly those rows, numbered from the next face id, with no person; nothing else changes |
| FaceDetection.ProcessGate | face_detection.py:36-77 | nothing changes when the hash has no photo, when the photo is already analyzed, or when detection raises; any change implies an unanalyzed photo and a successful detection |
| FaceDetection.ProcessSuccess | face_detection.py:48-74 | on success, the photo alone becomes analyzed; its faces are appended in order and people are untouched; no faces means only the flag is set |
| FaceDetection.ProcessKeepsValid | face_detection.py:36-77 | processing a photo keeps the table invariant |
| FaceDetection.AnalyzedAtMostOnce | face_detection.py:42-46 | once a photo was processed, processing the same bytes again changes nothing |
| FaceDetection.InsertFacesKeepsValid | face_detection.py:62-69 | inserting face rows keeps the table invariant |
| FaceDetection.MarkAnalyzedKeepsValid | face_detection.py:71-73 | setting the analyzed flag keeps the table invariant |
| FaceDetection.ProcessPhoto | face_detection.py:36-77 | the new tables are the specification's result for the file, the reported outcome is `ProcessOutcome` of the old tables, and the invariant holds |
| FaceDetection.OutcomeReportsEffect | face_detection.py:36-77 | the report says "unknown hash" exactly when no photo has the hash; "unknown", "already analyzed" or "failed" exactly when nothing was written; "no faces" only when no face was added and no person changed; a face count (at least one) only when that many faces were added |
| FaceDetection.InsertDetectedFaces | face_detection.py:62-69 | the insert loop leaves the tables that inserting all face rows in order gives |
| FaceDetection.ProcessFaces | face_detection.py:16-23 | every image file of the folder is processed, in directory order |
| FaceClustering.LoadFaces | face_clustering.py:34-50 | one (id, embedding) pair per face row, in table order |
| FaceClustering.LoadPeopleEmbeddings | face_clustering.py:59-77 | one dictionary entry per person, in table order, holding its id and its centroid or None |
| FaceClustering.DictSetAbsent | face_clustering.py:108-110 | assigning a key the dictionary lacks appends the entry at the end |
| FaceClustering.DictSetPresent | face_clustering.py:103-110 | with distinct keys, assigning a present key replaces that value in place and keeps the length; assigning an absent key appends the entry at the end |
| FaceClustering.DictSetMirrorsUpdate | face_clustering.py:99-103 | updating a known person's entry in the dictionary matches updating that person's row |
| FaceClustering.DictSetMirrorsInsert | face_clustering.py:108-110 | adding a new person's entry in the dictionary matches appending that person's row |
| FaceClustering.FindMatchingPerson | face_clustering.py:118-124 | None exactly when no entry has a centroid strictly closer than 0.5; otherwise the id of the first such entry in dictionary order |
| FaceClustering.MatchedEntry | face_clustering.py:118-124 | the returned id's own dictionary entry is a match |
| FaceClustering.NullCentroidNeverMatched | face_clustering.py:119-120 | a person stored without a centroid is never returned |
| FaceClustering.Unique | face_clustering.py:20 | the distinct labels, strictly increasing, with exactly the labels present |
| FaceClustering.ClusterMembers | face_clustering.py:85-86 | a cluster holds the embedding of every face carrying the label, and only such embeddings |
| FaceClustering.FindMatchingIsFirstMatch | face_clustering.py:118-124 | matching against the dictionary is matching against the people rows in table order |
| FaceClustering.StepOnMatch | face_clustering.py:89-103 | unfolding of the pass's step for a matched cluster, used by the loop's proof; the promise (first match, only that centroid changes) is `FaceClustering.StepMatched` |
| FaceClustering.StepOnNoMatch | face_clustering.py:104-113 | unfolding of the pass's step for an unmatched cluster, used by the loop's proof; the promise (created only when nothing matched) is `FaceClustering.StepCreated` |
| FaceClustering.StepMatched | face_clustering.py:89-103 | a step that matched found the first matching person; only that centroid changed, and no id or name was used |
| FaceClustering.StepCreated | face_clustering.py:104-113 | a step that created a person happened only because no existing centroid matched |
| FaceClustering.RunShape | face_clustering.py:80-115 | over all labels: existing people keep id and name; new people get consecutive ids and names from the counters; created plus matched equals the number of labels |
| FaceClustering.RunLabels | face_clustering.py:84-115 | the label map's keys are exactly the labels handled, and each maps to an id of a person in the result |
| FaceClustering.RunKeepsNullCentroid | face_clustering.py:118-124 | a person without a centroid stays unchanged and never receives a label |
| FaceClustering.CreatedNamesDistinct | face_clustering.py:82-111 | the people created in one pass get the names `Person<k>` for their positions, pairwise distinct |
| FaceClustering.CreatedPersonIsMatchable | face_clustering.py:104-110 | a later cluster within the threshold of a just-created person, and of no earlier one, matches that person |
| FaceClustering.Embeddings | face_clustering.py:16-17 | definition: the embedding array, one per face in table order; that every face's label is then resolved is `FaceClustering.LabelsResolved` |
| FaceClustering.LabelsResolved | face_clustering.py:80-115 | after the pass every label of every face is mapped, and each to an existing person |
| FaceClustering.AssignGivesEveryFaceItsLabelsPerson | face_clustering.py:127-133 | photos unchanged; each face keeps everything but its person, which is now an existing person; faces with equal labels share a person |
| FaceClustering.ResolvePeople | face_clustering.py:80-115 | the pass's people extend the stored ones by consecutively numbered new people; created plus matched equals the number of distinct labels |
| FaceClustering.AssignPeople | face_clustering.py:10-31 | after assignment the stored people keep id and name, and new people follow with consecutive ids and names |
| FaceClustering.AssignKeepsNullCentroid | face_clustering.py:59-124 | a person stored without a centroid is untouched and gets no face |
| FaceClustering.AssignClustersToPeople | face_clustering.py:80-115 | the people table and the label map are the specified pass over the unique labels; photos and faces are untouched |
| FaceClustering.AssignCluster | face_clustering.py:84-113 | one loop iteration: people table, dictionary, label map and name counter advance by one specified step |
| FaceClustering.UpdateFacesWithPersonIds | face_clustering.py:127-133 | each face gets the person of its label; nothing else changes |
| FaceClustering.AssignPersonIds | face_clustering.py:10-31 | the new tables are the specified assignment; no faces gives no change and no summary; otherwise the summary counts the faces and the distinct labels |
| PhotoController.ScanExisting | app_logic.py:69-73 | a known hash rewrites that photo's path, filename and location, and no other row |
| PhotoController.ScanNew | app_logic.py:74-78 | unfolding of the scan for an unknown hash (one unanalyzed photo appended with the next id); the promise that the hash is then found on that row is `PhotoController.ScanRecordsHash` |
| PhotoController.ScanRecordsHash | app_logic.py:59-78 | after a scan the hash is found, on its old row or the new last row; analysis state is kept and no other hash changes |
| PhotoController.ScanKeepsValid | app_logic.py:68-78 | hashes stay unique: the deduplication invariant survives a scan |
| PhotoController.RescanNeverGrows | app_logic.py:68-78 | scanning the same bytes again, under any path or name, adds no photo |
| PhotoController.ScanMetadata | app_logic.py:59-78 | the scan raises exactly when the geocoding lookup failed, and then writes nothing; otherwise the new tables are the specified scan of the file with location refresh; the invariant holds |
| PhotoController.FirstScanFailure | app_logic.py:40-47 | the position of the first file whose scan raises, with no earlier file raising; None exactly when no file raises |
| PhotoController.FirstScanFailureAt | app_logic.py:40-47 | a file that raises, with none raising before it, is the first failure |
| PhotoController.NoScanFailure | app_logic.py:40-47 | when no file raises there is no first failure |
| PhotoController.FaceBoxShape | app_logic.py:92-106 | a row yields a box exactly when its decoded coordinates are a non-empty list whose first item is a list of four numbers |
| PhotoController.BiggestIsFirstMaximal | app_logic.py:86-114 | the chosen face is the first row of maximal area; none is chosen exactly when no row has a usable box of area at least 0 |
| PhotoController.GetPersonThumbnail | app_logic.py:80-134 | None without a chosen face, photo path or openable image, or when Pillow rejects the box; otherwise the path and the clamped crop of the chosen face |
| PhotoController.IngestKeepsValid | app_logic.py:40-46 | scanning and detecting every file keeps the table invariant |
| PhotoController.ScanBeforeDetection | app_logic.py:40-46 | after scan and detection, the file's photo exists; it is analyzed exactly when it already was or detection succeeded |
| PhotoController.IngestRecordsEveryHash | app_logic.py:40-46 | every image file of the folder ends with a photo row of its hash |
| PhotoController.KeepsHashesAfterDetection | face_detection.py:36-77 | detection removes no photo and changes no hash |
| PhotoController.IngestWithoutDetection | app_logic.py:40-46 | with detection off, scanning leaves faces, people and their counters alone |
| PhotoController.AnalyzeWithoutDetection | app_logic.py:24-57 | with detection off, only photos change |
| PhotoController.IngestOneKeepsPeople | app_logic.py:40-46 | scanning and detecting one file keeps the people and the stored faces as they are, and every new face has no person |
| PhotoController.ProcessKeepsPeople | face_detection.py:36-77 | detection keeps the people and the stored faces, and every face it adds has no person |
| PhotoController.IngestKeepsPeople | app_logic.py:40-46 | the loop of scans and detections creates no person and assigns no face |
| PhotoController.OnlyUnassignedFacesAddedTrans | app_logic.py:40-46 | two such steps in a row are again such a step |
| PhotoController.RaisedScanSkipsClustering | app_logic.py:40-57 | a call cut short by a raising scan never reaches `resolve_identities`: people and earlier faces are unchanged and new faces have no person |
| PhotoController.IngestPrefixStep | app_logic.py:40-46 | ingesting one more file of the list is one more loop turn |
| PhotoController.IngestFile | app_logic.py:41-46 | one loop turn: it fails exactly when the scan raises, and then writes nothing; otherwise it is one scan and, when enabled, one detection |
| PhotoController.IngestFiles | app_logic.py:40-47 | the loop stops at the first raising file, having ingested exactly the files before it, or ingests every file |
| PhotoController.AnalyzeFolder | app_logic.py:24-57 | no image files: nothing changes and the status is "No photos found"; a raising scan: the files before it are ingested, nothing is clustered and the status is `Raised`; otherwise every file is scanned and detected in order, then clustered once, and the status is "Done!" |
| App.ScanAllKeepsValid | App.py:51-82 | scanning a folder keeps the table invariant |
| App.ScanAllRecordsHashes | App.py:51-82 | after scanning every file's hash is recorded, and at most one photo per file is added |
| App.ScanAllKnownAddsNothing | App.py:62-72 | when every hash is already known, the scan adds no photo |
| App.ScanAllSameHashes | App.py:62-72 | when every hash is already known, no photo's hash changes |
| App.RescanFolderAddsNothing | App.py:51-82 | scanning the same folder a second time adds no photo |
| App.ScanFolderStep | App.py:52-53 | one more directory entry adds one scan step when it is an image file, and none otherwise |
| App.ScanPhoto | App.py:55-82 | one file: a known hash rewrites only path and filename, and a new hash inserts a photo |
| App.GetPhotosMetadata | App.py:51-82 | the new tables are every image file of the folder scanned in directory order, and the invariant holds |
| App.FirstFaceOf | App.py:102-103 | a face row assigned to the person, the first in table order, or None exactly when there is none |
| App.FourInts | App.py:110 | unpacking succeeds exactly when there are four items and `int()` accepts each |
| App.PyIntTruncates | App.py:110 | `int()` of a float coordinate drops its fraction, rounding toward zero |
| App.CropImageOfEncodedBox | App.py:101-119 | coordinates stored as doubly encoded JSON of a box inside the image crop to the widened, clamped box |
| App.CropImageInside | App.py:112-118 | every crop returned lies inside the image and is one Pillow accepts |
| App.CropImageNeedsFace | App.py:102-105 | with no face row for the person there is no crop |
| App.CropImageRejectsStoredBox | App.py:107 | coordinates in the single-encoded form face detection writes never yield a crop |
| App.CropImageDecodedOfStoredBox | App.py:101-119 | with one tolerant decoding step, the stored form of a box inside the image crops to the widened, clamped box |
| App.CropImageDecodedExtends | App.py:107 | wherever the crop as written succeeds, the tolerant crop returns the same box |
| App.GroupIndexFinds | App.py:93-94 | with distinct group keys, looking up a group's key finds that group |
| App.GroupStepKeeps | App.py:93-94 | appending one face row keeps the groups: one per distinct person id, each listing exactly that person's photos |
| App.GroupsDescribeRows | App.py:90-94 | the grouped rows have one group per distinct `person_id`, NULL included, each with exactly its faces' photos |
| App.Report | App.py:96-98 | one report line per group, in group order, carrying the group's person id |
| App.ReportDescribesFaces | App.py:85-98 | the report lines are pairwise distinct, cover every `person_id` among the faces, and each lists exactly the photos of that person's faces |
| App.PrintPersonGroups | App.py:85-98 | the report is the unique photo ids per person, grouped from the face rows in order |

## Left out

- Face detection and embedding (RetinaFace, InceptionResnetV1, OpenCV) are neural-network code; the detector is the parameter `detect`, and a failure anywhere in it is `DetectFailed`.
- SHA-256 itself is a parameter; the model proves the chunked reading, not the hash function.
- DBSCAN (`_cluster_embeddings`, cosine metric, eps 0.4) is not modelled: its labels are an input of `AssignPersonIds` and the parameter `cluster` of `AnalyzeFolder`, of the same length as the embeddings.
- Embedding arithmetic is float32 numpy; embeddings are sequences of reals and the Euclidean norm and `np.mean` are the parameters `dist` and `mean`. The byte encoding of embeddings (`tobytes`/`frombuffer`, and the latin-1 fallback of `_load_people_embeddings`) is not modelled.
- FaceClustering.FindMatchingPerson: the threshold 0.5 and the strict comparison are kept, but the distance is any function `dist`, not necessarily the Euclidean norm.
- EXIF dates, image sizes and reverse geocoding (`metadata_handle.py`) arrive already read, in each file's `meta`. A failed size read is `width == None` and `height == None`. A failed geocoding lookup is `location == None`. A lookup without GPS data is a pair of Nones.
- The classes `FaceDetection`, `FaceClustering` and the photo/face/person repositories that `app_logic.py` calls are not part of this model. `_scan_metadata` and `analyze_folder` use the module functions of `face_detection.py` and `face_clustering.py` in their place. `process_faces(img_path)` is called on a single file, and the model processes that file. `resolve_identities()` is `AssignPersonIds`.
- The database driver and the base repository are not part of this model. The code mixes `?` and `%s` placeholders and calls `fetchone` on the result of `execute`. The cursor is a `RealDictCursor` (`db_setup.py:16-18`), so rows are dictionaries, yet `App.py:68`, `App.py:93`, `App.py:105`, `face_detection.py:44` and `repositories/sys_prefs_repo.py:20` index or unpack them by position; the model reads rows by position, as tuples. `App.py:78` passes the location as one `location_data` pair; the model assumes `insert_photo` stores it as the city and country columns, and stores NULL in both when the failed lookup made it None. `db.update_photo`, `db.insert_photo`, `db.insert_face`, `db.insert_person`, `db.get_people` and `get_faces_by_person_id` are modelled as the SQL they stand for, on id-keyed tables. `get_faces_by_person_id` joins each face row with its photo's path.
- FaceDetection.ProcessPhoto: an exception raised after some faces were inserted leaves uncommitted rows behind in the source; the model treats detection as all-or-nothing, and commits and transactions are not modelled.
- SysPrefs.SystemPrefsRepository.SavePref: float values are not accepted, because `str(float)` is the shortest round-tripping float rendering, which is not modelled.
- PyNumbers.ParseInt: whitespace is ASCII whitespace only, digits are ASCII only, and CPython's 4300-digit limit on `int()` is not modelled.
- PyNumbers.ParseFloat: values are exact decimals, not binary doubles; text beyond double range, which CPython makes infinite, stays finite here.
- App.FourInts: float coordinates are truncated toward zero as `int()` does, but JSON `NaN` and `Infinity`, on which `int()` raises, are not modelled as values.
- Common.Lower: `str.lower()` lowers ASCII letters only.
- PhotoController.FaceBoxShape: a coordinate that decodes to a JSON float (`[[1.5, 2, 30, 40]]`) gives no box here, while `app_logic.py:105-108` computes a float area and keeps such a box; boxes are integer boxes. Face detection itself stores integers (`face_detection.py:65`).
- PhotoController.GetPersonThumbnail: skips rows whose coordinates are floats (see the line above), so where the code would pick such a face the model picks another one or returns None; it returns the photo path and crop box, not the image; `ImageOps.exif_transpose` is not modelled, and `Image.open` is the parameter `openImage`.
- Progress callbacks, the printed messages and the Tk user interface (`ui/`, `show_detected_people`, the `App.py` script driver) are I/O and are left out; `print_person_groups` returns its report instead of printing it, and the report is a set per person instead of the order `list(set(...))` happens to give.
- A majority rule that keeps faces with a person from an earlier pass with that person, and idempotence of repeated passes, are not properties of this code: every pass re-clusters all faces and re-averages every matched centroid. The model follows the code.

## Findings

| source | as written | input that shows it | evidently intended | confidence | as-written member | corrected member |
|---|---|---|---|---|---|---|
| App.py:107 | `_crop_image` applies `json.loads` twice, so the stored text must be JSON holding a JSON text | a face row whose `face_coords` is the text `[[1, 2, 3, 4]]` that `face_detection.py:65` writes: the first `json.loads` gives a list, the second raises | decode once, and a second time only when the first result is a string, as `get_person_thumbnail` does (`app_logic.py:95-98`) | medium, not executed; `db.insert_face` is not part of this model, and if it encodes the text again the call is right | App.CropImageRejectsStoredBox | App.CropImageDecodedOfStoredBox |
