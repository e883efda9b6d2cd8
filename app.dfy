/** The stand-alone application script: its own metadata scan (which
    refreshes only path and filename of a known photo), its thumbnail crop,
    and the debugging report of photos per person. */
module App {
  import opened Common
  import opened Files
  import opened Store
  import opened Geometry
  import opened PyNumbers
  import opened FaceDetection
  import opened PhotoController

  // ------------------------------------------------------ metadata scan

  /** The photo table after scanning `files` in order, location never refreshed. */
  function ScanAll(t: Tables, files: seq<FileEntry>, sha256: seq<byte> -> Digest): Tables
  {
    if |files| == 0 then t
    else ScanSpec(ScanAll(t, files[..|files| - 1], sha256), files[|files| - 1], sha256, false)
  }

  lemma {:induction false} ScanAllKeepsValid(t: Tables, files: seq<FileEntry>, sha256: seq<byte> -> Digest)
    requires ValidTables(t)
    ensures ValidTables(ScanAll(t, files, sha256))
  {
    if |files| > 0 {
      ScanAllKeepsValid(t, files[..|files| - 1], sha256);
      ScanKeepsValid(ScanAll(t, files[..|files| - 1], sha256), files[|files| - 1], sha256, false);
    }
  }

  predicate AllHashesKnown(t: Tables, files: seq<FileEntry>, sha256: seq<byte> -> Digest)
  {
    forall k :: 0 <= k < |files| ==> FindByHash(t.photos, sha256(files[k].content)).Some?
  }

  /** After a scan every scanned file has a photo with its hash, and at most
      one photo per file was added. */
  lemma {:induction false} ScanAllRecordsHashes(t: Tables, files: seq<FileEntry>, sha256: seq<byte> -> Digest)
    requires ValidTables(t)
    ensures var r := ScanAll(t, files, sha256);
            && AllHashesKnown(r, files, sha256)
            && |t.photos| <= |r.photos| <= |t.photos| + |files|
  {
    if |files| > 0 {
      var front := files[..|files| - 1];
      ScanAllRecordsHashes(t, front, sha256);
      ScanAllKeepsValid(t, front, sha256);
      assert files == front + [files[|files| - 1]];
      ScanStepRecordsHashes(ScanAll(t, front, sha256), front, files[|files| - 1], sha256);
    }
  }

  /** Scanning one more file keeps the hashes seen so far and adds its own,
      with at most one new photo. */
  lemma {:induction false} ScanStepRecordsHashes(p: Tables, front: seq<FileEntry>, f: FileEntry,
                                                 sha256: seq<byte> -> Digest)
    requires ValidTables(p) && AllHashesKnown(p, front, sha256)
    ensures var r := ScanSpec(p, f, sha256, false);
            && AllHashesKnown(r, front + [f], sha256)
            && |p.photos| <= |r.photos| <= |p.photos| + 1
  {
    var r := ScanSpec(p, f, sha256, false);
    var files := front + [f];
    ScanRecordsHash(p, f, sha256, false);
    if FindByHash(p.photos, sha256(f.content)).Some? {
      ScanExisting(p, f, sha256, false);
    } else {
      ScanNew(p, f, sha256, false);
    }
    forall k | 0 <= k < |files|
      ensures FindByHash(r.photos, sha256(files[k].content)).Some?
    {
      if k < |front| {
        assert files[k] == front[k];
        KnownStaysKnown(p, f, sha256, sha256(files[k].content));
      } else {
        assert files[k] == f;
      }
    }
  }

  /** A hash already in the table is still there after scanning one more file. */
  lemma {:induction false} KnownStaysKnown(t: Tables, f: FileEntry, sha256: seq<byte> -> Digest, h: Digest)
    requires ValidTables(t)
    requires FindByHash(t.photos, h).Some?
    ensures FindByHash(ScanSpec(t, f, sha256, false).photos, h).Some?
  {
    ScanRecordsHash(t, f, sha256, false);
    var r := ScanSpec(t, f, sha256, false);
    var j := FindByHash(t.photos, h).value;
    assert r.photos[j].hash == h;
  }

  /** A scan of files whose hashes are all known adds no photo and keeps them known. */
  lemma {:induction false} ScanAllKnownAddsNothing(t: Tables, files: seq<FileEntry>, sha256: seq<byte> -> Digest)
    requires ValidTables(t)
    requires AllHashesKnown(t, files, sha256)
    ensures |ScanAll(t, files, sha256).photos| == |t.photos|
  {
    if |files| > 0 {
      var front := files[..|files| - 1];
      var f := files[|files| - 1];
      assert AllHashesKnown(t, front, sha256) by {
        forall k | 0 <= k < |front| ensures FindByHash(t.photos, sha256(front[k].content)).Some? {
          assert front[k] == files[k];
        }
      }
      ScanAllKnownAddsNothing(t, front, sha256);
      ScanAllKeepsValid(t, front, sha256);
      var p := ScanAll(t, front, sha256);
      ScanAllSameHashes(t, front, sha256);
      var j := FindByHash(t.photos, sha256(f.content)).value;
      FindByHashSameHashes(t.photos, p.photos, sha256(f.content));
      ScanExisting(p, f, sha256, false);
    }
  }

  /** A scan of known files leaves every hash where it was. */
  lemma {:induction false} ScanAllSameHashes(t: Tables, files: seq<FileEntry>, sha256: seq<byte> -> Digest)
    requires ValidTables(t)
    requires AllHashesKnown(t, files, sha256)
    ensures var r := ScanAll(t, files, sha256);
            |r.photos| == |t.photos| && forall j :: 0 <= j < |t.photos| ==> r.photos[j].hash == t.photos[j].hash
  {
    if |files| > 0 {
      var front := files[..|files| - 1];
      var f := files[|files| - 1];
      assert AllHashesKnown(t, front, sha256) by {
        forall k | 0 <= k < |front| ensures FindByHash(t.photos, sha256(front[k].content)).Some? {
          assert front[k] == files[k];
        }
      }
      ScanAllSameHashes(t, front, sha256);
      ScanAllKeepsValid(t, front, sha256);
      var p := ScanAll(t, front, sha256);
      FindByHashSameHashes(t.photos, p.photos, sha256(f.content));
      ScanExisting(p, f, sha256, false);
    }
  }

  /** Scanning the same folder a second time never adds a photo. */
  lemma {:induction false} RescanFolderAddsNothing(t: Tables, folder: seq<FileEntry>, sha256: seq<byte> -> Digest)
    requires ValidTables(t)
    ensures var files := ImageFiles(folder);
            var once := ScanAll(t, files, sha256);
            |ScanAll(once, files, sha256).photos| == |once.photos|
  {
    var files := ImageFiles(folder);
    ScanAllRecordsHashes(t, files, sha256);
    ScanAllKeepsValid(t, files, sha256);
    ScanAllKnownAddsNothing(ScanAll(t, files, sha256), files, sha256);
  }

  /** Scanning one more file extends the fold by one step. */
  lemma {:induction false} ScanAllSnoc(t: Tables, files: seq<FileEntry>, f: FileEntry, sha256: seq<byte> -> Digest)
    ensures ScanAll(t, files + [f], sha256) == ScanSpec(ScanAll(t, files, sha256), f, sha256, false)
  {
    assert (files + [f])[..|files|] == files;
  }

  /** Scanning a folder one more directory entry at a time. */
  lemma {:induction false} ScanFolderStep(t: Tables, folder: seq<FileEntry>, k: nat, sha256: seq<byte> -> Digest)
    requires k < |folder|
    ensures var before := ScanAll(t, ImageFiles(folder[..k]), sha256);
            ScanAll(t, ImageFiles(folder[..k + 1]), sha256) ==
              if IsImageFile(folder[k]) then ScanSpec(before, folder[k], sha256, false) else before
  {
    var before := ImageFiles(folder[..k]);
    assert ImageFiles(folder[..k + 1]) == before + (if IsImageFile(folder[k]) then [folder[k]] else []) by {
      assert folder[..k + 1] == folder[..k] + [folder[k]];
      ImageFilesSnoc(folder[..k], folder[k]);
    }
    if IsImageFile(folder[k]) {
      ScanAllSnoc(t, before, folder[k], sha256);
    } else {
      assert before + [] == before;
    }
  }

  /** The body of the scan loop for one image file: look the hash up, then
      rewrite path and filename of the photo that has it or insert a new one. */
  method ScanPhoto(db: Database, f: FileEntry, sha256: seq<byte> -> Digest)
    requires db.Valid()
    modifies db
    ensures db.Snapshot() == ScanSpec(old(db.Snapshot()), f, sha256, false)
    ensures db.Valid()
  {
    ScanKeepsValid(db.Snapshot(), f, sha256, false);
    var hash, _ := ComputeHash(f.content, sha256);
    var existing := FindByHash(db.photos, hash);
    if existing.Some? {
      db.UpdatePhoto(db.photos[existing.value].id, f.path, f.name, None);
    } else {
      var _ := db.InsertPhoto(f.path, f.name, hash, f.meta);
    }
  }

  /** `get_photos_metadata`: every `.jpg`/`.jpeg`/`.png` file of the folder
      in directory order; a known hash only gets its path and filename
      rewritten, a new hash inserts one photo. */
  method GetPhotosMetadata(db: Database, folder: seq<FileEntry>, sha256: seq<byte> -> Digest)
    requires db.Valid()
    modifies db
    ensures db.Snapshot() == ScanAll(old(db.Snapshot()), ImageFiles(folder), sha256)
    ensures db.Valid()
  {
    ghost var t := db.Snapshot();
    for k := 0 to |folder|
      invariant db.Valid()
      invariant db.Snapshot() == ScanAll(t, ImageFiles(folder[..k]), sha256)
    {
      ScanFolderStep(t, folder, k, sha256);
      var path := folder[k];
      if IsImageFile(path) {
        ScanPhoto(db, path, sha256);
      }
    }
    assert folder[..|folder|] == folder;
  }

  // ------------------------------------------------------------- cropping

  /** The first face row assigned to the person (`limit 1`, in table order). */
  function FirstFaceOf(fs: seq<Face>, personId: nat): (r: Option<Face>)
    ensures r.Some? ==> r.value in fs && r.value.personId == Some(personId)
    ensures r.Some? ==> exists j :: 0 <= j < |fs| && fs[j] == r.value
                                    && forall k :: 0 <= k < j ==> fs[k].personId != Some(personId)
    ensures r.None? ==> forall k :: 0 <= k < |fs| ==> fs[k].personId != Some(personId)
  {
    if |fs| == 0 then None
    else if fs[0].personId == Some(personId) then Some(fs[0])
    else FirstFaceOf(fs[1..], personId)
  }

  /** `x[0]` on a decoded JSON value; None where Python raises. */
  function FirstItem(j: Json): Option<Json>
  {
    match j
    case JList(items) => if |items| > 0 then Some(items[0]) else None
    case JStr(s) => if |s| > 0 then Some(JStr([s[0]])) else None
    case _ => None
  }

  /** What `for x in j` visits: list items, the characters of a string, the keys of an object. */
  function Iterate(j: Json): Option<seq<Json>>
  {
    match j
    case JList(items) => Some(items)
    case JStr(s) => Some(seq(|s|, i requires 0 <= i < |s| => JStr([s[i]])))
    case JObject(fields) => Some(seq(|fields|, i requires 0 <= i < |fields| => JStr(fields[i].0)))
    case _ => None
  }

  /** `int(x)` on a float: the integer part, rounding toward zero. */
  function Truncate(x: real): int
  {
    if x >= 0.0 then x.Floor else -((-x).Floor)
  }

  /** `int(x)`. */
  function PyInt(j: Json): Option<int>
  {
    match j
    case JInt(i) => Some(i)
    case JBool(b) => Some(if b then 1 else 0)
    case JFloat(x) => Some(Truncate(x))
    case JStr(s) => ParseInt(s)
    case _ => None
  }

  /** `int()` of a float drops the fraction: the result has the float's sign
      (or is 0) and lies less than 1 from it, on the side of 0. */
  lemma {:induction false} PyIntTruncates(x: real)
    ensures PyInt(JFloat(x)).Some?
    ensures var n := PyInt(JFloat(x)).value;
            && (x >= 0.0 ==> 0 <= n && n as real <= x < n as real + 1.0)
            && (x < 0.0 ==> n <= 0 && n as real - 1.0 < x <= n as real)
  {
  }

  /** `json.loads(json.loads(coords_str))`: the column must hold text whose
      JSON value is itself a JSON text. */
  function DecodeTwice(c: Cell, loads: string -> Option<Json>): Option<Json>
  {
    match RawCoords(c)
    case JStr(text) =>
      (match loads(text)
       case Some(JStr(inner)) => loads(inner)
       case _ => None)
    case _ => None
  }

  /** Unpacking `left, top, right, bottom` from the converted items. */
  function FourInts(xs: seq<Json>): (r: Option<Box>)
    ensures r.Some? <==> |xs| == 4 && forall k :: 0 <= k < 4 ==> PyInt(xs[k]).Some?
  {
    if |xs| == 4 && PyInt(xs[0]).Some? && PyInt(xs[1]).Some? && PyInt(xs[2]).Some? && PyInt(xs[3]).Some?
    then Some(Box(PyInt(xs[0]).value, PyInt(xs[1]).value, PyInt(xs[2]).value, PyInt(xs[3]).value))
    else None
  }

  /** `[int(x) for x in coords_list[0]]` unpacked into four names. */
  function FirstBox(v: Json): Option<Box>
  {
    match FirstItem(v)
    case Some(first) =>
      (match Iterate(first)
       case Some(xs) => FourInts(xs)
       case None => None)
    case None => None
  }

  /** `_crop_image` for an image of the given size: the crop box, or None
      where the code raises (no face row for the person, coordinates that
      are not a doubly JSON-encoded text, a first item that does not yield
      exactly four integers, or a box Pillow cannot crop). */
  function CropImage(fs: seq<Face>, personId: nat, width: int, height: int,
                     loads: string -> Option<Json>): Option<Box>
  {
    match FirstFaceOf(fs, personId)
    case None => None
    case Some(face) =>
      match DecodeTwice(face.coords, loads)
      case None => None
      case Some(v) =>
        match FirstBox(v)
        case None => None
        case Some(b) =>
          var crop := CropBox(b, width, height);
          if Croppable(crop) then Some(crop) else None
  }

  /** Coordinates stored as a JSON text holding the JSON text of
      `[[left, top, right, bottom]]`, inside the image, crop to the widened
      and clamped box, which still contains the face. */
  lemma {:induction false} CropImageOfEncodedBox(fs: seq<Face>, personId: nat, width: int, height: int,
                              loads: string -> Option<Json>, text: string, inner: string, b: Box)
    requires FirstFaceOf(fs, personId).Some?
    requires FirstFaceOf(fs, personId).value.coords == CellText(text)
    requires loads(text) == Some(JStr(inner))
    requires loads(inner) == Some(JList([JList([JInt(b.left), JInt(b.top), JInt(b.right), JInt(b.bottom)])]))
    requires 0 <= b.left <= b.right <= width && 0 <= b.top <= b.bottom <= height
    ensures CropImage(fs, personId, width, height, loads) == Some(CropBox(b, width, height))
  {
    var xs := [JInt(b.left), JInt(b.top), JInt(b.right), JInt(b.bottom)];
    var v := JList([JList(xs)]);
    assert DecodeTwice(FirstFaceOf(fs, personId).value.coords, loads) == Some(v);
    assert FirstItem(v) == Some(JList(xs));
    assert Iterate(JList(xs)) == Some(xs);
    assert FourInts(xs) == Some(b);
    CropContainsFace(b, width, height);
    assert Croppable(CropBox(b, width, height));
  }

  /** Every crop the function returns lies inside the image and is one
      Pillow accepts. */
  lemma {:induction false} CropImageInside(fs: seq<Face>, personId: nat, width: int, height: int,
                        loads: string -> Option<Json>)
    requires CropImage(fs, personId, width, height, loads).Some?
    ensures var c := CropImage(fs, personId, width, height, loads).value;
            && Croppable(c)
            && c.right <= width && c.bottom <= height && 0 <= c.left && 0 <= c.top
  {
  }

  /** Without a face row for the person there is nothing to crop. */
  lemma {:induction false} CropImageNeedsFace(fs: seq<Face>, personId: nat, width: int, height: int,
                           loads: string -> Option<Json>)
    requires forall k :: 0 <= k < |fs| ==> fs[k].personId != Some(personId)
    ensures CropImage(fs, personId, width, height, loads).None?
  {
  }

  /** Face detection stores `[[left, top, right, bottom]]` encoded once
      (`BoxJson`). Decoding that text gives a list, and the second decoding
      step rejects a list, so the crop as written fails on every box stored
      in that form, however well it lies inside the image. */
  lemma {:induction false} CropImageRejectsStoredBox(fs: seq<Face>, personId: nat, width: int, height: int,
                                                    loads: string -> Option<Json>, b: Box)
    requires FirstFaceOf(fs, personId).Some?
    requires FirstFaceOf(fs, personId).value.coords == CellText(BoxJson(b))
    requires loads(BoxJson(b)) == Some(JList([JList([JInt(b.left), JInt(b.top), JInt(b.right), JInt(b.bottom)])]))
    ensures CropImage(fs, personId, width, height, loads).None?
  {
  }

  /** The crop with the thumbnail's tolerant decoding: text is parsed once,
      and once more only when that yields a string. */
  function CropImageDecoded(fs: seq<Face>, personId: nat, width: int, height: int,
                            loads: string -> Option<Json>): Option<Box>
  {
    match FirstFaceOf(fs, personId)
    case None => None
    case Some(face) =>
      match DecodeCoords(face.coords, loads)
      case None => None
      case Some(v) =>
        match FirstBox(v)
        case None => None
        case Some(b) =>
          var crop := CropBox(b, width, height);
          if Croppable(crop) then Some(crop) else None
  }

  /** The tolerant crop accepts the box face detection stores and yields the
      widened, clamped box around it. */
  lemma {:induction false} CropImageDecodedOfStoredBox(fs: seq<Face>, personId: nat, width: int, height: int,
                                                      loads: string -> Option<Json>, b: Box)
    requires FirstFaceOf(fs, personId).Some?
    requires FirstFaceOf(fs, personId).value.coords == CellText(BoxJson(b))
    requires loads(BoxJson(b)) == Some(JList([JList([JInt(b.left), JInt(b.top), JInt(b.right), JInt(b.bottom)])]))
    requires 0 <= b.left <= b.right <= width && 0 <= b.top <= b.bottom <= height
    ensures CropImageDecoded(fs, personId, width, height, loads) == Some(CropBox(b, width, height))
  {
    var xs := [JInt(b.left), JInt(b.top), JInt(b.right), JInt(b.bottom)];
    assert DecodeCoords(FirstFaceOf(fs, personId).value.coords, loads) == Some(JList([JList(xs)]));
    assert Iterate(JList(xs)) == Some(xs);
    assert FourInts(xs) == Some(b);
    CropContainsFace(b, width, height);
  }

  /** Wherever the crop as written succeeds, on doubly encoded coordinates,
      the tolerant crop gives the same box. */
  lemma {:induction false} CropImageDecodedExtends(fs: seq<Face>, personId: nat, width: int, height: int,
                                                  loads: string -> Option<Json>)
    requires CropImage(fs, personId, width, height, loads).Some?
    ensures CropImageDecoded(fs, personId, width, height, loads) == CropImage(fs, personId, width, height, loads)
  {
  }

  // ------------------------------------------------------------- grouping

  /** One line of `print_person_groups`: a `person_id` (None for unassigned
      faces) and the distinct photos its faces appear in. */
  datatype PersonGroup = PersonGroup(person: Option<nat>, photos: set<nat>)

  /** The key's position in the insertion-ordered `groups` dict. */
  function GroupIndex(groups: seq<(Option<nat>, seq<nat>)>, p: Option<nat>): (r: Option<nat>)
    ensures r.Some? ==> r.value < |groups| && groups[r.value].0 == p
    ensures r.None? ==> forall i :: 0 <= i < |groups| ==> groups[i].0 != p
  {
    if |groups| == 0 then None
    else if groups[0].0 == p then Some(0)
    else match GroupIndex(groups[1..], p)
      case Some(i) => Some(i + 1)
      case None => None
  }

  /** The `groups` dict after one more row: the photo id is appended to the
      row's person, whose key is added at the end when it is new. */
  function GroupStep(groups: seq<(Option<nat>, seq<nat>)>, row: Face): seq<(Option<nat>, seq<nat>)>
  {
    match GroupIndex(groups, row.personId)
    case Some(i) => groups[i := (row.personId, groups[i].1 + [row.photoId])]
    case None => groups + [(row.personId, [row.photoId])]
  }

  /** The `groups` dict after the loop over the face rows. */
  function Groups(rows: seq<Face>): seq<(Option<nat>, seq<nat>)>
  {
    if |rows| == 0 then []
    else GroupStep(Groups(rows[..|rows| - 1]), rows[|rows| - 1])
  }

  /** The persons the face rows mention, None for unassigned faces. */
  function PersonsOf(rows: seq<Face>): set<Option<nat>>
  {
    set f | 0 <= f < |rows| :: rows[f].personId
  }

  /** The photos holding a face of the person. */
  function PhotosOf(rows: seq<Face>, p: Option<nat>): set<nat>
  {
    set f | 0 <= f < |rows| && rows[f].personId == p :: rows[f].photoId
  }

  predicate KeysDistinct(groups: seq<(Option<nat>, seq<nat>)>)
  {
    forall i, j :: 0 <= i < j < |groups| ==> groups[i].0 != groups[j].0
  }

  /** What `groups` holds after reading `rows`: each key once, exactly the
      persons of the rows, each with exactly its photos. */
  predicate GroupsOf(groups: seq<(Option<nat>, seq<nat>)>, rows: seq<Face>)
  {
    && KeysDistinct(groups)
    && (forall i :: 0 <= i < |groups| ==> groups[i].0 in PersonsOf(rows))
    && (forall f :: 0 <= f < |rows| ==> GroupIndex(groups, rows[f].personId).Some?)
    && (forall i :: 0 <= i < |groups| ==> (set x | x in groups[i].1) == PhotosOf(rows, groups[i].0))
  }

  lemma {:induction false} PersonsOfSnoc(rows: seq<Face>, r: Face)
    ensures PersonsOf(rows + [r]) == PersonsOf(rows) + {r.personId}
  {
    var rs := rows + [r];
    assert rs[|rows|] == r;
    forall p | p in PersonsOf(rows) ensures p in PersonsOf(rs) {
      var f :| 0 <= f < |rows| && rows[f].personId == p;
      assert rs[f] == rows[f];
    }
  }

  lemma {:induction false} PhotosOfSnoc(rows: seq<Face>, r: Face, p: Option<nat>)
    ensures PhotosOf(rows + [r], p) == PhotosOf(rows, p) + (if r.personId == p then {r.photoId} else {})
  {
    var rs := rows + [r];
    assert rs[|rows|] == r;
    forall x | x in PhotosOf(rows, p) ensures x in PhotosOf(rs, p) {
      var f :| 0 <= f < |rows| && rows[f].personId == p && rows[f].photoId == x;
      assert rs[f] == rows[f];
    }
    forall x | x in PhotosOf(rs, p) ensures x in PhotosOf(rows, p) + (if r.personId == p then {r.photoId} else {}) {
      var f :| 0 <= f < |rs| && rs[f].personId == p && rs[f].photoId == x;
      if f < |rows| { assert rs[f] == rows[f]; }
    }
  }

  lemma {:induction false} GroupIndexFinds(groups: seq<(Option<nat>, seq<nat>)>, i: nat)
    requires KeysDistinct(groups) && i < |groups|
    ensures GroupIndex(groups, groups[i].0) == Some(i)
  {
    if i > 0 {
      assert groups[0].0 != groups[i].0;
      assert groups[1..][i - 1] == groups[i];
      GroupIndexFinds(groups[1..], i - 1);
    }
  }

  /** One step of the loop keeps `groups` describing the rows read so far. */
  lemma {:induction false} GroupStepKeeps(groups: seq<(Option<nat>, seq<nat>)>, rows: seq<Face>, r: Face)
    requires GroupsOf(groups, rows)
    ensures GroupsOf(GroupStep(groups, r), rows + [r])
  {
    match GroupIndex(groups, r.personId) {
    case Some(j) => GroupStepKnown(groups, rows, r, j);
    case None => GroupStepNew(groups, rows, r);
    }
  }

  /** A row of a person already in the dict adds its photo to that key. */
  lemma {:induction false} GroupStepKnown(groups: seq<(Option<nat>, seq<nat>)>, rows: seq<Face>, r: Face, j: nat)
    requires GroupsOf(groups, rows)
    requires GroupIndex(groups, r.personId) == Some(j)
    ensures GroupsOf(groups[j := (r.personId, groups[j].1 + [r.photoId])], rows + [r])
  {
    var rs := rows + [r];
    var g := groups[j := (r.personId, groups[j].1 + [r.photoId])];
    PersonsOfSnoc(rows, r);
    forall i | 0 <= i < |g| ensures (set x | x in g[i].1) == PhotosOf(rs, g[i].0) {
      KnownPhotosAt(groups, rows, r, j, i);
    }
    forall f | 0 <= f < |rs| ensures GroupIndex(g, rs[f].personId).Some? {
      if f < |rows| {
        assert rs[f] == rows[f];
        var i := GroupIndex(groups, rows[f].personId).value;
        assert g[i].0 == groups[i].0;
      } else {
        assert g[j].0 == rs[f].personId;
      }
    }
  }

  /** The photos of key `i` after a row of the person at key `j`. */
  lemma {:induction false} KnownPhotosAt(groups: seq<(Option<nat>, seq<nat>)>, rows: seq<Face>, r: Face, j: nat, i: nat)
    requires GroupsOf(groups, rows)
    requires GroupIndex(groups, r.personId) == Some(j) && i < |groups|
    ensures var g := groups[j := (r.personId, groups[j].1 + [r.photoId])];
            (set x | x in g[i].1) == PhotosOf(rows + [r], g[i].0)
  {
    PhotosOfSnoc(rows, r, groups[i].0);
    if i == j {
      assert (set x | x in groups[i].1 + [r.photoId]) == (set x | x in groups[i].1) + {r.photoId};
    } else {
      assert groups[i].0 != groups[j].0;
    }
  }

  /** A row of a person not yet in the dict adds a key at the end. */
  lemma {:induction false} GroupStepNew(groups: seq<(Option<nat>, seq<nat>)>, rows: seq<Face>, r: Face)
    requires GroupsOf(groups, rows)
    requires GroupIndex(groups, r.personId).None?
    ensures GroupsOf(groups + [(r.personId, [r.photoId])], rows + [r])
  {
    var rs := rows + [r];
    var g := groups + [(r.personId, [r.photoId])];
    PersonsOfSnoc(rows, r);
    forall i | 0 <= i < |g| ensures (set x | x in g[i].1) == PhotosOf(rs, g[i].0) {
      PhotosOfSnoc(rows, r, g[i].0);
      if i == |groups| {
        forall f | 0 <= f < |rows| ensures rows[f].personId != r.personId {
          assert GroupIndex(groups, rows[f].personId).Some?;
        }
        assert PhotosOf(rows, r.personId) == {};
        assert (set x | x in [r.photoId]) == {r.photoId};
      }
    }
    forall f | 0 <= f < |rs| ensures GroupIndex(g, rs[f].personId).Some? {
      if f < |rows| {
        assert rs[f] == rows[f];
        var i := GroupIndex(groups, rows[f].personId).value;
        assert g[i].0 == groups[i].0;
      } else {
        assert g[|groups|].0 == rs[f].personId;
      }
    }
  }

  /** The finished dict describes every face row. */
  lemma {:induction false} GroupsDescribeRows(rows: seq<Face>)
    ensures GroupsOf(Groups(rows), rows)
  {
    if |rows| > 0 {
      var front := rows[..|rows| - 1];
      GroupsDescribeRows(front);
      GroupStepKeeps(Groups(front), front, rows[|rows| - 1]);
      assert front + [rows[|rows| - 1]] == rows;
    }
  }

  /** The report: each group with its photo list turned into a set. */
  function Report(groups: seq<(Option<nat>, seq<nat>)>): (r: seq<PersonGroup>)
    ensures |r| == |groups|
    ensures forall i :: 0 <= i < |r| ==> r[i].person == groups[i].0
  {
    seq(|groups|, i requires 0 <= i < |groups| => PersonGroup(groups[i].0, set x | x in groups[i].1))
  }

  /** One line per distinct `person_id` among the faces, None included, with
      exactly the photos its faces are in. */
  lemma {:induction false} ReportDescribesFaces(rows: seq<Face>)
    ensures var r := Report(Groups(rows));
            && (forall i, j :: 0 <= i < j < |r| ==> r[i].person != r[j].person)
            && (set i | 0 <= i < |r| :: r[i].person) == PersonsOf(rows)
            && forall i :: 0 <= i < |r| ==> r[i].photos == PhotosOf(rows, r[i].person)
  {
    var g := Groups(rows);
    var r := Report(g);
    GroupsDescribeRows(rows);
    forall p | p in PersonsOf(rows) ensures p in (set i | 0 <= i < |r| :: r[i].person) {
      var f :| 0 <= f < |rows| && rows[f].personId == p;
      var i := GroupIndex(g, p).value;
      assert r[i].person == p;
    }
  }

  /** `print_person_groups`: the groups of the face rows, unique photo ids per person. */
  method PrintPersonGroups(db: Database) returns (result: seq<PersonGroup>)
    ensures result == Report(Groups(db.faces))
  {
    var rows := db.faces;
    var groups: seq<(Option<nat>, seq<nat>)> := [];
    for k := 0 to |rows|
      invariant groups == Groups(rows[..k])
    {
      assert rows[..k + 1][..k] == rows[..k];
      var at := GroupIndex(groups, rows[k].personId);
      if at.Some? {
        groups := groups[at.value := (rows[k].personId, groups[at.value].1 + [rows[k].photoId])];
      } else {
        groups := groups + [(rows[k].personId, [rows[k].photoId])];
      }
    }
    assert rows[..|rows|] == rows;
    result := [];
    for i := 0 to |groups|
      invariant result == Report(groups[..i])
    {
      result := result + [PersonGroup(groups[i].0, set x | x in groups[i].1)];
    }
    assert groups[..|groups|] == groups;
  }
}
