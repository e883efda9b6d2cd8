/** The photo controller: metadata scanning with hash-keyed deduplication,
    the person thumbnail (largest face, widened and clamped crop), and the
    order of the steps that analyze a folder. Reading EXIF data and
    geocoding are folded into each file's `meta`; `json.loads` is the
    parameter `loads` and `Image.open` the parameter `openImage`, which
    yields the image's width and height or fails. */
module PhotoController {
  import opened Common
  import opened Files
  import opened Store
  import opened Geometry
  import opened FaceDetection
  import opened FaceClustering

  // ---------------------------------------------------- metadata scanning

  /** One file's metadata scan: a photo with the file's hash has its path
      and filename (and, when `refreshLocation`, its city and country)
      rewritten in place; a new hash inserts one not-yet-analyzed photo. */
  function ScanSpec(t: Tables, f: FileEntry, sha256: seq<byte> -> Digest, refreshLocation: bool): Tables
  {
    var h := sha256(f.content);
    match FindByHash(t.photos, h)
    case Some(i) =>
      UpdatePhotoT(t, t.photos[i].id, f.path, f.name,
                   if refreshLocation then Some((City(f.meta), Country(f.meta))) else None)
    case None => InsertPhotoT(t, f.path, f.name, h, f.meta)
  }

  /** A known hash rewrites that photo alone and inserts nothing. */
  lemma {:induction false} ScanExisting(t: Tables, f: FileEntry, sha256: seq<byte> -> Digest, refreshLocation: bool)
    requires ValidTables(t)
    requires FindByHash(t.photos, sha256(f.content)).Some?
    ensures var i := FindByHash(t.photos, sha256(f.content)).value;
            var r := ScanSpec(t, f, sha256, refreshLocation);
            && r == t.(photos := r.photos)
            && |r.photos| == |t.photos|
            && r.photos[i] == Refreshed(t.photos[i], f.path, f.name,
                                        if refreshLocation then Some((City(f.meta), Country(f.meta))) else None)
            && forall j :: 0 <= j < |t.photos| && j != i ==> r.photos[j] == t.photos[j]
  {
  }

  /** A new hash appends exactly one photo, unanalyzed, with the next id. */
  lemma {:induction false} ScanNew(t: Tables, f: FileEntry, sha256: seq<byte> -> Digest, refreshLocation: bool)
    requires FindByHash(t.photos, sha256(f.content)).None?
    ensures var r := ScanSpec(t, f, sha256, refreshLocation);
            && r.photos == t.photos + [Photo(t.nextPhotoId, f.path, f.name, sha256(f.content),
                                             City(f.meta), Country(f.meta), f.meta.time,
                                             f.meta.width, f.meta.height, false)]
            && r == t.(photos := r.photos, nextPhotoId := t.nextPhotoId + 1)
  {
  }

  /** After a scan the file's hash is in the table, on the row that already
      had it or on the row just appended, and the other rows keep their hashes. */
  lemma {:induction false} ScanRecordsHash(t: Tables, f: FileEntry, sha256: seq<byte> -> Digest, refreshLocation: bool)
    requires ValidTables(t)
    ensures var h := sha256(f.content);
            var r := ScanSpec(t, f, sha256, refreshLocation);
            && FindByHash(r.photos, h).Some?
            && FindByHash(r.photos, h) ==
                 (if FindByHash(t.photos, h).Some? then FindByHash(t.photos, h) else Some(|t.photos|))
            && r.photos[FindByHash(r.photos, h).value].alreadyAnalyzed ==
                 (FindByHash(t.photos, h).Some? && t.photos[FindByHash(t.photos, h).value].alreadyAnalyzed)
            && |t.photos| <= |r.photos|
            && forall j :: 0 <= j < |t.photos| ==> r.photos[j].hash == t.photos[j].hash
  {
    var h := sha256(f.content);
    var r := ScanSpec(t, f, sha256, refreshLocation);
    match FindByHash(t.photos, h)
    case Some(i) =>
      ScanExisting(t, f, sha256, refreshLocation);
      FindByHashSameHashes(t.photos, r.photos, h);
    case None =>
      FindByHashAppendNew(t.photos, r.photos[|t.photos|], h);
      assert r.photos == t.photos + [r.photos[|t.photos|]];
  }

  /** The deduplication invariant survives a scan. */
  lemma {:induction false} ScanKeepsValid(t: Tables, f: FileEntry, sha256: seq<byte> -> Digest, refreshLocation: bool)
    requires ValidTables(t)
    ensures ValidTables(ScanSpec(t, f, sha256, refreshLocation))
  {
    if FindByHash(t.photos, sha256(f.content)).Some? {
      ScanExisting(t, f, sha256, refreshLocation);
    }
  }

  /** Scanning a file whose bytes were already scanned, under any path or
      name, never adds a photo. */
  lemma {:induction false} RescanNeverGrows(t: Tables, f: FileEntry, again: FileEntry, sha256: seq<byte> -> Digest,
                         refreshLocation: bool)
    requires ValidTables(t)
    requires again.content == f.content
    ensures var r := ScanSpec(t, f, sha256, refreshLocation);
            |ScanSpec(r, again, sha256, refreshLocation).photos| == |r.photos|
  {
    ScanRecordsHash(t, f, sha256, refreshLocation);
    ScanKeepsValid(t, f, sha256, refreshLocation);
    var r := ScanSpec(t, f, sha256, refreshLocation);
    ScanExisting(r, again, sha256, refreshLocation);
  }

  /** `_scan_metadata` raises a TypeError when the geocoding lookup failed:
      unpacking the None that `get_location` then returns fails before
      anything is written. */
  predicate ScanRaises(f: FileEntry)
  {
    f.meta.location.None?
  }

  /** `_scan_metadata`: `ok` is false where it raises, and the tables are then
      untouched. */
  method ScanMetadata(db: Database, f: FileEntry, sha256: seq<byte> -> Digest) returns (ok: bool)
    requires db.Valid()
    modifies db
    ensures ok <==> !ScanRaises(f)
    ensures db.Snapshot() == if ok then ScanSpec(old(db.Snapshot()), f, sha256, true) else old(db.Snapshot())
    ensures db.Valid()
  {
    ScanKeepsValid(db.Snapshot(), f, sha256, true);
    var hashVal, _ := ComputeHash(f.content, sha256);
    if ScanRaises(f) {
      return false;
    }
    ok := true;
    var existing := FindByHash(db.photos, hashVal);
    if existing.Some? {
      db.UpdatePhoto(db.photos[existing.value].id, f.path, f.name, Some((City(f.meta), Country(f.meta))));
    } else {
      var _ := db.InsertPhoto(f.path, f.name, hashVal, f.meta);
    }
  }

  // ------------------------------------------------------ face coordinates

  /** The Python value of `row["face_coords"]`: NULL is None, text is a str. */
  function RawCoords(c: Cell): Json
  {
    match c
    case CellNull => JNull
    case CellText(s) => JStr(s)
    case CellJson(j) => j
  }

  /** `coords` after the decoding step: a str is parsed, and parsed once more
      when the result is itself a str; None where `json.loads` raises. */
  function DecodeCoords(c: Cell, loads: string -> Option<Json>): Option<Json>
  {
    match RawCoords(c)
    case JStr(s) =>
      (match loads(s)
       case Some(JStr(inner)) => loads(inner)
       case other => other)
    case raw => Some(raw)
  }

  /** A number as Python arithmetic sees it (`bool` is an `int`). */
  function AsInt(j: Json): Option<int>
  {
    match j
    case JInt(i) => Some(i)
    case JBool(b) => Some(if b then 1 else 0)
    case _ => None
  }

  /** The box a row contributes, or None when the row is skipped: falsy
      coordinates (`continue`) and every shape on which unpacking
      `coords[0]` or computing the area raises. Only a non-empty list whose
      first item is a list of exactly four numbers yields a box. */
  function FaceBox(c: Cell, loads: string -> Option<Json>): Option<Box>
  {
    match DecodeCoords(c, loads)
    case Some(JList(items)) =>
      if |items| > 0 && items[0].JList? && |items[0].items| == 4 then
        var xs := items[0].items;
        if AsInt(xs[0]).Some? && AsInt(xs[1]).Some? && AsInt(xs[2]).Some? && AsInt(xs[3]).Some? then
          Some(Box(AsInt(xs[0]).value, AsInt(xs[1]).value, AsInt(xs[2]).value, AsInt(xs[3]).value))
        else None
      else None
    case _ => None
  }

  /** Only a non-empty list whose first item lists exactly four numbers yields a box. */
  lemma {:induction false} FaceBoxShape(c: Cell, loads: string -> Option<Json>)
    ensures FaceBox(c, loads).Some? <==>
              exists items, xs :: DecodeCoords(c, loads) == Some(JList(items)) && |items| > 0
                                  && items[0] == JList(xs) && |xs| == 4
                                  && forall k :: 0 <= k < 4 ==> AsInt(xs[k]).Some?
    ensures FaceBox(c, loads).Some? ==>
              var xs := DecodeCoords(c, loads).value.items[0].items;
              FaceBox(c, loads).value == Box(AsInt(xs[0]).value, AsInt(xs[1]).value,
                                             AsInt(xs[2]).value, AsInt(xs[3]).value)
  {
    if FaceBox(c, loads).Some? {
      var items := DecodeCoords(c, loads).value.items;
      var xs := items[0].items;
      assert forall k :: 0 <= k < 4 ==> AsInt(xs[k]).Some? by {
        assert xs == [xs[0], xs[1], xs[2], xs[3]];
      }
    }
  }

  // ----------------------------------------------------- thumbnail choice

  /** The face the loop currently holds: its box, its photo's path, its row. */
  datatype Pick = Pick(box: Box, path: Option<string>, index: nat)

  /** `biggest_area`: -1 before any face is taken. */
  function BestArea(p: Option<Pick>): int
  {
    if p.None? then -1 else Area(p.value.box)
  }

  /** The loop over the rows: a row replaces the held face only when its area
      is strictly greater. */
  function Biggest(rows: seq<FaceRow>, loads: string -> Option<Json>): Option<Pick>
  {
    if |rows| == 0 then None
    else
      var prev := Biggest(rows[..|rows| - 1], loads);
      var last := rows[|rows| - 1];
      match FaceBox(last.coords, loads)
      case Some(b) => if Area(b) > BestArea(prev) then Some(Pick(b, last.path, |rows| - 1)) else prev
      case None => prev
  }

  /** A row that can be chosen: a usable box of area at least 0 (the loop
      starts from -1 and takes strictly greater areas). */
  predicate Candidate(rows: seq<FaceRow>, loads: string -> Option<Json>, k: int)
    requires 0 <= k < |rows|
  {
    FaceBox(rows[k].coords, loads).Some? && Area(FaceBox(rows[k].coords, loads).value) >= 0
  }

  /** The choice is the first row of maximal area among the rows with a
      usable box, and there is none exactly when no row is a candidate. */
  lemma {:induction false} BiggestIsFirstMaximal(rows: seq<FaceRow>, loads: string -> Option<Json>)
    ensures var p := Biggest(rows, loads);
            && (p.None? <==> forall k :: 0 <= k < |rows| ==> !Candidate(rows, loads, k))
            && (p.Some? ==>
                  && p.value.index < |rows|
                  && FaceBox(rows[p.value.index].coords, loads) == Some(p.value.box)
                  && p.value.path == rows[p.value.index].path
                  && Area(p.value.box) >= 0
                  && (forall k :: 0 <= k < |rows| && FaceBox(rows[k].coords, loads).Some? ==>
                        Area(FaceBox(rows[k].coords, loads).value) <= Area(p.value.box))
                  && (forall k :: 0 <= k < p.value.index && FaceBox(rows[k].coords, loads).Some? ==>
                        Area(FaceBox(rows[k].coords, loads).value) < Area(p.value.box)))
  {
    if |rows| > 0 {
      var front := rows[..|rows| - 1];
      var last := |rows| - 1;
      BiggestIsFirstMaximal(front, loads);
      var prev := Biggest(front, loads);
      var p := Biggest(rows, loads);
      var lb := FaceBox(rows[last].coords, loads);
      forall k | 0 <= k < |front|
        ensures front[k] == rows[k] && (Candidate(front, loads, k) <==> Candidate(rows, loads, k))
      {
      }
      if lb.Some? && Area(lb.value) > BestArea(prev) {
        assert p == Some(Pick(lb.value, rows[last].path, last));
        assert Candidate(rows, loads, last);
        forall k | 0 <= k < |rows| && FaceBox(rows[k].coords, loads).Some?
          ensures Area(FaceBox(rows[k].coords, loads).value) <= Area(lb.value)
        {
          if k < last && prev.None? {
            assert !Candidate(front, loads, k);
          }
        }
      } else {
        assert p == prev;
        if prev.None? {
          assert !Candidate(rows, loads, last);
        } else {
          forall k | 0 <= k < |rows| && FaceBox(rows[k].coords, loads).Some?
            ensures Area(FaceBox(rows[k].coords, loads).value) <= Area(p.value.box)
          {
          }
        }
      }
    }
  }

  /** What `get_person_thumbnail` returns: the chosen face's photo and the
      crop box (the EXIF transpose of the cropped image is not modelled). */
  datatype Thumbnail = Thumbnail(path: string, crop: Box)

  /** `get_person_thumbnail`. */
  method GetPersonThumbnail(db: Database, personId: nat, loads: string -> Option<Json>,
                            openImage: string -> Option<(int, int)>) returns (r: Option<Thumbnail>)
    ensures var pick := Biggest(FacesByPersonId(db.faces, db.photos, personId), loads);
            && (pick.None? || pick.value.path.None? ==> r.None?)
            && (pick.Some? && pick.value.path.Some? ==>
                  match openImage(pick.value.path.value)
                  case None => r.None?
                  case Some(size) =>
                    var crop := CropBox(pick.value.box, size.0, size.1);
                    r == if Croppable(crop) then Some(Thumbnail(pick.value.path.value, crop)) else None)
  {
    var rows := FacesByPersonId(db.faces, db.photos, personId);
    if |rows| == 0 {
      return None;
    }
    var biggestArea := -1;
    var biggestFace: Option<Box> := None;
    var biggestPath: Option<string> := None;
    ghost var pick: Option<Pick> := None;
    for i := 0 to |rows|
      invariant pick == Biggest(rows[..i], loads)
      invariant biggestArea == BestArea(pick)
      invariant biggestFace == if pick.None? then None else Some(pick.value.box)
      invariant biggestPath == if pick.None? then None else pick.value.path
    {
      assert rows[..i + 1][..i] == rows[..i];
      var box := FaceBox(rows[i].coords, loads);
      if box.Some? {
        var area := Area(box.value);
        if area > biggestArea {
          biggestArea := area;
          biggestFace := box;
          biggestPath := rows[i].path;
          pick := Some(Pick(box.value, rows[i].path, i));
        }
      }
    }
    assert rows[..|rows|] == rows;
    if biggestFace.None? || biggestPath.None? {
      return None;
    }
    var img := openImage(biggestPath.value);
    if img.None? {
      return None;
    }
    var crop := CropBox(biggestFace.value, img.value.0, img.value.1);
    if !Croppable(crop) {
      return None;
    }
    r := Some(Thumbnail(biggestPath.value, crop));
  }

  // ------------------------------------------------------ analyzing a folder

  /** Metadata first, then (when enabled) face detection, for one file. */
  function IngestOne(t: Tables, f: FileEntry, detectFaces: bool, sha256: seq<byte> -> Digest,
                     detect: FileEntry -> DetectResult): Tables
  {
    var scanned := ScanSpec(t, f, sha256, true);
    if detectFaces then ProcessSpec(scanned, f, sha256, detect) else scanned
  }

  function Ingest(t: Tables, files: seq<FileEntry>, detectFaces: bool, sha256: seq<byte> -> Digest,
                  detect: FileEntry -> DetectResult): Tables
  {
    if |files| == 0 then t
    else IngestOne(Ingest(t, files[..|files| - 1], detectFaces, sha256, detect), files[|files| - 1],
                   detectFaces, sha256, detect)
  }

  lemma {:induction false} IngestKeepsValid(t: Tables, files: seq<FileEntry>, detectFaces: bool,
                                            sha256: seq<byte> -> Digest, detect: FileEntry -> DetectResult)
    requires ValidTables(t)
    ensures ValidTables(Ingest(t, files, detectFaces, sha256, detect))
  {
    if |files| > 0 {
      var f := files[|files| - 1];
      IngestKeepsValid(t, files[..|files| - 1], detectFaces, sha256, detect);
      var p := Ingest(t, files[..|files| - 1], detectFaces, sha256, detect);
      ScanKeepsValid(p, f, sha256, true);
      ProcessKeepsValid(ScanSpec(p, f, sha256, true), f, sha256, detect);
    }
  }

  /** Because the scan runs first, detection always finds the file's photo:
      afterwards the photo with the file's hash exists, and it is analyzed
      exactly when it already was or detection succeeded. */
  lemma {:induction false} ScanBeforeDetection(t: Tables, f: FileEntry, sha256: seq<byte> -> Digest,
                            detect: FileEntry -> DetectResult)
    requires ValidTables(t)
    ensures var h := sha256(f.content);
            var r := IngestOne(t, f, true, sha256, detect);
            var before := GetByHash(t, h);
            && FindByHash(r.photos, h).Some?
            && (r.photos[FindByHash(r.photos, h).value].alreadyAnalyzed <==>
                  (before.Some? && before.value.alreadyAnalyzed) || detect(f).Detected?)
  {
    var h := sha256(f.content);
    ScanRecordsHash(t, f, sha256, true);
    ScanKeepsValid(t, f, sha256, true);
    var s := ScanSpec(t, f, sha256, true);
    var i := FindByHash(s.photos, h).value;
    if !s.photos[i].alreadyAnalyzed && detect(f).Detected? {
      ProcessSuccess(s, f, sha256, detect);
      var r := ProcessSpec(s, f, sha256, detect);
      FindByHashSameHashes(s.photos, r.photos, h);
    }
  }

  /** How a call ends: the callback gets `(1.0, "No photos found")` or
      `(1.0, "Done!")`; `Raised` is the TypeError of a failing metadata scan,
      which leaves `analyze_folder` unhandled. */
  datatype Status = NoPhotosFound | Done | Raised

  /** The position of the first file whose metadata scan raises. */
  function FirstScanFailure(files: seq<FileEntry>): (r: Option<nat>)
    ensures r.Some? ==> r.value < |files| && ScanRaises(files[r.value])
                        && forall j :: 0 <= j < r.value ==> !ScanRaises(files[j])
    ensures r.None? ==> forall j :: 0 <= j < |files| ==> !ScanRaises(files[j])
  {
    if |files| == 0 then None
    else if ScanRaises(files[0]) then Some(0)
    else match FirstScanFailure(files[1..])
         case Some(k) => Some(k + 1)
         case None => None
  }

  /** `analyze_folder`: no image files, no change; otherwise every image file
      is scanned and (when enabled) analyzed, in directory order, and with
      detection enabled the faces are clustered and assigned once, at the end.
      A scan that raises ends the call: the files before it stay scanned and
      analyzed, and clustering does not run.
      `cluster` stands for the clustering algorithm: one label per embedding. */
  function AnalyzeSpec(t: Tables, folder: seq<FileEntry>, detectFaces: bool, sha256: seq<byte> -> Digest,
                       detect: FileEntry -> DetectResult, cluster: seq<Embedding> -> seq<int>,
                       dist: (Embedding, Embedding) -> real, mean: seq<Embedding> -> Embedding): Tables
    requires ValidTables(t)
    requires forall es :: |cluster(es)| == |es|
  {
    var images := ImageFiles(folder);
    if |images| == 0 then t
    else match FirstScanFailure(images)
      case Some(k) => Ingest(t, images[..k], detectFaces, sha256, detect)
      case None =>
        var ingested := Ingest(t, images, detectFaces, sha256, detect);
        IngestKeepsValid(t, images, detectFaces, sha256, detect);
        if detectFaces then AssignSpec(ingested, cluster(Embeddings(ingested.faces)), dist, mean)
        else ingested
  }

  lemma {:induction false} IngestWithoutDetection(t: Tables, files: seq<FileEntry>, sha256: seq<byte> -> Digest,
                                                  detect: FileEntry -> DetectResult)
    ensures var r := Ingest(t, files, false, sha256, detect);
            r.faces == t.faces && r.people == t.people
            && r.nextFaceId == t.nextFaceId && r.nextPersonId == t.nextPersonId
  {
    if |files| > 0 {
      IngestWithoutDetection(t, files[..|files| - 1], sha256, detect);
    }
  }

  /** With detection off only photos change: faces and people stay as they were. */
  lemma {:induction false} AnalyzeWithoutDetection(t: Tables, folder: seq<FileEntry>, sha256: seq<byte> -> Digest,
                                detect: FileEntry -> DetectResult, cluster: seq<Embedding> -> seq<int>,
                                dist: (Embedding, Embedding) -> real, mean: seq<Embedding> -> Embedding)
    requires ValidTables(t)
    requires forall es :: |cluster(es)| == |es|
    ensures var r := AnalyzeSpec(t, folder, false, sha256, detect, cluster, dist, mean);
            r.faces == t.faces && r.people == t.people
  {
    var images := ImageFiles(folder);
    IngestWithoutDetection(t, images, sha256, detect);
    if FirstScanFailure(images).Some? {
      IngestWithoutDetection(t, images[..FirstScanFailure(images).value], sha256, detect);
    }
  }

  /** `r` has the people of `t`, keeps the faces of `t` as they are, and
      every face it adds has no person. */
  predicate OnlyUnassignedFacesAdded(t: Tables, r: Tables)
  {
    && r.people == t.people && r.nextPersonId == t.nextPersonId
    && |t.faces| <= |r.faces| && r.faces[..|t.faces|] == t.faces
    && forall j :: |t.faces| <= j < |r.faces| ==> r.faces[j].personId.None?
  }

  lemma {:induction false} OnlyUnassignedFacesAddedTrans(a: Tables, b: Tables, c: Tables)
    requires OnlyUnassignedFacesAdded(a, b) && OnlyUnassignedFacesAdded(b, c)
    ensures OnlyUnassignedFacesAdded(a, c)
  {
    assert c.faces[..|a.faces|] == c.faces[..|b.faces|][..|a.faces|];
    forall j | |a.faces| <= j < |c.faces| ensures c.faces[j].personId.None? {
      if j < |b.faces| {
        assert c.faces[j] == c.faces[..|b.faces|][j];
      }
    }
  }

  /** One file's detection creates no person and assigns no face. */
  lemma {:induction false} ProcessKeepsPeople(s: Tables, f: FileEntry, sha256: seq<byte> -> Digest,
                                              detect: FileEntry -> DetectResult)
    requires ValidTables(s)
    ensures OnlyUnassignedFacesAdded(s, ProcessSpec(s, f, sha256, detect))
  {
    var i := FindByHash(s.photos, sha256(f.content));
    if i.Some? && !s.photos[i.value].alreadyAnalyzed && detect(f).Detected? {
      ProcessSuccess(s, f, sha256, detect);
      var r := ProcessSpec(s, f, sha256, detect);
      var faces := detect(f).faces;
      forall j | |s.faces| <= j < |r.faces| ensures r.faces[j].personId.None? {
        var k := j - |s.faces|;
        assert r.faces[|s.faces| + k] == Face(s.nextFaceId + k, s.photos[i.value].id, faces[k].embedding,
                                              CellText(BoxJson(faces[k].box)), None);
      }
    } else {
      ProcessGate(s, f, sha256, detect);
      assert s.faces[..|s.faces|] == s.faces;
    }
  }

  /** One file's scan and detection create no person and assign no face. */
  lemma {:induction false} IngestOneKeepsPeople(t: Tables, f: FileEntry, detectFaces: bool,
                                                sha256: seq<byte> -> Digest, detect: FileEntry -> DetectResult)
    requires ValidTables(t)
    ensures OnlyUnassignedFacesAdded(t, IngestOne(t, f, detectFaces, sha256, detect))
  {
    var s := ScanSpec(t, f, sha256, true);
    if FindByHash(t.photos, sha256(f.content)).Some? {
      ScanExisting(t, f, sha256, true);
    } else {
      ScanNew(t, f, sha256, true);
    }
    assert t.faces[..|t.faces|] == t.faces;
    assert OnlyUnassignedFacesAdded(t, s);
    if detectFaces {
      ScanKeepsValid(t, f, sha256, true);
      ProcessKeepsPeople(s, f, sha256, detect);
      OnlyUnassignedFacesAddedTrans(t, s, ProcessSpec(s, f, sha256, detect));
    }
  }

  /** The first raising scan is the one at `k` when no file before it raises. */
  lemma {:induction false} FirstScanFailureAt(files: seq<FileEntry>, k: nat)
    requires k < |files| && ScanRaises(files[k])
    requires forall j :: 0 <= j < k ==> !ScanRaises(files[j])
    ensures FirstScanFailure(files) == Some(k)
  {
    if k > 0 {
      FirstScanFailureAt(files[1..], k - 1);
    }
  }

  /** No scan fails when no file's scan raises. */
  lemma {:induction false} NoScanFailure(files: seq<FileEntry>)
    requires forall j :: 0 <= j < |files| ==> !ScanRaises(files[j])
    ensures FirstScanFailure(files).None?
  {
    if |files| > 0 {
      NoScanFailure(files[1..]);
    }
  }

  /** Scanning and detecting alone create no person and assign no face. */
  lemma {:induction false} IngestKeepsPeople(t: Tables, files: seq<FileEntry>, detectFaces: bool,
                                             sha256: seq<byte> -> Digest, detect: FileEntry -> DetectResult)
    requires ValidTables(t)
    ensures OnlyUnassignedFacesAdded(t, Ingest(t, files, detectFaces, sha256, detect))
  {
    if |files| == 0 {
      assert t.faces[..|t.faces|] == t.faces;
    } else {
      var front := files[..|files| - 1];
      IngestKeepsPeople(t, front, detectFaces, sha256, detect);
      IngestKeepsValid(t, front, detectFaces, sha256, detect);
      var p := Ingest(t, front, detectFaces, sha256, detect);
      IngestOneKeepsPeople(p, files[|files| - 1], detectFaces, sha256, detect);
      OnlyUnassignedFacesAddedTrans(t, p, Ingest(t, files, detectFaces, sha256, detect));
    }
  }

  /** A call cut short by a failing metadata scan never clusters: no person is
      created or changed and no face gets a person. */
  lemma {:induction false} RaisedScanSkipsClustering(t: Tables, folder: seq<FileEntry>, detectFaces: bool,
                                  sha256: seq<byte> -> Digest, detect: FileEntry -> DetectResult,
                                  cluster: seq<Embedding> -> seq<int>,
                                  dist: (Embedding, Embedding) -> real, mean: seq<Embedding> -> Embedding)
    requires ValidTables(t)
    requires forall es :: |cluster(es)| == |es|
    requires FirstScanFailure(ImageFiles(folder)).Some?
    ensures OnlyUnassignedFacesAdded(t, AnalyzeSpec(t, folder, detectFaces, sha256, detect, cluster, dist, mean))
  {
    var images := ImageFiles(folder);
    IngestKeepsPeople(t, images[..FirstScanFailure(images).value], detectFaces, sha256, detect);
  }

  /** Every image file of the folder ends up with a photo row of its hash. */
  lemma {:induction false} IngestRecordsEveryHash(t: Tables, files: seq<FileEntry>, detectFaces: bool,
                                                  sha256: seq<byte> -> Digest, detect: FileEntry -> DetectResult)
    requires ValidTables(t)
    ensures var r := Ingest(t, files, detectFaces, sha256, detect);
            forall k :: 0 <= k < |files| ==> FindByHash(r.photos, sha256(files[k].content)).Some?
  {
    if |files| > 0 {
      var front := files[..|files| - 1];
      var f := files[|files| - 1];
      IngestRecordsEveryHash(t, front, detectFaces, sha256, detect);
      IngestKeepsValid(t, front, detectFaces, sha256, detect);
      var p := Ingest(t, front, detectFaces, sha256, detect);
      ScanRecordsHash(p, f, sha256, true);
      var s := ScanSpec(p, f, sha256, true);
      var r := IngestOne(p, f, detectFaces, sha256, detect);
      ScanKeepsValid(p, f, sha256, true);
      KeepsHashesAfterDetection(s, f, sha256, detect);
      forall k | 0 <= k < |files|
        ensures FindByHash(r.photos, sha256(files[k].content)).Some?
      {
        var h := sha256(files[k].content);
        if k < |front| {
          assert front[k] == files[k];
          var j := FindByHash(p.photos, h).value;
          assert s.photos[j].hash == h;
        }
        var j := FindByHash(s.photos, h);
        if j.None? {
          assert k == |files| - 1;
        }
        assert r.photos[FindByHash(s.photos, h).value].hash == h;
      }
    }
  }

  /** Face detection rewrites no photo hash and removes no photo row. */
  lemma {:induction false} KeepsHashesAfterDetection(s: Tables, f: FileEntry, sha256: seq<byte> -> Digest,
                                  detect: FileEntry -> DetectResult)
    requires ValidTables(s)
    ensures var r := ProcessSpec(s, f, sha256, detect);
            |r.photos| == |s.photos| && forall j :: 0 <= j < |s.photos| ==> r.photos[j].hash == s.photos[j].hash
  {
    var i := FindByHash(s.photos, sha256(f.content));
    if i.Some? && !s.photos[i.value].alreadyAnalyzed && detect(f).Detected? {
      ProcessSuccess(s, f, sha256, detect);
    }
  }

  /** `analyze_folder`. */
  /** Ingesting one more file of a list. */
  lemma {:induction false} IngestPrefixStep(t: Tables, files: seq<FileEntry>, i: nat, detectFaces: bool,
                                            sha256: seq<byte> -> Digest, detect: FileEntry -> DetectResult)
    requires i < |files|
    ensures Ingest(t, files[..i + 1], detectFaces, sha256, detect)
            == IngestOne(Ingest(t, files[..i], detectFaces, sha256, detect), files[i], detectFaces, sha256, detect)
  {
    assert files[..i + 1][..i] == files[..i];
  }

  /** One turn of the loop of `analyze_folder`: scan the file, then (when
      enabled) analyze it; `ok` is false where the scan raised. */
  method IngestFile(db: Database, f: FileEntry, detectFaces: bool, sha256: seq<byte> -> Digest,
                    detect: FileEntry -> DetectResult) returns (ok: bool)
    requires db.Valid()
    modifies db
    ensures ok <==> !ScanRaises(f)
    ensures db.Snapshot() == if ok then IngestOne(old(db.Snapshot()), f, detectFaces, sha256, detect)
                             else old(db.Snapshot())
    ensures db.Valid()
  {
    ok := ScanMetadata(db, f, sha256);
    if ok && detectFaces {
      var _ := ProcessPhoto(db, f, sha256, detect);
    }
  }

  /** The loop of `analyze_folder` over the image files: it stops at the
      first file whose scan raises, having ingested the files before it. */
  method IngestFiles(db: Database, files: seq<FileEntry>, detectFaces: bool, sha256: seq<byte> -> Digest,
                     detect: FileEntry -> DetectResult) returns (raisedAt: Option<nat>)
    requires db.Valid()
    modifies db
    ensures raisedAt == FirstScanFailure(files)
    ensures db.Snapshot() == Ingest(old(db.Snapshot()), if raisedAt.Some? then files[..raisedAt.value] else files,
                                    detectFaces, sha256, detect)
    ensures db.Valid()
  {
    ghost var t := db.Snapshot();
    for i := 0 to |files|
      invariant forall j :: 0 <= j < i ==> !ScanRaises(files[j])
      invariant db.Snapshot() == Ingest(t, files[..i], detectFaces, sha256, detect)
    {
      IngestKeepsValid(t, files[..i], detectFaces, sha256, detect);
      IngestPrefixStep(t, files, i, detectFaces, sha256, detect);
      var ok := IngestFile(db, files[i], detectFaces, sha256, detect);
      if !ok {
        FirstScanFailureAt(files, i);
        return Some(i);
      }
      assert forall j :: 0 <= j < i + 1 ==> !ScanRaises(files[j]);
    }
    assert files[..|files|] == files;
    IngestKeepsValid(t, files, detectFaces, sha256, detect);
    NoScanFailure(files);
    raisedAt := None;
  }

  method AnalyzeFolder(db: Database, folder: seq<FileEntry>, detectFaces: bool, sha256: seq<byte> -> Digest,
                       detect: FileEntry -> DetectResult, cluster: seq<Embedding> -> seq<int>,
                       dist: (Embedding, Embedding) -> real, mean: seq<Embedding> -> Embedding)
    returns (status: Status)
    requires db.Valid()
    requires forall es :: |cluster(es)| == |es|
    modifies db
    ensures db.Snapshot() == AnalyzeSpec(old(db.Snapshot()), folder, detectFaces, sha256, detect,
                                         cluster, dist, mean)
    ensures status == if |ImageFiles(folder)| == 0 then NoPhotosFound
                      else if FirstScanFailure(ImageFiles(folder)).Some? then Raised
                      else Done
    ensures db.Valid()
  {
    var imagePaths := ImageFiles(folder);
    if |imagePaths| == 0 {
      return NoPhotosFound;
    }
    ghost var t := db.Snapshot();
    IngestKeepsValid(t, imagePaths, detectFaces, sha256, detect);
    var raisedAt := IngestFiles(db, imagePaths, detectFaces, sha256, detect);
    if raisedAt.Some? {
      return Raised;
    }
    if detectFaces {
      var labels := cluster(Embeddings(db.faces));
      var _ := AssignPersonIds(db, labels, dist, mean);
    }
    status := Done;
  }

}
