/** Content hashing and face-row insertion for one photo, gated by the
    photo's `already_analyzed` flag. The detector and the embedding network
    are the parameter `detect`; SHA-256 is the parameter `sha256`. */
module FaceDetection {
  import opened Common
  import opened Files
  import opened Store
  import opened Geometry

  // ------------------------------------------------------------ hashing

  /** `BUF_SIZE = 65536`: 64 KB per read. */
  const BufSize: nat := 65536

  /** `f.read(n)` with the file positioned at `pos`: at most `n` bytes, fewer
      only at the end of the file. */
  function ReadChunk(content: seq<byte>, pos: nat, n: nat): (r: seq<byte>)
    requires pos <= |content|
    ensures |r| == (if pos + n <= |content| then n else |content| - pos)
    ensures r == content[pos..pos + |r|]
  {
    if pos + n <= |content| then content[pos..pos + n] else content[pos..]
  }

  function Concat(chunks: seq<seq<byte>>): seq<byte>
  {
    if |chunks| == 0 then [] else Concat(chunks[..|chunks| - 1]) + chunks[|chunks| - 1]
  }

  /** `compute_hash`: the file is read in chunks until a read comes back
      empty; every chunk is fed to the hasher. Returns the digest and the
      chunks in the order they were read. */
  method ComputeHash(content: seq<byte>, sha256: seq<byte> -> Digest)
    returns (digest: Digest, chunks: seq<seq<byte>>)
    ensures digest == sha256(content)
    ensures Concat(chunks) == content
    ensures forall i :: 0 <= i < |chunks| ==> 0 < |chunks[i]| <= BufSize
    ensures forall i :: 0 <= i < |chunks| - 1 ==> |chunks[i]| == BufSize
  {
    var absorbed: seq<byte> := [];
    var pos: nat := 0;
    chunks := [];
    var chunk := ReadChunk(content, pos, BufSize);
    while |chunk| > 0
      invariant pos <= |content|
      invariant absorbed == content[..pos] == Concat(chunks)
      invariant chunk == ReadChunk(content, pos, BufSize)
      invariant forall i :: 0 <= i < |chunks| ==> 0 < |chunks[i]| <= BufSize
      invariant forall i :: 0 <= i < |chunks| - 1 ==> |chunks[i]| == BufSize
      invariant |chunks| > 0 && |chunks[|chunks| - 1]| < BufSize ==> pos == |content|
      decreases |content| - pos
    {
      absorbed := absorbed + chunk;
      chunks := chunks + [chunk];
      assert content[..pos + |chunk|] == content[..pos] + chunk;
      pos := pos + |chunk|;
      chunk := ReadChunk(content, pos, BufSize);
    }
    assert content[..pos] == content;
    digest := sha256(absorbed);
  }

  // --------------------------------------------------------- detection

  /** One detected face: its `facial_area` and the embedding of its crop. */
  datatype DetectedFace = DetectedFace(box: Box, embedding: Embedding)

  /** `analyze_image` followed by `compute_embedding` per face: either an
      exception, or the faces found (possibly none). */
  datatype DetectResult = DetectFailed | Detected(faces: seq<DetectedFace>)

  /** What `process_photo` reports on standard output. */
  datatype Outcome = UnknownHash | AlreadyAnalyzed | NoFaces | FacesFound(count: nat) | AnalysisFailed

  /** `json.dumps([[int(x1), int(y1), int(x2), int(y2)]])`. */
  function BoxJson(b: Box): string
  {
    "[[" + JoinInts([b.left, b.top, b.right, b.bottom]) + "]]"
  }

  /** The items of a JSON list of integers, separated by `", "` as
      `json.dumps` writes them. */
  function JoinInts(xs: seq<int>): string
  {
    if |xs| == 0 then ""
    else if |xs| == 1 then IntToString(xs[0])
    else IntToString(xs[0]) + ", " + JoinInts(xs[1..])
  }

  /** What `process_photo` writes for one detected face: its embedding and
      its box as JSON text. */
  datatype FaceInsert = FaceInsert(embedding: Embedding, coords: Cell)

  function FaceInserts(faces: seq<DetectedFace>): (r: seq<FaceInsert>)
    ensures |r| == |faces|
    ensures forall k :: 0 <= k < |faces| ==>
              r[k] == FaceInsert(faces[k].embedding, CellText(BoxJson(faces[k].box)))
  {
    seq(|faces|, k requires 0 <= k < |faces| => FaceInsert(faces[k].embedding, CellText(BoxJson(faces[k].box))))
  }

  /** The `insert_face` calls for a photo, in order, each row unassigned. */
  function InsertFaces(t: Tables, photoId: nat, rows: seq<FaceInsert>): Tables
  {
    if |rows| == 0 then t
    else
      var f := rows[|rows| - 1];
      InsertFaceT(InsertFaces(t, photoId, rows[..|rows| - 1]), photoId, f.embedding, f.coords, None)
  }

  /** The tables after `process_photo` on a file. */
  function ProcessSpec(t: Tables, file: FileEntry, sha256: seq<byte> -> Digest,
                       detect: FileEntry -> DetectResult): Tables
  {
    match FindByHash(t.photos, sha256(file.content))
    case None => t
    case Some(i) =>
      if t.photos[i].alreadyAnalyzed then t
      else match detect(file)
        case DetectFailed => t
        case Detected(faces) =>
          MarkAnalyzedT(InsertFaces(t, t.photos[i].id, FaceInserts(faces)), t.photos[i].id)
  }

  /** What `process_photo` reports for a file, branch by branch. */
  function ProcessOutcome(t: Tables, file: FileEntry, sha256: seq<byte> -> Digest,
                          detect: FileEntry -> DetectResult): Outcome
  {
    match FindByHash(t.photos, sha256(file.content))
    case None => UnknownHash
    case Some(i) =>
      if t.photos[i].alreadyAnalyzed then AlreadyAnalyzed
      else match detect(file)
        case DetectFailed => AnalysisFailed
        case Detected(faces) => if |faces| == 0 then NoFaces else FacesFound(|faces|)
  }

  /** The report tells what was written: nothing exactly when the hash was
      unknown, the photo already analyzed or the analysis failed; only the
      mark when no face was found; otherwise `count` (at least one) new faces. */
  lemma {:induction false} OutcomeReportsEffect(t: Tables, file: FileEntry, sha256: seq<byte> -> Digest,
                                                detect: FileEntry -> DetectResult)
    requires ValidTables(t)
    ensures var o := ProcessOutcome(t, file, sha256, detect);
            var r := ProcessSpec(t, file, sha256, detect);
            && (o.UnknownHash? <==> GetByHash(t, sha256(file.content)).None?)
            && (o.UnknownHash? || o.AlreadyAnalyzed? || o.AnalysisFailed? <==> r == t)
            && (o.NoFaces? ==> r.faces == t.faces && r.people == t.people)
            && (o.FacesFound? ==> 0 < o.count && |r.faces| == |t.faces| + o.count)
  {
    ProcessGate(t, file, sha256, detect);
    var i := FindByHash(t.photos, sha256(file.content));
    if i.Some? && !t.photos[i.value].alreadyAnalyzed && detect(file).Detected? {
      ProcessSuccess(t, file, sha256, detect);
      var r := ProcessSpec(t, file, sha256, detect);
      assert r.photos[i.value].alreadyAnalyzed != t.photos[i.value].alreadyAnalyzed;
      if |detect(file).faces| == 0 {
        assert r.faces == r.faces[..|t.faces|];
      }
    }
  }

  /** The face rows for `rows`, numbered on from `next`. */
  function FaceRows(next: nat, photoId: nat, rows: seq<FaceInsert>): (r: seq<Face>)
    ensures |r| == |rows|
    ensures forall k :: 0 <= k < |rows| ==>
              r[k] == Face(next + k, photoId, rows[k].embedding, rows[k].coords, None)
  {
    seq(|rows|, k requires 0 <= k < |rows| => Face(next + k, photoId, rows[k].embedding, rows[k].coords, None))
  }

  /** The inserts append one face row per item, in order, with consecutive
      ids, and change nothing else. */
  lemma {:induction false} InsertFacesEffect(t: Tables, photoId: nat, rows: seq<FaceInsert>)
    ensures InsertFaces(t, photoId, rows) ==
              t.(faces := t.faces + FaceRows(t.nextFaceId, photoId, rows),
                 nextFaceId := t.nextFaceId + |rows|)
  {
    if |rows| > 0 {
      var front := rows[..|rows| - 1];
      var f := rows[|rows| - 1];
      InsertFacesEffect(t, photoId, front);
      var p := InsertFaces(t, photoId, front);
      var row := Face(p.nextFaceId, photoId, f.embedding, f.coords, None);
      assert InsertFaces(t, photoId, rows) == p.(faces := p.faces + [row], nextFaceId := p.nextFaceId + 1);
      FaceRowsSnoc(t.nextFaceId, photoId, rows);
      assert t.faces + FaceRows(t.nextFaceId, photoId, front) + [row]
             == t.faces + (FaceRows(t.nextFaceId, photoId, front) + [row]);
    }
  }

  lemma {:induction false} FaceRowsSnoc(next: nat, photoId: nat, rows: seq<FaceInsert>)
    requires |rows| > 0
    ensures var f := rows[|rows| - 1];
            FaceRows(next, photoId, rows) ==
              FaceRows(next, photoId, rows[..|rows| - 1]) + [Face(next + |rows| - 1, photoId, f.embedding, f.coords, None)]
  {
    var front := rows[..|rows| - 1];
    var f := rows[|rows| - 1];
    var a := FaceRows(next, photoId, rows);
    var b := FaceRows(next, photoId, front) + [Face(next + |rows| - 1, photoId, f.embedding, f.coords, None)];
    forall k | 0 <= k < |rows| ensures a[k] == b[k] {
      if k < |front| { assert front[k] == rows[k]; }
    }
  }

  lemma {:induction false} InsertFacesKeepsValid(t: Tables, photoId: nat, rows: seq<FaceInsert>)
    requires ValidTables(t)
    ensures ValidTables(InsertFaces(t, photoId, rows))
  {
    if |rows| > 0 {
      InsertFacesKeepsValid(t, photoId, rows[..|rows| - 1]);
    }
  }

  /** The gate: nothing changes when no photo has the file's hash, when that
      photo is already analyzed, or when analysis fails; after a failure the
      photo is still not analyzed, so a later run tries it again. */
  lemma {:induction false} ProcessGate(t: Tables, file: FileEntry, sha256: seq<byte> -> Digest,
                    detect: FileEntry -> DetectResult)
    ensures GetByHash(t, sha256(file.content)).None? ==> ProcessSpec(t, file, sha256, detect) == t
    ensures GetByHash(t, sha256(file.content)).Some? && GetByHash(t, sha256(file.content)).value.alreadyAnalyzed
            ==> ProcessSpec(t, file, sha256, detect) == t
    ensures detect(file).DetectFailed? ==> ProcessSpec(t, file, sha256, detect) == t
    ensures ProcessSpec(t, file, sha256, detect) != t ==>
              && GetByHash(t, sha256(file.content)).Some?
              && !GetByHash(t, sha256(file.content)).value.alreadyAnalyzed
              && detect(file).Detected?
  {
  }

  /** A successful analysis of an unanalyzed photo appends one unassigned
      face row per detected face, with the box as JSON text, marks that photo
      (and only it) analyzed, and leaves people alone; with no faces found
      only the mark is written. */
  lemma {:induction false} ProcessSuccess(t: Tables, file: FileEntry, sha256: seq<byte> -> Digest,
                       detect: FileEntry -> DetectResult)
    requires ValidTables(t)
    requires FindByHash(t.photos, sha256(file.content)).Some?
    requires !t.photos[FindByHash(t.photos, sha256(file.content)).value].alreadyAnalyzed
    requires detect(file).Detected?
    ensures var i := FindByHash(t.photos, sha256(file.content)).value;
            var faces := detect(file).faces;
            var r := ProcessSpec(t, file, sha256, detect);
            && r.people == t.people && r.nextPersonId == t.nextPersonId
            && |r.photos| == |t.photos|
            && r.photos[i] == t.photos[i].(alreadyAnalyzed := true)
            && (forall j :: 0 <= j < |t.photos| && j != i ==> r.photos[j] == t.photos[j])
            && |r.faces| == |t.faces| + |faces|
            && r.faces[..|t.faces|] == t.faces
            && (forall k :: 0 <= k < |faces| ==>
                  r.faces[|t.faces| + k] == Face(t.nextFaceId + k, t.photos[i].id, faces[k].embedding,
                                                 CellText(BoxJson(faces[k].box)), None))
            && r.nextFaceId == t.nextFaceId + |faces|
  {
    var i := FindByHash(t.photos, sha256(file.content)).value;
    InsertFacesEffect(t, t.photos[i].id, FaceInserts(detect(file).faces));
  }

  lemma {:induction false} MarkAnalyzedKeepsValid(t: Tables, id: nat)
    requires ValidTables(t)
    ensures ValidTables(MarkAnalyzedT(t, id))
  {
    var r := MarkAnalyzedT(t, id);
    assert forall j :: 0 <= j < |t.photos| ==> r.photos[j].id == t.photos[j].id && r.photos[j].hash == t.photos[j].hash;
  }

  lemma {:induction false} ProcessKeepsValid(t: Tables, file: FileEntry, sha256: seq<byte> -> Digest,
                          detect: FileEntry -> DetectResult)
    requires ValidTables(t)
    ensures ValidTables(ProcessSpec(t, file, sha256, detect))
  {
    match FindByHash(t.photos, sha256(file.content))
    case None =>
    case Some(i) =>
      if !t.photos[i].alreadyAnalyzed && detect(file).Detected? {
        var inserted := InsertFaces(t, t.photos[i].id, FaceInserts(detect(file).faces));
        InsertFacesKeepsValid(t, t.photos[i].id, FaceInserts(detect(file).faces));
        MarkAnalyzedKeepsValid(inserted, t.photos[i].id);
      }
  }

  /** A photo is analyzed at most once: once `process_photo` has written
      anything, processing any file with the same bytes (from any folder,
      under any name) changes nothing. */
  lemma {:induction false} AnalyzedAtMostOnce(t: Tables, file: FileEntry, again: FileEntry, sha256: seq<byte> -> Digest,
                           detect: FileEntry -> DetectResult)
    requires ValidTables(t)
    requires again.content == file.content
    requires ProcessSpec(t, file, sha256, detect) != t
    ensures var r := ProcessSpec(t, file, sha256, detect);
            ProcessSpec(r, again, sha256, detect) == r
  {
    var h := sha256(file.content);
    var i := FindByHash(t.photos, h).value;
    ProcessSuccess(t, file, sha256, detect);
    var r := ProcessSpec(t, file, sha256, detect);
    assert FindByHash(r.photos, h) == Some(i) by {
      FindByHashSameHashes(t.photos, r.photos, h);
    }
  }

  /** `process_photo`. */
  method ProcessPhoto(db: Database, file: FileEntry, sha256: seq<byte> -> Digest,
                      detect: FileEntry -> DetectResult) returns (outcome: Outcome)
    requires db.Valid()
    modifies db
    ensures db.Snapshot() == ProcessSpec(old(db.Snapshot()), file, sha256, detect)
    ensures outcome == ProcessOutcome(old(db.Snapshot()), file, sha256, detect)
    ensures db.Valid()
  {
    ghost var t := db.Snapshot();
    ProcessKeepsValid(t, file, sha256, detect);
    var fileHash, _ := ComputeHash(file.content, sha256);
    var row := FindByHash(db.photos, fileHash);
    if row.None? {
      return UnknownHash;
    }
    var photo := db.photos[row.value];
    if photo.alreadyAnalyzed {
      return AlreadyAnalyzed;
    }
    var result := detect(file);
    if result.DetectFailed? {
      return AnalysisFailed;
    }
    var faces := result.faces;
    if |faces| == 0 {
      db.MarkAnalyzed(photo.id);
      return NoFaces;
    }
    InsertDetectedFaces(db, photo.id, faces);
    db.MarkAnalyzed(photo.id);
    outcome := FacesFound(|faces|);
  }

  /** The loop of `process_photo` over the detected faces: one `insert_face`
      per face with its box as JSON text and no person. */
  method InsertDetectedFaces(db: Database, photoId: nat, faces: seq<DetectedFace>)
    modifies db
    ensures db.Snapshot() == InsertFaces(old(db.Snapshot()), photoId, FaceInserts(faces))
  {
    ghost var t := db.Snapshot();
    ghost var rows := FaceInserts(faces);
    for k := 0 to |faces|
      invariant db.Snapshot() == InsertFaces(t, photoId, rows[..k])
    {
      InsertFacesSnoc(t, photoId, rows, k);
      var _ := db.InsertFace(photoId, faces[k].embedding, CellText(BoxJson(faces[k].box)), None);
    }
    assert rows[..|faces|] == rows;
  }

  /** The insert loop one face further. */
  lemma {:induction false} InsertFacesSnoc(t: Tables, photoId: nat, rows: seq<FaceInsert>, k: nat)
    requires k < |rows|
    ensures InsertFaces(t, photoId, rows[..k + 1]) ==
              InsertFaceT(InsertFaces(t, photoId, rows[..k]), photoId, rows[k].embedding, rows[k].coords, None)
  {
    assert rows[..k + 1][..k] == rows[..k];
  }

  /** `process_faces` over a folder: every image file in directory order. */
  function ProcessAll(t: Tables, files: seq<FileEntry>, sha256: seq<byte> -> Digest,
                      detect: FileEntry -> DetectResult): Tables
  {
    if |files| == 0 then t
    else ProcessSpec(ProcessAll(t, files[..|files| - 1], sha256, detect), files[|files| - 1], sha256, detect)
  }

  /** `process_faces`: `process_photo` on each `.jpg`/`.jpeg`/`.png` file of
      the folder, other entries ignored. */
  method ProcessFaces(db: Database, folder: seq<FileEntry>, sha256: seq<byte> -> Digest,
                      detect: FileEntry -> DetectResult)
    requires db.Valid()
    modifies db
    ensures db.Snapshot() == ProcessAll(old(db.Snapshot()), ImageFiles(folder), sha256, detect)
    ensures db.Valid()
  {
    var images := ImageFiles(folder);
    for k := 0 to |images|
      invariant db.Valid()
      invariant db.Snapshot() == ProcessAll(old(db.Snapshot()), images[..k], sha256, detect)
    {
      assert images[..k + 1][..k] == images[..k];
      var _ := ProcessPhoto(db, images[k], sha256, detect);
    }
    assert images[..|images|] == images;
  }
}
