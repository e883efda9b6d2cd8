/** The photo, face and person tables and the row-level operations the
    controller, the detector and the clustering step issue against them
    (the repositories' shared base class and the database's helpers, which
    these modules call, are given here the meaning of the SQL they stand for). */
module Store {
  import opened Common
  import opened Files

  /** A face embedding or a person centroid; its float32 byte encoding is not modelled. */
  type Embedding = seq<real>

  /** `sha256.hexdigest()`. */
  type Digest = string

  /** A decoded JSON value; a JSON number with a fraction or an exponent is a
      finite `JFloat`, held exactly (`NaN` and `Infinity` are not modelled). */
  datatype Json =
    | JNull
    | JBool(b: bool)
    | JInt(i: int)
    | JFloat(x: real)
    | JStr(s: string)
    | JList(items: seq<Json>)
    | JObject(fields: seq<(string, Json)>)

  /** What the driver hands back for the `face_coords` column: NULL, text,
      or an already decoded JSON value. */
  datatype Cell = CellNull | CellText(text: string) | CellJson(json: Json)

  datatype Photo = Photo(id: nat, path: string, filename: string, hash: Digest,
                         city: Option<string>, country: Option<string>,
                         time: Option<string>, width: Option<int>, height: Option<int>,
                         alreadyAnalyzed: bool)

  datatype Face = Face(id: nat, photoId: nat, embedding: Embedding, coords: Cell,
                       personId: Option<nat>)

  datatype Person = Person(id: nat, name: string, centroid: Option<Embedding>)

  /** The three tables in row order, with the next value of each id sequence. */
  datatype Tables = Tables(photos: seq<Photo>, faces: seq<Face>, people: seq<Person>,
                           nextPhotoId: nat, nextFaceId: nat, nextPersonId: nat)

  predicate PhotoIdsOk(ps: seq<Photo>, next: nat)
  {
    && (forall i :: 0 <= i < |ps| ==> ps[i].id < next)
    && (forall i, j :: 0 <= i < j < |ps| ==> ps[i].id != ps[j].id)
  }

  /** The deduplication invariant: no two photos share a content hash. */
  predicate HashesUnique(ps: seq<Photo>)
  {
    forall i, j :: 0 <= i < j < |ps| ==> ps[i].hash != ps[j].hash
  }

  predicate FaceIdsOk(fs: seq<Face>, next: nat)
  {
    && (forall i :: 0 <= i < |fs| ==> fs[i].id < next)
    && (forall i, j :: 0 <= i < j < |fs| ==> fs[i].id != fs[j].id)
  }

  predicate PersonIdsOk(ps: seq<Person>, next: nat)
  {
    && (forall i :: 0 <= i < |ps| ==> ps[i].id < next)
    && (forall i, j :: 0 <= i < j < |ps| ==> ps[i].id != ps[j].id)
  }

  /** Primary keys are unique and below their sequence; hashes are unique. */
  predicate ValidTables(t: Tables)
  {
    && PhotoIdsOk(t.photos, t.nextPhotoId)
    && HashesUnique(t.photos)
    && FaceIdsOk(t.faces, t.nextFaceId)
    && PersonIdsOk(t.people, t.nextPersonId)
  }

  // ---------------------------------------------------------------- queries

  /** The row `SELECT ... FROM photos WHERE hash = h` returns first. */
  function FindByHash(ps: seq<Photo>, h: Digest): (r: Option<nat>)
    ensures r.Some? ==> r.value < |ps| && ps[r.value].hash == h
                        && forall k :: 0 <= k < r.value ==> ps[k].hash != h
    ensures r.None? ==> forall k :: 0 <= k < |ps| ==> ps[k].hash != h
  {
    if |ps| == 0 then None
    else if ps[0].hash == h then Some(0)
    else match FindByHash(ps[1..], h)
      case Some(k) => Some(k + 1)
      case None => None
  }

  /** Rewriting photo rows without touching their hashes does not move a hash lookup. */
  lemma {:induction false} FindByHashSameHashes(ps: seq<Photo>, qs: seq<Photo>, h: Digest)
    requires |ps| == |qs|
    requires forall j :: 0 <= j < |ps| ==> qs[j].hash == ps[j].hash
    ensures FindByHash(qs, h) == FindByHash(ps, h)
  {
    if |ps| > 0 && ps[0].hash != h {
      FindByHashSameHashes(ps[1..], qs[1..], h);
    }
  }

  /** Appending a row with a new hash makes the lookup find that row. */
  lemma {:induction false} FindByHashAppendNew(ps: seq<Photo>, p: Photo, h: Digest)
    requires FindByHash(ps, h).None? && p.hash == h
    ensures FindByHash(ps + [p], h) == Some(|ps|)
  {
    if |ps| > 0 {
      assert (ps + [p])[1..] == ps[1..] + [p];
      FindByHashAppendNew(ps[1..], p, h);
    }
  }

  /** Appending a row does not move a lookup that already succeeds. */
  lemma {:induction false} FindByHashAppendOld(ps: seq<Photo>, p: Photo, h: Digest)
    requires FindByHash(ps, h).Some?
    ensures FindByHash(ps + [p], h) == FindByHash(ps, h)
  {
    if ps[0].hash != h {
      assert (ps + [p])[1..] == ps[1..] + [p];
      FindByHashAppendOld(ps[1..], p, h);
    }
  }

  function GetByHash(t: Tables, h: Digest): Option<Photo>
  {
    match FindByHash(t.photos, h)
    case Some(i) => Some(t.photos[i])
    case None => None
  }

  /** The `path` of the photo with the given id. */
  function PhotoPath(ps: seq<Photo>, photoId: nat): Option<string>
  {
    if |ps| == 0 then None
    else if ps[0].id == photoId then Some(ps[0].path)
    else PhotoPath(ps[1..], photoId)
  }

  /** A row of `get_faces_by_person_id`: the face's coordinates and its photo's path. */
  datatype FaceRow = FaceRow(coords: Cell, path: Option<string>)

  /** The faces assigned to a person, in table order, joined with their photo's path. */
  function FacesByPersonId(fs: seq<Face>, ps: seq<Photo>, personId: nat): (r: seq<FaceRow>)
    ensures |r| <= |fs|
  {
    if |fs| == 0 then []
    else
      var rest := FacesByPersonId(fs[1..], ps, personId);
      if fs[0].personId == Some(personId)
      then [FaceRow(fs[0].coords, PhotoPath(ps, fs[0].photoId))] + rest
      else rest
  }

  // ---------------------------------------------------------------- updates

  /** `UPDATE photos SET path, filename [, city, country] WHERE id = id`. */
  function Refreshed(p: Photo, path: string, filename: string,
                     location: Option<(Option<string>, Option<string>)>): Photo
  {
    match location
    case None => p.(path := path, filename := filename)
    case Some(loc) => p.(path := path, filename := filename, city := loc.0, country := loc.1)
  }

  function UpdatePhotoT(t: Tables, id: nat, path: string, filename: string,
                        location: Option<(Option<string>, Option<string>)>): Tables
  {
    t.(photos := seq(|t.photos|, i requires 0 <= i < |t.photos| =>
         if t.photos[i].id == id then Refreshed(t.photos[i], path, filename, location)
         else t.photos[i]))
  }

  /** `INSERT INTO photos`: a new, not yet analyzed row with the next id. */
  function InsertPhotoT(t: Tables, path: string, filename: string, hash: Digest,
                        meta: Metadata): Tables
  {
    t.(photos := t.photos + [Photo(t.nextPhotoId, path, filename, hash, City(meta),
                                   Country(meta), meta.time, meta.width, meta.height,
                                   false)],
       nextPhotoId := t.nextPhotoId + 1)
  }

  /** `UPDATE photos SET already_analyzed = 1 WHERE id = id`. */
  function MarkAnalyzedT(t: Tables, id: nat): Tables
  {
    t.(photos := seq(|t.photos|, i requires 0 <= i < |t.photos| =>
         if t.photos[i].id == id then t.photos[i].(alreadyAnalyzed := true)
         else t.photos[i]))
  }

  /** `insert_face(photo_id, embedding, coords, person_id)`. */
  function InsertFaceT(t: Tables, photoId: nat, embedding: Embedding, coords: Cell,
                       personId: Option<nat>): Tables
  {
    t.(faces := t.faces + [Face(t.nextFaceId, photoId, embedding, coords, personId)],
       nextFaceId := t.nextFaceId + 1)
  }

  /** `UPDATE faces SET person_id = personId WHERE id = faceId`. */
  function SetFacePersonT(t: Tables, faceId: nat, personId: nat): Tables
  {
    t.(faces := seq(|t.faces|, i requires 0 <= i < |t.faces| =>
         if t.faces[i].id == faceId then t.faces[i].(personId := Some(personId))
         else t.faces[i]))
  }

  /** `insert_person(name, avg_embedding)`, which returns the new id. */
  function InsertPersonT(t: Tables, name: string, centroid: Option<Embedding>): Tables
  {
    t.(people := t.people + [Person(t.nextPersonId, name, centroid)],
       nextPersonId := t.nextPersonId + 1)
  }

  /** The people table after `UPDATE people SET avg_embedding = c WHERE id = id`. */
  function UpdateCentroidIn(ps: seq<Person>, id: nat, c: Option<Embedding>): (r: seq<Person>)
    ensures |r| == |ps|
    ensures forall i :: 0 <= i < |ps| ==> r[i].id == ps[i].id && r[i].name == ps[i].name
  {
    seq(|ps|, i requires 0 <= i < |ps| =>
      if ps[i].id == id then ps[i].(centroid := c) else ps[i])
  }

  /** With unique ids, updating by the id of row `j` rewrites row `j` alone. */
  lemma {:induction false} UpdateCentroidAt(ps: seq<Person>, next: nat, j: nat, c: Option<Embedding>)
    requires PersonIdsOk(ps, next) && j < |ps|
    ensures UpdateCentroidIn(ps, ps[j].id, c) == ps[j := ps[j].(centroid := c)]
  {
  }

  // ---------------------------------------------- the tables as one object

  class Database {
    var photos: seq<Photo>
    var faces: seq<Face>
    var people: seq<Person>
    var nextPhotoId: nat
    var nextFaceId: nat
    var nextPersonId: nat

    function Snapshot(): Tables
      reads this
    {
      Tables(photos, faces, people, nextPhotoId, nextFaceId, nextPersonId)
    }

    predicate Valid()
      reads this
    {
      ValidTables(Snapshot())
    }

    constructor ()
      ensures Valid()
      ensures Snapshot() == Tables([], [], [], 0, 0, 0)
    {
      photos, faces, people := [], [], [];
      nextPhotoId, nextFaceId, nextPersonId := 0, 0, 0;
    }

    method UpdatePhoto(id: nat, path: string, filename: string,
                       location: Option<(Option<string>, Option<string>)>)
      modifies this
      ensures Snapshot() == UpdatePhotoT(old(Snapshot()), id, path, filename, location)
    {
      photos := UpdatePhotoT(Snapshot(), id, path, filename, location).photos;
    }

    method InsertPhoto(path: string, filename: string, hash: Digest, meta: Metadata)
      returns (id: nat)
      modifies this
      ensures id == old(nextPhotoId)
      ensures Snapshot() == InsertPhotoT(old(Snapshot()), path, filename, hash, meta)
    {
      id := nextPhotoId;
      photos := photos + [Photo(id, path, filename, hash, City(meta), Country(meta),
                                meta.time, meta.width, meta.height, false)];
      nextPhotoId := nextPhotoId + 1;
    }

    method MarkAnalyzed(id: nat)
      modifies this
      ensures Snapshot() == MarkAnalyzedT(old(Snapshot()), id)
    {
      photos := MarkAnalyzedT(Snapshot(), id).photos;
    }

    method InsertFace(photoId: nat, embedding: Embedding, coords: Cell,
                      personId: Option<nat>) returns (id: nat)
      modifies this
      ensures id == old(nextFaceId)
      ensures Snapshot() == InsertFaceT(old(Snapshot()), photoId, embedding, coords, personId)
    {
      id := nextFaceId;
      faces := faces + [Face(id, photoId, embedding, coords, personId)];
      nextFaceId := nextFaceId + 1;
    }

    method UpdateFacePerson(faceId: nat, personId: nat)
      modifies this
      ensures Snapshot() == SetFacePersonT(old(Snapshot()), faceId, personId)
    {
      faces := SetFacePersonT(Snapshot(), faceId, personId).faces;
    }

    method InsertPerson(name: string, centroid: Option<Embedding>) returns (id: nat)
      modifies this
      ensures id == old(nextPersonId)
      ensures Snapshot() == InsertPersonT(old(Snapshot()), name, centroid)
    {
      id := nextPersonId;
      people := people + [Person(id, name, centroid)];
      nextPersonId := nextPersonId + 1;
    }

    method UpdatePersonCentroid(id: nat, centroid: Option<Embedding>)
      modifies this
      ensures Snapshot() == old(Snapshot()).(people := UpdateCentroidIn(old(people), id, centroid))
    {
      people := UpdateCentroidIn(people, id, centroid);
    }
  }
}
