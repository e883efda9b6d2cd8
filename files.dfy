/** Directory entries as the ingestion code sees them through `pathlib`,
    and the image-extension filter shared by every folder scan. */
module Files {
  import opened Common

  /** What the metadata reader reports for one file: its EXIF date, its size
      (None and None where Pillow cannot open it), and its reverse-geocoded
      city and country. `location` is None where the geocoding lookup raised,
      since `get_location` then returns the result of `print`. Reading EXIF and
      geocoding are not modelled. */
  datatype Metadata = Metadata(time: Option<string>, width: Option<int>, height: Option<int>,
                               location: Option<(Option<string>, Option<string>)>)

  /** The city a photo row records: NULL where the lookup gave none. */
  function City(m: Metadata): Option<string>
  {
    if m.location.Some? then m.location.value.0 else None
  }

  /** The country a photo row records: NULL where the lookup gave none. */
  function Country(m: Metadata): Option<string>
  {
    if m.location.Some? then m.location.value.1 else None
  }

  /** One entry of `folder.iterdir()`: `str(path)`, `path.name`, `path.is_file()`,
      the file's bytes and its metadata. */
  datatype FileEntry = FileEntry(path: string, name: string, isFile: bool,
                                 content: seq<byte>, meta: Metadata)

  /** `name.rfind('.')`. */
  function LastDot(s: string): (r: Option<nat>)
    ensures r.Some? ==> r.value < |s| && s[r.value] == '.'
                        && forall k :: r.value < k < |s| ==> s[k] != '.'
    ensures r.None? ==> forall k :: 0 <= k < |s| ==> s[k] != '.'
  {
    if |s| == 0 then None
    else if s[|s| - 1] == '.' then Some(|s| - 1)
    else LastDot(s[..|s| - 1])
  }

  /** `PurePath.suffix`: the final dot-suffix, empty when the only dot
      leads the name or ends it. */
  function Suffix(name: string): string
  {
    match LastDot(name)
    case Some(i) => if 0 < i < |name| - 1 then name[i..] else ""
    case None => ""
  }

  const ImageSuffixes: seq<string> := [".jpg", ".jpeg", ".png"]

  /** `p.is_file() and p.suffix.lower() in [".jpg", ".jpeg", ".png"]`. */
  predicate IsImageFile(f: FileEntry)
  {
    f.isFile && Lower(Suffix(f.name)) in ImageSuffixes
  }

  /** The entries a scan visits, in directory order. */
  function ImageFiles(files: seq<FileEntry>): (r: seq<FileEntry>)
    ensures forall f :: f in r <==> f in files && IsImageFile(f)
    ensures |r| <= |files|
  {
    if |files| == 0 then []
    else if IsImageFile(files[0]) then [files[0]] + ImageFiles(files[1..])
    else ImageFiles(files[1..])
  }

  /** Filtering a folder one more entry at a time. */
  lemma {:induction false} ImageFilesSnoc(files: seq<FileEntry>, f: FileEntry)
    ensures ImageFiles(files + [f]) == ImageFiles(files) + (if IsImageFile(f) then [f] else [])
  {
    if |files| > 0 {
      assert (files + [f])[1..] == files[1..] + [f];
      ImageFilesSnoc(files[1..], f);
    }
  }

  predicate EndsWithIgnoringCase(name: string, ext: string)
  {
    |name| > |ext| && Lower(name[|name| - |ext|..]) == ext
  }

  /** Only the leading character of an image extension is a dot. */
  lemma {:induction false} ImageSuffixShape(e: string)
    requires e in ImageSuffixes
    ensures |e| >= 2 && e[0] == '.'
    ensures forall k :: 0 < k < |e| ==> e[k] != '.'
  {
  }

  /** A lower-cased character is a dot only when it was one. */
  lemma {:induction false} LowerKeepsDot(c: char)
    ensures LowerChar(c) == '.' <==> c == '.'
  {
  }

  lemma {:induction false} SuffixOfEnding(name: string, e: string)
    requires e in ImageSuffixes && EndsWithIgnoringCase(name, e)
    ensures Lower(Suffix(name)) == e
  {
    ImageSuffixShape(e);
    var i := |name| - |e|;
    var tail := name[i..];
    assert Lower(tail) == e;
    assert LowerChar(name[i]) == '.' by { assert tail[0] == name[i]; }
    LowerKeepsDot(name[i]);
    forall k | i < k < |name|
      ensures name[k] != '.'
    {
      assert tail[k - i] == name[k];
      assert LowerChar(name[k]) == e[k - i];
      LowerKeepsDot(name[k]);
    }
    assert LastDot(name) == Some(i);
  }

  lemma {:induction false} EndingOfSuffix(name: string)
    requires Lower(Suffix(name)) in ImageSuffixes
    ensures EndsWithIgnoringCase(name, Lower(Suffix(name)))
  {
    var i := LastDot(name).value;
    assert Suffix(name) == name[i..];
  }

  /** A name passes the filter exactly when it ends, case-insensitively, with
      one of the three extensions and has at least one character before it
      (so a hidden file called ".jpg" is not an image). */
  lemma {:induction false} ImageNameIff(name: string)
    ensures Lower(Suffix(name)) in ImageSuffixes
            <==> exists e :: e in ImageSuffixes && EndsWithIgnoringCase(name, e)
  {
    if Lower(Suffix(name)) in ImageSuffixes {
      EndingOfSuffix(name);
    }
    if e :| e in ImageSuffixes && EndsWithIgnoringCase(name, e) {
      SuffixOfEnding(name, e);
    }
  }
}
