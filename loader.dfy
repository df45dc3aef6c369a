/** `load_photos`: keep the files of a directory whose suffix is supported,
    that open and that carry GPS coordinates, in listing order. */
module Loader {
  import opened Common
  import opened Exif
  import opened Paths

  const Supported: set<string> := {".heic", ".heif", ".jpg", ".jpeg", ".png"}

  /** One directory entry: its name, whether the image opens, and the GPS IFD
      and EXIF dictionary the image yields. */
  datatype FileEntry = FileEntry(name: string, opens: bool, gps: map<int, GpsValue>, exif: map<int, string>)

  /** `path.suffix.lower() in SUPPORTED`. */
  predicate IsSupported(name: string)
  {
    Lower(Suffix(name)) in Supported
  }

  /** The filter ignores case: a name passes exactly when its lower-cased
      form does. */
  lemma SupportedIgnoresCase(name: string)
    ensures IsSupported(Lower(name)) == IsSupported(name)
  {
    SuffixOfLower(name);
    LowerIdempotent(Suffix(name));
  }

  /** A file that yields a photo record. */
  predicate Keeps(f: FileEntry)
  {
    IsSupported(f.name) && f.opens && ExtractGps(f.gps).Some?
  }

  function ToPhoto(f: FileEntry, parse: Parser): Photo
    requires ExtractGps(f.gps).Some?
  {
    Photo(f.name, ExtractGps(f.gps).value, FirstParsed(f.exif, DatetimeTags, parse))
  }

  /** The photo records of `files`, in order. */
  function Loaded(files: seq<FileEntry>, parse: Parser): seq<Photo>
  {
    if files == [] then []
    else
      var last := files[|files| - 1];
      Loaded(files[..|files| - 1], parse) + (if Keeps(last) then [ToPhoto(last, parse)] else [])
  }

  /** A photo is loaded exactly when some kept file yields it, and no more
      photos than files are loaded. */
  lemma {:induction false} LoadedExactlyKept(files: seq<FileEntry>, parse: Parser)
    ensures |Loaded(files, parse)| <= |files|
    ensures forall p :: p in Loaded(files, parse) <==>
      exists i | 0 <= i < |files| :: Keeps(files[i]) && ToPhoto(files[i], parse) == p
  {
    if files != [] {
      var init := files[..|files| - 1];
      LoadedExactlyKept(init, parse);
      assert forall i | 0 <= i < |init| :: init[i] == files[i];
    }
  }

  /** The indices of the elements of `s` that `keep` accepts, in order. */
  function Positions<T>(s: seq<T>, keep: T -> bool): seq<nat>
  {
    if s == [] then []
    else Positions(s[..|s| - 1], keep) + (if keep(s[|s| - 1]) then [|s| - 1] else [])
  }

  /** Those indices increase strictly and are exactly the accepted elements. */
  lemma {:induction false} PositionsExact<T>(s: seq<T>, keep: T -> bool)
    ensures var idx := Positions(s, keep);
      && (forall t | 0 <= t < |idx| :: idx[t] < |s| && keep(s[idx[t]]))
      && (forall t, u | 0 <= t < u < |idx| :: idx[t] < idx[u])
      && (forall k | 0 <= k < |s| :: k in idx <==> keep(s[k]))
  {
    if s != [] {
      var init := s[..|s| - 1];
      PositionsExact(init, keep);
      var idx0 := Positions(init, keep);
      var tail := if keep(s[|s| - 1]) then [|s| - 1] else [];
      assert Positions(s, keep) == idx0 + tail;
      assert forall k | 0 <= k < |init| :: init[k] == s[k];
    }
  }

  /** The indices of the kept files, in listing order. */
  function KeptIndices(files: seq<FileEntry>): seq<nat>
  {
    Positions(files, Keeps)
  }

  /** The kept indices increase strictly and are exactly the kept files. */
  lemma KeptIndicesExact(files: seq<FileEntry>)
    ensures var idx := KeptIndices(files);
      && (forall t | 0 <= t < |idx| :: idx[t] < |files| && Keeps(files[idx[t]]))
      && (forall t, u | 0 <= t < u < |idx| :: idx[t] < idx[u])
      && (forall k | 0 <= k < |files| :: k in idx <==> Keeps(files[k]))
  {
    PositionsExact(files, Keeps);
  }

  /** The loaded photos are the records of the kept files, one per file, in
      listing order: the t-th photo is the record of the t-th kept file, and
      with `KeptIndicesExact` these are all kept files, by increasing index. */
  lemma {:induction false} LoadedIsKeptSubsequence(files: seq<FileEntry>, parse: Parser)
    ensures var idx := KeptIndices(files);
      && |idx| == |Loaded(files, parse)|
      && (forall t | 0 <= t < |idx| ::
            idx[t] < |files| && Keeps(files[idx[t]]) && Loaded(files, parse)[t] == ToPhoto(files[idx[t]], parse))
  {
    KeptIndicesExact(files);
    if files != [] {
      var init := files[..|files| - 1];
      var last := files[|files| - 1];
      LoadedIsKeptSubsequence(init, parse);
      KeptIndicesExact(init);
      var idx0, l0 := KeptIndices(init), Loaded(init, parse);
      var idx, l := KeptIndices(files), Loaded(files, parse);
      assert idx == idx0 + (if Keeps(last) then [|files| - 1] else []);
      assert l == l0 + (if Keeps(last) then [ToPhoto(last, parse)] else []);
      forall t | 0 <= t < |idx|
        ensures l[t] == ToPhoto(files[idx[t]], parse)
      {
        if t < |idx0| {
          assert idx[t] == idx0[t] && l[t] == l0[t] && files[idx0[t]] == init[idx0[t]];
        }
      }
    }
  }

  /** Every loaded photo comes from a file with a supported suffix. */
  lemma {:induction false} LoadedNamesSupported(files: seq<FileEntry>, parse: Parser)
    ensures forall p | p in Loaded(files, parse) :: IsSupported(p.name)
  {
    LoadedExactlyKept(files, parse);
  }

  /** `load_photos`: an absent directory gives no photos. */
  method LoadPhotos(dirExists: bool, files: seq<FileEntry>, parse: Parser) returns (photos: seq<Photo>)
    ensures photos == if dirExists then Loaded(files, parse) else []
  {
    photos := [];
    if !dirExists {
      return;
    }
    for i := 0 to |files|
      invariant photos == Loaded(files[..i], parse)
    {
      var f := files[i];
      assert files[..i + 1][..i] == files[..i];
      if !IsSupported(f.name) {
        continue;
      }
      if !f.opens {
        continue;
      }
      var coords := ExtractGps(f.gps);
      if coords.None? {
        continue;
      }
      var taken := ExtractDatetime(f.exif, parse);
      photos := photos + [Photo(f.name, coords.value, taken)];
    }
    assert files[..|files|] == files;
  }

  /** Upper-case suffixes are accepted; a name that is only a suffix, such
      as ".jpg", has none in pathlib and is skipped. */
  lemma SuffixExamples()
    ensures IsSupported("IMG_0001.HEIC")
    ensures IsSupported("sign.tar.jpg")
    ensures !IsSupported(".jpg")
    ensures !IsSupported("notes.txt")
  {
    var a, b, c, d := "IMG_0001.HEIC", "sign.tar.jpg", ".jpg", "notes.txt";
    assert a[8] == '.' && a[9] != '.' && a[10] != '.' && a[11] != '.' && a[12] != '.';
    assert LastIndexOf(a, '.') == 8;
    assert a[8..] == ".HEIC";
    assert Lower(".HEIC") == ".heic";
    assert b[8] == '.' && b[9] != '.' && b[10] != '.' && b[11] != '.';
    assert LastIndexOf(b, '.') == 8;
    assert b[8..] == ".jpg";
    assert Lower(".jpg") == ".jpg";
    assert c[0] == '.' && c[1] != '.' && c[2] != '.' && c[3] != '.';
    assert LastIndexOf(c, '.') == 0;
    assert d[5] == '.' && d[6] != '.' && d[7] != '.' && d[8] != '.';
    assert LastIndexOf(d, '.') == 5;
    assert d[5..] == ".txt";
    assert Lower(".txt") == ".txt";
  }
}
