/**
 * One run of the generator (`main`): convert the HEIC images in the photo
 * directory, scan the supported images, load the configuration, build one
 * record per image, sort the records by date and count the categories.
 *
 * The directory is the list of its entry names.  Everything the run learns
 * from the file system beyond names (whether an HEIC image decodes, each
 * image's EXIF block, each file's modification time) is a parameter.
 */
module Manifest {
  import opened Wrappers
  import opened Strings
  import opened Sorting
  import opened Paths
  import opened Exif
  import opened Config

  /** The ways a run stops without writing a manifest. */
  datatype RunError =
    | PhotosDirMissing
    | HeicUndecodable(file: string)
    | ConfigUnreadable

  // ---------------------------------------------------------------------
  // Step 1: HEIC conversion (lines 161-165)
  // ---------------------------------------------------------------------

  /** The entries other than `x`. */
  function Remove(s: seq<string>, x: string): (r: seq<string>)
    ensures forall y :: y in r <==> y in s && y != x
    ensures NoDuplicates(s) ==> NoDuplicates(r)
  {
    if s == [] then []
    else
      var rest := Remove(s[1..], x);
      assert NoDuplicates(s) ==> NoDuplicates(s[1..]) && s[0] !in s[1..] by {
        if NoDuplicates(s) { NoDuplicatesTail(s); }
      }
      if s[0] == x then rest else [s[0]] + rest
  }

  /** The entries once `f` has been converted: `f` is deleted and its JPEG
      is saved, replacing a file of that name if there is one. */
  function AfterConversion(entries: seq<string>, f: string): (r: seq<string>)
    ensures forall y :: y in r <==> (y in entries && y != f) || y == JpegPath(f)
    ensures NoDuplicates(entries) ==> NoDuplicates(r)
  {
    var rest := Remove(entries, f);
    if JpegPath(f) in rest then rest
    else
      assert forall i :: 0 <= i < |rest| ==> rest[i] != JpegPath(f);
      rest + [JpegPath(f)]
  }

  /** One iteration of the conversion loop: names that are not HEIC, and all
      names when HEIF decoding is unavailable, are left alone; an HEIC file
      that does not decode stops the run. */
  function ConvertStep(entries: seq<string>, f: string, heifSupport: bool, undecodable: set<string>)
    : Result<seq<string>, RunError>
  {
    if !IsHeic(f) || !heifSupport then Ok(entries)
    else if f in undecodable then Err(HeicUndecodable(f))
    else Ok(AfterConversion(entries, f))
  }

  /** The names of `todo`, in order, put through the conversion step. */
  function ConvertAll(todo: seq<string>, entries: seq<string>, heifSupport: bool, undecodable: set<string>)
    : (r: Result<seq<string>, RunError>)
    ensures r.Err? ==> r.error.HeicUndecodable? && Undecodable(r.error.file, undecodable) && heifSupport
    decreases |todo|
  {
    if todo == [] then Ok(entries)
    else match ConvertStep(entries, todo[0], heifSupport, undecodable)
      case Err(e) => Err(e)
      case Ok(next) => ConvertAll(todo[1..], next, heifSupport, undecodable)
  }

  /** Lines 161-165: the loop over the first listing. */
  method ConvertHeicFiles(listing: seq<string>, heifSupport: bool, undecodable: set<string>)
    returns (r: Result<seq<string>, RunError>)
    ensures r == ConvertAll(listing, listing, heifSupport, undecodable)
  {
    var entries := listing;
    var i := 0;
    while i < |listing|
      invariant 0 <= i <= |listing|
      invariant ConvertAll(listing, listing, heifSupport, undecodable)
        == ConvertAll(listing[i..], entries, heifSupport, undecodable)
    {
      var f := listing[i];
      assert listing[i..][1..] == listing[i + 1..];
      if Lower(Ext(f)) in HeicExtensions {
        var converted := ConvertHeicToJpeg(f, heifSupport);
        if converted.Some? {
          if f in undecodable {
            return Err(HeicUndecodable(f));
          }
          entries := Remove(entries, f);
          if converted.value !in entries {
            entries := entries + [converted.value];
          }
        }
      }
      i := i + 1;
    }
    return Ok(entries);
  }

  /** Without HEIF decoding the directory is left as it is. */
  lemma {:induction false} ConvertWithoutHeif(todo: seq<string>, entries: seq<string>, undecodable: set<string>)
    ensures ConvertAll(todo, entries, false, undecodable) == Ok(entries)
  {
    if todo != [] {
      ConvertWithoutHeif(todo[1..], entries, undecodable);
    }
  }

  /** An HEIC name that does not decode. */
  predicate Undecodable(f: string, undecodable: set<string>)
  {
    IsHeic(f) && f in undecodable
  }

  /** `todo[i]` is the first name of `todo` that does not decode. */
  ghost predicate FirstUndecodable(todo: seq<string>, i: int, undecodable: set<string>)
  {
    && 0 <= i < |todo| && Undecodable(todo[i], undecodable)
    && forall k :: 0 <= k < i ==> !Undecodable(todo[k], undecodable)
  }

  /** With HEIF decoding the pass fails exactly when some HEIC name does not
      decode. */
  lemma {:induction false} ConvertFails(todo: seq<string>, entries: seq<string>, undecodable: set<string>)
    ensures ConvertAll(todo, entries, true, undecodable).Err?
      <==> exists f :: f in todo && Undecodable(f, undecodable)
  {
    if todo != [] {
      var f := todo[0];
      if !Undecodable(f, undecodable) {
        ConvertFails(todo[1..], ConvertStep(entries, f, true, undecodable).value, undecodable);
        forall g | g in todo && g != f ensures g in todo[1..] {
          var k :| 0 <= k < |todo| && todo[k] == g;
          assert todo[1..][k - 1] == g;
        }
        assert forall g :: g in todo[1..] ==> g in todo;
      } else {
        assert f in todo;
      }
    }
  }

  /** A failed pass reports the first name, in listing order, that does not
      decode. */
  lemma {:induction false} ConvertReportsFirst(todo: seq<string>, entries: seq<string>, undecodable: set<string>)
    requires ConvertAll(todo, entries, true, undecodable).Err?
    ensures exists i :: (FirstUndecodable(todo, i, undecodable)
      && ConvertAll(todo, entries, true, undecodable).error == HeicUndecodable(todo[i]))
  {
    var f := todo[0];
    if Undecodable(f, undecodable) {
      assert FirstUndecodable(todo, 0, undecodable);
    } else {
      var next := ConvertStep(entries, f, true, undecodable).value;
      ConvertReportsFirst(todo[1..], next, undecodable);
      var i :| FirstUndecodable(todo[1..], i, undecodable)
        && ConvertAll(todo[1..], next, true, undecodable).error == HeicUndecodable(todo[1..][i]);
      assert todo[1..][i] == todo[i + 1];
      forall k | 0 <= k < i + 1 ensures !Undecodable(todo[k], undecodable) {
        if k > 0 { assert todo[k] == todo[1..][k - 1]; }
      }
      assert FirstUndecodable(todo, i + 1, undecodable);
    }
  }

  /** `x` is the JPEG of some HEIC name of `todo`. */
  ghost predicate JpegOfSome(x: string, todo: seq<string>)
  {
    exists g :: g in todo && IsHeic(g) && x == JpegPath(g)
  }

  /** `x` remains after converting the names of `todo` among `entries`: an
      untouched entry or the JPEG of a converted name. */
  ghost predicate Survives(x: string, entries: seq<string>, todo: seq<string>)
  {
    (x in entries && !(IsHeic(x) && x in todo)) || JpegOfSome(x, todo)
  }

  lemma JpegOfSomeStep(x: string, todo: seq<string>)
    requires todo != []
    ensures JpegOfSome(x, todo) <==>
      (IsHeic(todo[0]) && x == JpegPath(todo[0])) || JpegOfSome(x, todo[1..])
  {
    if JpegOfSome(x, todo) {
      var g :| g in todo && IsHeic(g) && x == JpegPath(g);
      if g != todo[0] {
        assert g in todo[1..];
      }
    }
    if JpegOfSome(x, todo[1..]) {
      var g :| g in todo[1..] && IsHeic(g) && x == JpegPath(g);
      assert g in todo;
    }
    if IsHeic(todo[0]) && x == JpegPath(todo[0]) {
      assert todo[0] in todo;
    }
  }

  lemma SurvivesStep(x: string, todo: seq<string>, entries: seq<string>, undecodable: set<string>)
    requires todo != [] && ConvertStep(entries, todo[0], true, undecodable).Ok?
    ensures Survives(x, ConvertStep(entries, todo[0], true, undecodable).value, todo[1..])
      <==> Survives(x, entries, todo)
  {
    var f := todo[0];
    assert x in todo <==> x == f || x in todo[1..];
    JpegOfSomeStep(x, todo);
    if IsHeic(f) {
      JpegNameIsSupported(f);
      SurvivesConvert(x, f, todo[1..], entries);
    }
  }

  lemma SurvivesConvert(x: string, f: string, rest: seq<string>, entries: seq<string>)
    requires IsHeic(f)
    requires !IsHeic(JpegPath(f))
    ensures Survives(x, AfterConversion(entries, f), rest) <==>
      (x in entries && !(IsHeic(x) && (x == f || x in rest)))
      || x == JpegPath(f) || JpegOfSome(x, rest)
  {
  }

  /** The names after a successful pass with HEIF decoding: the untouched
      entries and the JPEG of every converted name. */
  lemma {:induction false} ConvertedEntries(todo: seq<string>, entries: seq<string>, undecodable: set<string>)
    requires ConvertAll(todo, entries, true, undecodable).Ok?
    ensures forall x :: x in ConvertAll(todo, entries, true, undecodable).value <==> Survives(x, entries, todo)
  {
    if todo != [] {
      var next := ConvertStep(entries, todo[0], true, undecodable).value;
      ConvertedEntries(todo[1..], next, undecodable);
      forall x ensures Survives(x, next, todo[1..]) <==> Survives(x, entries, todo) {
        SurvivesStep(x, todo, entries, undecodable);
      }
    }
  }

  /** The pass lists no name twice. */
  lemma {:induction false} ConvertKeepsNoDuplicates(todo: seq<string>, entries: seq<string>, heifSupport: bool, undecodable: set<string>)
    requires NoDuplicates(entries) && ConvertAll(todo, entries, heifSupport, undecodable).Ok?
    ensures NoDuplicates(ConvertAll(todo, entries, heifSupport, undecodable).value)
  {
    if todo != [] {
      ConvertKeepsNoDuplicates(todo[1..], ConvertStep(entries, todo[0], heifSupport, undecodable).value, heifSupport, undecodable);
    }
  }

  /** After a successful pass with HEIF decoding no HEIC name is left. */
  lemma NoHeicLeft(listing: seq<string>, undecodable: set<string>)
    requires ConvertAll(listing, listing, true, undecodable).Ok?
    ensures forall x :: x in ConvertAll(listing, listing, true, undecodable).value ==> !IsHeic(x)
  {
    ConvertedEntries(listing, listing, undecodable);
    forall x | x in ConvertAll(listing, listing, true, undecodable).value ensures !IsHeic(x) {
      if JpegOfSome(x, listing) {
        var g :| g in listing && IsHeic(g) && x == JpegPath(g);
        JpegNameIsSupported(g);
      }
    }
  }

  // ---------------------------------------------------------------------
  // Step 2: scan (lines 167-171)
  // ---------------------------------------------------------------------

  /** The entries with a supported extension, in listing order. */
  function Supported(entries: seq<string>): (r: seq<string>)
    ensures forall x :: x in r <==> x in entries && IsSupported(x)
    ensures NoDuplicates(entries) ==> NoDuplicates(r)
  {
    if entries == [] then []
    else
      var rest := Supported(entries[1..]);
      assert NoDuplicates(entries) ==> NoDuplicates(entries[1..]) && entries[0] !in entries[1..] by {
        if NoDuplicates(entries) { NoDuplicatesTail(entries); }
      }
      if IsSupported(entries[0]) then [entries[0]] + rest else rest
  }

  /** The scanned file names: the supported entries, sorted. */
  function ScanFiles(entries: seq<string>): seq<string>
  {
    SortNames(Supported(entries))
  }

  /** The scan lists exactly the supported entries, ascending and each once. */
  lemma ScanFilesCorrect(entries: seq<string>)
    requires NoDuplicates(entries)
    ensures StrictlySorted(ScanFiles(entries))
    ensures forall x :: x in ScanFiles(entries) <==> x in entries && IsSupported(x)
  {
    SortNamesCorrect(Supported(entries));
  }

  /** The scan does not depend on the order in which the directory lists its
      entries. */
  lemma ScanOrderIrrelevant(a: seq<string>, b: seq<string>)
    requires NoDuplicates(a) && NoDuplicates(b)
    requires forall x :: x in a <==> x in b
    ensures ScanFiles(a) == ScanFiles(b)
  {
    ScanFilesCorrect(a);
    ScanFilesCorrect(b);
    StrictlySortedUnique(ScanFiles(a), ScanFiles(b));
  }

  // ---------------------------------------------------------------------
  // Step 4: one record per file (lines 179-206)
  // ---------------------------------------------------------------------

  /** The collection names, in the order of the `collections` mapping. */
  function Names(cs: seq<Collection>): seq<string>
  {
    seq(|cs|, i requires 0 <= i < |cs| => cs[i].name)
  }

  /** `collections_config.get(c, [])`: the list of the collection named `c`,
      the last one when a name occurs twice, empty when there is none. */
  function Lookup(cs: seq<Collection>, c: string): seq<string>
    decreases |cs|
  {
    if cs == [] then []
    else if cs[|cs| - 1].name == c then cs[|cs| - 1].files
    else Lookup(cs[..|cs| - 1], c)
  }

  /** The names of the collections whose list holds `f`, in mapping order. */
  function Containing(f: string, cs: seq<Collection>): seq<string>
    decreases |cs|
  {
    if cs == [] then []
    else Containing(f, cs[..|cs| - 1]) + (if f in cs[|cs| - 1].files then [cs[|cs| - 1].name] else [])
  }

  /** The categories of `f`: "favorites" first when the favourites list
      holds it, then every collection holding it. */
  function CategoriesOf(f: string, favorites: seq<string>, cs: seq<Collection>): seq<string>
  {
    (if f in favorites then ["favorites"] else []) + Containing(f, cs)
  }

  /** Lines 190-195. */
  method Categories(f: string, favorites: seq<string>, cs: seq<Collection>) returns (cats: seq<string>)
    ensures cats == CategoriesOf(f, favorites, cs)
  {
    cats := [];
    if f in favorites {
      cats := cats + ["favorites"];
    }
    ghost var head := cats;
    for i := 0 to |cs|
      invariant cats == head + Containing(f, cs[..i])
    {
      assert cs[..i + 1][..i] == cs[..i];
      if f in cs[i].files {
        cats := cats + [cs[i].name];
      }
    }
    assert cs[..|cs|] == cs;
  }

  /** A collection is among `f`'s categories exactly when its list holds `f`. */
  lemma {:induction false} ContainingMembers(f: string, cs: seq<Collection>, c: string)
    ensures c in Containing(f, cs) <==> exists i :: 0 <= i < |cs| && cs[i].name == c && f in cs[i].files
  {
    if cs != [] {
      var n := |cs| - 1;
      ContainingMembers(f, cs[..n], c);
      if exists i :: 0 <= i < |cs| && cs[i].name == c && f in cs[i].files {
        var i :| 0 <= i < |cs| && cs[i].name == c && f in cs[i].files;
        if i < n {
          assert cs[..n][i] == cs[i];
        }
      }
      if exists i :: 0 <= i < n && cs[..n][i].name == c && f in cs[..n][i].files {
        var i :| 0 <= i < n && cs[..n][i].name == c && f in cs[..n][i].files;
        assert cs[i] == cs[..n][i];
      }
    }
  }

  /** The positions in `cs` of the collections whose list holds `f`. */
  function Holding(f: string, cs: seq<Collection>): seq<nat>
    decreases |cs|
  {
    if cs == [] then []
    else Holding(f, cs[..|cs| - 1]) + (if f in cs[|cs| - 1].files then [|cs| - 1] else [])
  }

  /** `f`'s collections come in the order of the `collections` mapping:
      entry `k` is the collection at position `Holding(f, cs)[k]`, which
      holds `f`; those positions ascend; and every collection holding `f`
      is among them. */
  lemma {:induction false} ContainingInOrder(f: string, cs: seq<Collection>)
    ensures var idx := Holding(f, cs);
      && |idx| == |Containing(f, cs)|
      && (forall k :: 0 <= k < |idx| ==>
            idx[k] < |cs| && cs[idx[k]].name == Containing(f, cs)[k] && f in cs[idx[k]].files)
      && (forall k, l :: 0 <= k < l < |idx| ==> idx[k] < idx[l])
      && (forall i :: 0 <= i < |cs| && f in cs[i].files ==> i in idx)
  {
    if cs != [] {
      var n := |cs| - 1;
      var pre := cs[..n];
      ContainingInOrder(f, pre);
      var idx0 := Holding(f, pre);
      forall k | 0 <= k < |idx0| ensures cs[idx0[k]] == pre[idx0[k]] {
      }
      forall i | 0 <= i < n && f in cs[i].files ensures i in idx0 {
        assert pre[i] == cs[i];
      }
    }
  }

  /** The categories of `f`: "favorites" first exactly when it is a
      favourite, and each collection whose list holds it. */
  lemma CategoriesMembers(f: string, favorites: seq<string>, cs: seq<Collection>, c: string)
    ensures c in CategoriesOf(f, favorites, cs) <==>
      (c == "favorites" && f in favorites) || exists i :: 0 <= i < |cs| && cs[i].name == c && f in cs[i].files
    ensures f in favorites ==> CategoriesOf(f, favorites, cs)[0] == "favorites"
  {
    ContainingMembers(f, cs, c);
  }

  /** Without duplicate collection names, each collection is listed at most
      once, and exactly when its list holds `f`. */
  lemma {:induction false} ContainingCount(f: string, cs: seq<Collection>, c: string)
    requires NoDuplicates(Names(cs))
    ensures multiset(Containing(f, cs))[c] == if f in Lookup(cs, c) then 1 else 0
  {
    if cs != [] {
      var n := |cs| - 1;
      assert NoDuplicates(Names(cs[..n])) by {
        forall i, j | 0 <= i < j < n ensures Names(cs[..n])[i] != Names(cs[..n])[j] {
          assert Names(cs)[i] != Names(cs)[j];
        }
      }
      ContainingCount(f, cs[..n], c);
      if cs[n].name == c {
        ContainingMembers(f, cs[..n], c);
        forall i | 0 <= i < n ensures cs[..n][i].name != c {
          assert Names(cs)[i] != Names(cs)[n];
        }
        LookupAbsent(cs[..n], c);
      }
    }
  }

  lemma {:induction false} LookupAbsent(cs: seq<Collection>, c: string)
    requires forall i :: 0 <= i < |cs| ==> cs[i].name != c
    ensures Lookup(cs, c) == []
  {
    if cs != [] {
      var n := |cs| - 1;
      assert cs[n].name != c;
      LookupAbsent(cs[..n], c);
    }
  }

  /** One entry of the manifest.  An empty `categories` stands for the
      absent key, and `geo` is present only when coordinates were found. */
  datatype PhotoRecord = PhotoRecord(file: string, date: string, geo: Option<Geo>, categories: seq<string>)

  function DateOf(p: PhotoRecord): string { p.date }

  /** Lines 181-204 for the file `f`: the EXIF date when there is one,
      otherwise the file time. */
  function RecordFor(f: string, config: Configuration, exifOf: string -> Option<ExifData>, mtimeOf: string -> string)
    : PhotoRecord
  {
    var e := ExifFields(exifOf(f));
    var date := if e.date.Some? && e.date.value != "" then e.date.value else mtimeOf(f);
    PhotoRecord(f, date, e.geo, CategoriesOf(f, config.favorites, config.collections))
  }

  /** The records in scan order, before sorting. */
  function Records(files: seq<string>, config: Configuration, exifOf: string -> Option<ExifData>, mtimeOf: string -> string)
    : seq<PhotoRecord>
  {
    seq(|files|, i requires 0 <= i < |files| => RecordFor(files[i], config, exifOf, mtimeOf))
  }

  /** A record is dated by its EXIF date whenever the EXIF block yields one
      (such a date is never empty), and by the file time otherwise. */
  lemma RecordDate(f: string, config: Configuration, exifOf: string -> Option<ExifData>, mtimeOf: string -> string)
    ensures var e := ExifFields(exifOf(f));
      RecordFor(f, config, exifOf, mtimeOf).date == if e.date.Some? then e.date.value else mtimeOf(f)
    ensures exifOf(f).None? ==> RecordFor(f, config, exifOf, mtimeOf).date == mtimeOf(f)
  {
    if exifOf(f).Some? {
      TagDateIsIso(exifOf(f).value.tags, DateTags);
    }
  }

  /** Lines 179-206. */
  method BuildRecords(files: seq<string>, config: Configuration, exifOf: string -> Option<ExifData>, mtimeOf: string -> string)
    returns (photos: seq<PhotoRecord>)
    ensures photos == Records(files, config, exifOf, mtimeOf)
  {
    photos := [];
    for i := 0 to |files|
      invariant |photos| == i
      invariant forall k :: 0 <= k < i ==> photos[k] == RecordFor(files[k], config, exifOf, mtimeOf)
    {
      var f := files[i];
      var exif := ExtractExif(exifOf(f));
      var date := exif.date;
      if date.None? || date.value == "" {
        date := Some(mtimeOf(f));
      }
      var cats := Categories(f, config.favorites, config.collections);
      photos := photos + [PhotoRecord(f, date.value, exif.geo, cats)];
    }
  }

  // ---------------------------------------------------------------------
  // Sorting by date (line 209)
  // ---------------------------------------------------------------------

  /** Line 209: the list sorted in place by its date texts. */
  method SortByDate(photos: seq<PhotoRecord>) returns (sorted: seq<PhotoRecord>)
    ensures sorted == SortBy(photos, DateOf)
  {
    var a := new PhotoRecord[|photos|](i requires 0 <= i < |photos| => photos[i]);
    assert a[..] == photos;
    SortInPlace(a, DateOf);
    sorted := a[..];
  }

  /** Records with equal dates: the one with the smaller file name first. */
  predicate FileBefore(p: PhotoRecord, q: PhotoRecord)
  {
    Less(p.file, q.file)
  }

  /** The manifest of the scanned files is ascending by date, with records
      of equal date in file name order. */
  lemma ManifestOrder(files: seq<string>, config: Configuration, exifOf: string -> Option<ExifData>, mtimeOf: string -> string)
    requires StrictlySorted(files)
    ensures var photos := SortBy(Records(files, config, exifOf, mtimeOf), DateOf);
      && SortedBy(photos, DateOf)
      && TiesOrdered(photos, DateOf, FileBefore)
      && |photos| == |files|
  {
    var rs := Records(files, config, exifOf, mtimeOf);
    SortByCorrect(rs, DateOf);
    assert TiesOrdered(rs, DateOf, FileBefore) by {
      forall i, j | 0 <= i < j < |rs| && DateOf(rs[i]) == DateOf(rs[j]) ensures FileBefore(rs[i], rs[j]) {
        assert rs[i].file == files[i] && rs[j].file == files[j];
      }
    }
    SortByKeepsTies(rs, DateOf, FileBefore);
  }

  /** No two records of the list name the same file. */
  ghost predicate OnePerFile(photos: seq<PhotoRecord>)
  {
    forall i, j :: 0 <= i < j < |photos| ==> photos[i].file != photos[j].file
  }

  lemma OnePerFilePermuted(rs: seq<PhotoRecord>, photos: seq<PhotoRecord>)
    requires OnePerFile(rs) && multiset(rs) == multiset(photos)
    ensures OnePerFile(photos)
  {
    assert NoDuplicates(rs) by {
      forall i, j | 0 <= i < j < |rs| ensures rs[i] != rs[j] {
        assert rs[i].file != rs[j].file;
      }
    }
    PermutationKeepsNoDuplicates(rs, photos);
    forall i, j | 0 <= i < j < |photos| ensures photos[i].file != photos[j].file {
      assert photos[i] in multiset(rs) && photos[j] in multiset(rs);
      var a :| 0 <= a < |rs| && rs[a] == photos[i];
      var b :| 0 <= b < |rs| && rs[b] == photos[j];
      assert a != b;
    }
  }

  /** The manifest is a permutation of the records of the scanned files,
      with one record per file. */
  lemma ManifestRecords(files: seq<string>, config: Configuration, exifOf: string -> Option<ExifData>, mtimeOf: string -> string)
    requires StrictlySorted(files)
    ensures var photos := SortBy(Records(files, config, exifOf, mtimeOf), DateOf);
      && multiset(photos) == multiset(Records(files, config, exifOf, mtimeOf))
      && OnePerFile(photos)
  {
    var rs := Records(files, config, exifOf, mtimeOf);
    var photos := SortBy(rs, DateOf);
    SortByCorrect(rs, DateOf);
    RecordsOnePerFile(files, config, exifOf, mtimeOf);
    OnePerFilePermuted(rs, photos);
  }

  lemma RecordsOnePerFile(files: seq<string>, config: Configuration, exifOf: string -> Option<ExifData>, mtimeOf: string -> string)
    requires StrictlySorted(files)
    ensures OnePerFile(Records(files, config, exifOf, mtimeOf))
  {
    var rs := Records(files, config, exifOf, mtimeOf);
    forall i, j | 0 <= i < j < |rs| ensures rs[i].file != rs[j].file {
      assert rs[i].file == files[i] && rs[j].file == files[j];
      LessIrreflexive(files[i]);
    }
  }

  // ---------------------------------------------------------------------
  // Statistics (lines 222-227)
  // ---------------------------------------------------------------------

  function FavWeight(p: PhotoRecord): nat
  {
    if "favorites" in p.categories then 1 else 0
  }

  /** Line 222: the records that carry the "favorites" category. */
  function FavCount(photos: seq<PhotoRecord>): nat
  {
    SumOf(photos, FavWeight)
  }

  /** How many of `files` the list `xs` holds. */
  function CountIn(files: seq<string>, xs: seq<string>): nat
  {
    if files == [] then 0 else (if files[0] in xs then 1 else 0) + CountIn(files[1..], xs)
  }

  lemma RecordsTail(files: seq<string>, config: Configuration, exifOf: string -> Option<ExifData>, mtimeOf: string -> string)
    requires files != []
    ensures Records(files, config, exifOf, mtimeOf)
      == [RecordFor(files[0], config, exifOf, mtimeOf)] + Records(files[1..], config, exifOf, mtimeOf)
  {
  }

  lemma {:induction false} FavCountOfRecords(files: seq<string>, config: Configuration, exifOf: string -> Option<ExifData>, mtimeOf: string -> string)
    requires forall i :: 0 <= i < |config.collections| ==> config.collections[i].name != "favorites"
    ensures SumOf(Records(files, config, exifOf, mtimeOf), FavWeight) == CountIn(files, config.favorites)
  {
    if files != [] {
      var rs := Records(files, config, exifOf, mtimeOf);
      RecordsTail(files, config, exifOf, mtimeOf);
      assert rs[1..] == Records(files[1..], config, exifOf, mtimeOf);
      FavCountOfRecords(files[1..], config, exifOf, mtimeOf);
      CategoriesMembers(files[0], config.favorites, config.collections, "favorites");
    }
  }

  /** When no collection is named "favorites", the favourites count is the
      number of scanned files the favourites list holds. */
  lemma FavCountIsFavorites(files: seq<string>, config: Configuration, exifOf: string -> Option<ExifData>, mtimeOf: string -> string)
    requires forall i :: 0 <= i < |config.collections| ==> config.collections[i].name != "favorites"
    ensures FavCount(SortBy(Records(files, config, exifOf, mtimeOf), DateOf)) == CountIn(files, config.favorites)
  {
    SumOfSortBy(Records(files, config, exifOf, mtimeOf), DateOf, FavWeight);
    FavCountOfRecords(files, config, exifOf, mtimeOf);
  }

  /** How many records carry category `c`, counting repeats. */
  function Occurrences(photos: seq<PhotoRecord>, c: string): nat
  {
    SumOf(photos, (p: PhotoRecord) => multiset(p.categories)[c])
  }

  /** `col_counts` while it is built: the names in insertion order and the
      count of each. */
  datatype Tally = Tally(names: seq<string>, counts: map<string, nat>)

  /** Line 226-227 for one category. */
  function Bump(t: Tally, c: string): Tally
  {
    if c == "favorites" then t
    else if c in t.counts then t.(counts := t.counts[c := t.counts[c] + 1])
    else Tally(t.names + [c], t.counts[c := 1])
  }

  /** Lines 225-227 for one record's categories. */
  function BumpAll(t: Tally, cats: seq<string>): Tally
    decreases |cats|
  {
    if cats == [] then t else Bump(BumpAll(t, cats[..|cats| - 1]), cats[|cats| - 1])
  }

  /** Lines 223-227. */
  function TallyOf(photos: seq<PhotoRecord>): Tally
    decreases |photos|
  {
    if photos == [] then Tally([], map[])
    else BumpAll(TallyOf(photos[..|photos| - 1]), photos[|photos| - 1].categories)
  }

  /** Lines 223-227, the nested loops. */
  method CollectionCounts(photos: seq<PhotoRecord>) returns (names: seq<string>, counts: map<string, nat>)
    ensures Tally(names, counts) == TallyOf(photos)
  {
    names, counts := [], map[];
    for i := 0 to |photos|
      invariant Tally(names, counts) == TallyOf(photos[..i])
    {
      var cats := photos[i].categories;
      ghost var before := Tally(names, counts);
      for j := 0 to |cats|
        invariant Tally(names, counts) == BumpAll(before, cats[..j])
      {
        var c := cats[j];
        assert cats[..j + 1][..j] == cats[..j];
        if c != "favorites" {
          if c in counts {
            counts := counts[c := counts[c] + 1];
          } else {
            names := names + [c];
            counts := counts[c := 1];
          }
        }
      }
      assert cats[..|cats|] == cats;
      assert photos[..i + 1][..i] == photos[..i];
    }
    assert photos[..|photos|] == photos;
  }

  /** A tally keeps each name once, in step with its map, never counts
      "favorites", and holds no zero. */
  ghost predicate TallyValid(t: Tally)
  {
    && NoDuplicates(t.names)
    && (forall c :: c in t.names <==> c in t.counts)
    && "favorites" !in t.counts
    && (forall c :: c in t.counts ==> t.counts[c] > 0)
  }

  /** The count of `c`, zero when it has none. */
  function CountOf(t: Tally, c: string): nat
  {
    if c in t.counts then t.counts[c] else 0
  }

  lemma {:induction false} BumpAllCounts(t: Tally, cats: seq<string>)
    requires TallyValid(t)
    ensures TallyValid(BumpAll(t, cats))
    ensures forall c :: c != "favorites" ==> CountOf(BumpAll(t, cats), c) == CountOf(t, c) + multiset(cats)[c]
  {
    if cats != [] {
      var n := |cats| - 1;
      BumpAllCounts(t, cats[..n]);
      var u := BumpAll(t, cats[..n]);
      assert cats == cats[..n] + [cats[n]];
      if cats[n] != "favorites" && cats[n] !in u.counts {
        assert forall i :: 0 <= i < |u.names| ==> u.names[i] != cats[n];
      }
    }
  }

  lemma {:induction false} TallyCounts(photos: seq<PhotoRecord>)
    ensures TallyValid(TallyOf(photos))
    ensures forall c :: c != "favorites" ==> CountOf(TallyOf(photos), c) == Occurrences(photos, c)
  {
    if photos != [] {
      var n := |photos| - 1;
      TallyCounts(photos[..n]);
      BumpAllCounts(TallyOf(photos[..n]), photos[n].categories);
      assert photos == photos[..n] + [photos[n]];
      forall c ensures Occurrences(photos, c) == Occurrences(photos[..n], c) + multiset(photos[n].categories)[c] {
        SumOfAppend(photos[..n], [photos[n]], (p: PhotoRecord) => multiset(p.categories)[c]);
      }
    }
  }

  /** The collection statistics: each category other than "favorites" that
      some record carries is listed once, with the number of records
      carrying it, and nothing else is listed. */
  lemma CollectionCountsCorrect(photos: seq<PhotoRecord>)
    ensures var t := TallyOf(photos);
      && NoDuplicates(t.names)
      && (forall c :: c in t.names <==> c in t.counts)
      && (forall c :: c in t.counts <==> c != "favorites" && Occurrences(photos, c) > 0)
      && (forall c :: c in t.counts ==> t.counts[c] == Occurrences(photos, c))
  {
    TallyCounts(photos);
  }

  lemma {:induction false} OccurrencesOfRecords(files: seq<string>, config: Configuration, exifOf: string -> Option<ExifData>, mtimeOf: string -> string, c: string)
    requires NoDuplicates(Names(config.collections)) && c != "favorites"
    ensures Occurrences(Records(files, config, exifOf, mtimeOf), c) == CountIn(files, Lookup(config.collections, c))
  {
    if files != [] {
      var rs := Records(files, config, exifOf, mtimeOf);
      RecordsTail(files, config, exifOf, mtimeOf);
      assert rs[1..] == Records(files[1..], config, exifOf, mtimeOf);
      OccurrencesOfRecords(files[1..], config, exifOf, mtimeOf, c);
      ContainingCount(files[0], config.collections, c);
    }
  }

  /** With distinct collection names, a collection's count is the number of
      scanned files its list holds. */
  lemma CollectionCountIsMembership(files: seq<string>, config: Configuration, exifOf: string -> Option<ExifData>, mtimeOf: string -> string, c: string)
    requires NoDuplicates(Names(config.collections)) && c != "favorites"
    ensures Occurrences(SortBy(Records(files, config, exifOf, mtimeOf), DateOf), c)
      == CountIn(files, Lookup(config.collections, c))
  {
    SumOfSortBy(Records(files, config, exifOf, mtimeOf), DateOf, (p: PhotoRecord) => multiset(p.categories)[c]);
    OccurrencesOfRecords(files, config, exifOf, mtimeOf, c);
  }

  /** Entries of a category list other than "favorites". */
  function OtherEntries(cats: seq<string>): nat
    decreases |cats|
  {
    if cats == [] then 0
    else OtherEntries(cats[..|cats| - 1]) + (if cats[|cats| - 1] != "favorites" then 1 else 0)
  }

  function OtherWeight(p: PhotoRecord): nat
  {
    OtherEntries(p.categories)
  }

  /** The counts of `names` in `counts`, added up (a missing one is zero). */
  function TotalOver(names: seq<string>, counts: map<string, nat>): nat
    decreases |names|
  {
    if names == [] then 0
    else
      var c := names[|names| - 1];
      TotalOver(names[..|names| - 1], counts) + (if c in counts then counts[c] else 0)
  }

  /** All counts of a tally, added up. */
  function Total(t: Tally): nat
  {
    TotalOver(t.names, t.counts)
  }

  /** Setting one count changes the sum over distinct names by exactly the
      change of that count, and not at all when the name is not listed. */
  lemma {:induction false} TotalOverUpdate(names: seq<string>, counts: map<string, nat>, c: string, v: nat)
    requires NoDuplicates(names)
    ensures c !in names ==> TotalOver(names, counts[c := v]) == TotalOver(names, counts)
    ensures c in names ==>
      TotalOver(names, counts[c := v]) + (if c in counts then counts[c] else 0) == TotalOver(names, counts) + v
  {
    if names != [] {
      var n := |names| - 1;
      var pre := names[..n];
      assert NoDuplicates(pre) by {
        forall i, j | 0 <= i < j < n ensures pre[i] != pre[j] {
          assert pre[i] == names[i] && pre[j] == names[j];
        }
      }
      TotalOverUpdate(pre, counts, c, v);
      assert names == pre + [names[n]];
      if names[n] == c {
        assert c !in pre by {
          forall i | 0 <= i < n ensures pre[i] != c { assert pre[i] == names[i]; }
        }
      }
    }
  }

  /** One category raises the total by one, unless it is "favorites". */
  lemma BumpTotal(t: Tally, c: string)
    requires TallyValid(t)
    ensures Total(Bump(t, c)) == Total(t) + (if c != "favorites" then 1 else 0)
  {
    if c != "favorites" {
      TotalOverUpdate(t.names, t.counts, c, if c in t.counts then t.counts[c] + 1 else 1);
      if c !in t.counts {
        assert (t.names + [c])[..|t.names|] == t.names;
      }
    }
  }

  lemma {:induction false} BumpAllTotal(t: Tally, cats: seq<string>)
    requires TallyValid(t)
    ensures Total(BumpAll(t, cats)) == Total(t) + OtherEntries(cats)
  {
    if cats != [] {
      var n := |cats| - 1;
      BumpAllTotal(t, cats[..n]);
      BumpAllCounts(t, cats[..n]);
      BumpTotal(BumpAll(t, cats[..n]), cats[n]);
    }
  }

  lemma TallyOfValid(photos: seq<PhotoRecord>)
    ensures TallyValid(TallyOf(photos))
  {
    TallyCounts(photos);
  }

  /** The collection counts add up to the number of category entries other
      than "favorites" over all records. */
  lemma {:induction false} TallyTotal(photos: seq<PhotoRecord>)
    ensures Total(TallyOf(photos)) == SumOf(photos, OtherWeight)
  {
    if photos != [] {
      var n := |photos| - 1;
      var pre, last := photos[..n], photos[n];
      TallyTotal(pre);
      TallyOfValid(pre);
      var t := TallyOf(pre);
      assert TallyOf(photos) == BumpAll(t, last.categories);
      BumpAllTotal(t, last.categories);
      assert photos == pre + [last];
      SumOfAppend(pre, [last], OtherWeight);
      assert SumOf([last], OtherWeight) == OtherWeight(last);
    }
  }

  // ---------------------------------------------------------------------
  // The whole run (lines 156-234)
  // ---------------------------------------------------------------------

  /** What a run produces: the manifest, the configuration it used (and
      whether it wrote it), and the summary figures. */
  datatype Run = Run(
    photos: seq<PhotoRecord>,
    loaded: Loaded,
    favCount: nat,
    collectionNames: seq<string>,
    collectionCounts: map<string, nat>)

  /** The file names the scan sees after the conversion pass. */
  function Scanned(listing: seq<string>, heifSupport: bool, undecodable: set<string>): seq<string>
    requires ConvertAll(listing, listing, heifSupport, undecodable).Ok?
  {
    ScanFiles(ConvertAll(listing, listing, heifSupport, undecodable).value)
  }

  /** Reference definition of a run.  `dir` is the directory's listing,
      `None` when it does not exist. */
  function Pipeline(
    dir: Option<seq<string>>, heifSupport: bool, undecodable: set<string>, configFile: ConfigFile,
    exifOf: string -> Option<ExifData>, mtimeOf: string -> string): Result<Run, RunError>
  {
    if dir.None? then Err(PhotosDirMissing)
    else match ConvertAll(dir.value, dir.value, heifSupport, undecodable)
      case Err(e) => Err(e)
      case Ok(_) =>
        var files := Scanned(dir.value, heifSupport, undecodable);
        match LoadConfig(configFile, files)
        case Err(_) => Err(ConfigUnreadable)
        case Ok(loaded) =>
          var photos := SortBy(Records(files, loaded.config, exifOf, mtimeOf), DateOf);
          var t := TallyOf(photos);
          Ok(Run(photos, loaded, FavCount(photos), t.names, t.counts))
  }

  /** `main` up to the summary (lines 156-227). */
  method Generate(
    dir: Option<seq<string>>, heifSupport: bool, undecodable: set<string>, configFile: ConfigFile,
    exifOf: string -> Option<ExifData>, mtimeOf: string -> string) returns (r: Result<Run, RunError>)
    ensures r == Pipeline(dir, heifSupport, undecodable, configFile, exifOf, mtimeOf)
  {
    if dir.None? {
      return Err(PhotosDirMissing);
    }
    var converted := ConvertHeicFiles(dir.value, heifSupport, undecodable);
    if converted.Err? {
      return Err(converted.error);
    }
    var files := ScanFiles(converted.value);
    var loaded := LoadConfig(configFile, files);
    if loaded.Err? {
      return Err(ConfigUnreadable);
    }
    var photos := BuildRecords(files, loaded.value.config, exifOf, mtimeOf);
    photos := SortByDate(photos);
    var names, counts := CollectionCounts(photos);
    return Ok(Run(photos, loaded.value, FavCount(photos), names, counts));
  }

  /** A run fails for a missing directory, then for the first HEIC file that
      does not decode (only with HEIF decoding), then for an unreadable
      configuration, and for nothing else. */
  lemma PipelineErrors(
    dir: Option<seq<string>>, heifSupport: bool, undecodable: set<string>, configFile: ConfigFile,
    exifOf: string -> Option<ExifData>, mtimeOf: string -> string)
    ensures var r := Pipeline(dir, heifSupport, undecodable, configFile, exifOf, mtimeOf);
      && (r == Err(PhotosDirMissing) <==> dir.None?)
      && ((r.Err? && r.error.HeicUndecodable?) <==>
          dir.Some? && heifSupport && exists f :: f in dir.value && Undecodable(f, undecodable))
      && (r == Err(ConfigUnreadable) <==>
          dir.Some? && !(heifSupport && exists f :: f in dir.value && Undecodable(f, undecodable))
          && configFile.Malformed?)
  {
    if dir.Some? {
      if heifSupport {
        ConvertFails(dir.value, dir.value, undecodable);
      } else {
        ConvertWithoutHeif(dir.value, dir.value, undecodable);
      }
      var c := ConvertAll(dir.value, dir.value, heifSupport, undecodable);
      if c.Ok? {
        var files := Scanned(dir.value, heifSupport, undecodable);
        assert Pipeline(dir, heifSupport, undecodable, configFile, exifOf, mtimeOf).Err?
          <==> LoadConfig(configFile, files).Err?;
      }
    }
  }

  /** The scan after a successful conversion pass: each supported name that
      was listed, and the JPEG of each converted name, once and in order. */
  lemma ScannedNames(listing: seq<string>, heifSupport: bool, undecodable: set<string>)
    requires NoDuplicates(listing) && ConvertAll(listing, listing, heifSupport, undecodable).Ok?
    ensures StrictlySorted(Scanned(listing, heifSupport, undecodable))
    ensures forall x :: x in Scanned(listing, heifSupport, undecodable) <==>
      IsSupported(x) && (x in listing || (heifSupport && JpegOfSome(x, listing)))
  {
    var entries := ConvertAll(listing, listing, heifSupport, undecodable).value;
    ConvertKeepsNoDuplicates(listing, listing, heifSupport, undecodable);
    ScanFilesCorrect(entries);
    if heifSupport {
      ConvertedEntries(listing, listing, undecodable);
      forall x | IsSupported(x) && JpegOfSome(x, listing) ensures x in entries {
      }
      forall x | IsSupported(x) ensures !IsHeic(x) {
        HeicNotSupported(x);
      }
    } else {
      ConvertWithoutHeif(listing, listing, undecodable);
    }
  }

  /** A run over an existing directory whose HEIC files all decode and
      whose configuration is readable succeeds.  Its manifest is the scanned
      files' records sorted by date (ties by file name), one per file, the
      configuration lists every scanned file, and the summary counts what
      the manifest holds. */
  lemma PipelineRun(
    dir: Option<seq<string>>, heifSupport: bool, undecodable: set<string>, configFile: ConfigFile,
    exifOf: string -> Option<ExifData>, mtimeOf: string -> string)
    requires dir.Some? && NoDuplicates(dir.value)
    requires ConvertAll(dir.value, dir.value, heifSupport, undecodable).Ok? && !configFile.Malformed?
    ensures Pipeline(dir, heifSupport, undecodable, configFile, exifOf, mtimeOf).Ok?
    ensures var run := Pipeline(dir, heifSupport, undecodable, configFile, exifOf, mtimeOf).value;
      var files := Scanned(dir.value, heifSupport, undecodable);
      var cs := run.loaded.config.collections;
      && SortedBy(run.photos, DateOf)
      && TiesOrdered(run.photos, DateOf, FileBefore)
      && multiset(run.photos) == multiset(Records(files, run.loaded.config, exifOf, mtimeOf))
      && OnePerFile(run.photos)
      && (forall f :: f in files ==> f in run.loaded.config.allPhotos)
      && ((forall i :: 0 <= i < |cs| ==> cs[i].name != "favorites") ==>
            run.favCount == CountIn(files, run.loaded.config.favorites))
      && (forall c :: c in run.collectionCounts <==> c != "favorites" && Occurrences(run.photos, c) > 0)
      && (forall c :: c in run.collectionCounts ==> run.collectionCounts[c] == Occurrences(run.photos, c))
      && TotalOver(run.collectionNames, run.collectionCounts) == SumOf(run.photos, OtherWeight)
      && (NoDuplicates(Names(cs)) ==> forall c :: c != "favorites" ==>
            Occurrences(run.photos, c) == CountIn(files, Lookup(cs, c)))
  {
    var files := Scanned(dir.value, heifSupport, undecodable);
    ScannedNames(dir.value, heifSupport, undecodable);
    var loaded := LoadConfig(configFile, files).value;
    ManifestOrder(files, loaded.config, exifOf, mtimeOf);
    ManifestRecords(files, loaded.config, exifOf, mtimeOf);
    LoadCoversFiles(configFile, files);
    CollectionCountsCorrect(SortBy(Records(files, loaded.config, exifOf, mtimeOf), DateOf));
    TallyTotal(SortBy(Records(files, loaded.config, exifOf, mtimeOf), DateOf));
    if forall i :: 0 <= i < |loaded.config.collections| ==> loaded.config.collections[i].name != "favorites" {
      FavCountIsFavorites(files, loaded.config, exifOf, mtimeOf);
    }
    if NoDuplicates(Names(loaded.config.collections)) {
      forall c | c != "favorites"
        ensures Occurrences(SortBy(Records(files, loaded.config, exifOf, mtimeOf), DateOf), c)
          == CountIn(files, Lookup(loaded.config.collections, c))
      {
        CollectionCountIsMembership(files, loaded.config, exifOf, mtimeOf, c);
      }
    }
  }

  /** Favourites ["a.jpg"] and one collection "flowers" holding "a.jpg" and
      "b.jpg": "a.jpg" is a favourite first and a flower second, "b.jpg" only
      a flower, and "c.jpg" has no categories. */
  lemma CategoriesExample(favorites: seq<string>, cs: seq<Collection>)
    requires favorites == ["a.jpg"] && cs == [Collection("flowers", ["a.jpg", "b.jpg"])]
    ensures CategoriesOf("a.jpg", favorites, cs) == ["favorites", "flowers"]
    ensures CategoriesOf("b.jpg", favorites, cs) == ["flowers"]
    ensures CategoriesOf("c.jpg", favorites, cs) == []
  {
    assert cs[..0] == [];
    assert "b.jpg" != "a.jpg" by { assert "b.jpg"[0] != "a.jpg"[0]; }
    assert "c.jpg" != "a.jpg" && "c.jpg" != "b.jpg" by {
      assert "c.jpg"[0] != "a.jpg"[0] && "c.jpg"[0] != "b.jpg"[0];
    }
    assert "a.jpg" in cs[0].files && "b.jpg" in cs[0].files && "c.jpg" !in cs[0].files;
    assert Containing("a.jpg", cs) == ["flowers"];
    assert Containing("b.jpg", cs) == ["flowers"];
    assert Containing("c.jpg", cs) == [];
  }
}
