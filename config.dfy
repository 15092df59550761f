/**
 * The category configuration (`photos_config.json`): creating it with
 * defaults when it is missing, and keeping its `_all_photos` list up to date
 * with the photos on disk.
 */
module Config {
  import opened Wrappers
  import opened Strings
  import opened Sorting

  /** One entry of the `collections` object: its key and its file list. */
  datatype Collection = Collection(name: string, files: seq<string>)

  /** The keys of the configuration the generator reads or writes.  A missing
      `favorites`, `collections` or `_all_photos` key reads as empty. */
  datatype Configuration = Configuration(
    instructions: Option<string>,
    favorites: seq<string>,
    collections: seq<Collection>,
    allPhotos: seq<string>)

  /** What is on disk before a run: no file, a file that does not decode to
      a configuration object, or a configuration. */
  datatype ConfigFile = Missing | Malformed | Stored(config: Configuration)

  /** The configuration a run uses and whether the run (re)wrote the file. */
  datatype Loaded = Loaded(config: Configuration, written: bool)

  datatype LoadError = MalformedConfig

  const Instructions: string :=
    "Assign photos to categories by adding filenames to each array below. "
    + "After editing, run: source .venv/bin/activate && python3 generate_photos.py"

  const DefaultCollections: seq<Collection> :=
    [Collection("flowers", []), Collection("food", []), Collection("friends", [])]

  /** The configuration written when none exists. */
  function DefaultConfig(files: seq<string>): (c: Configuration)
    ensures c.favorites == [] && c.instructions == Some(Instructions)
    ensures |c.collections| == 3 && forall i :: 0 <= i < 3 ==> c.collections[i].files == []
    ensures SortedBy(c.allPhotos, Identity) && multiset(c.allPhotos) == multiset(files)
  {
    SortNamesCorrect(files);
    Configuration(Some(Instructions), [], DefaultCollections, SortNames(files))
  }

  /** Names on disk that the stored list does not mention. */
  function NewPhotos(files: seq<string>, existing: seq<string>): (r: set<string>)
    ensures forall f :: f in r <==> f in files && f !in existing
  {
    set f | f in files && f !in existing
  }

  /** `load_config`: the configuration the run uses, and whether the file is
      (re)written.  The stored list is replaced by the sorted distinct current
      names exactly when some current name is missing from it; nothing else
      in a stored configuration changes. */
  function LoadConfig(file: ConfigFile, files: seq<string>): (r: Result<Loaded, LoadError>)
    ensures r.Err? <==> file.Malformed?
    ensures file.Missing? ==> (r.Ok? && r.value.written
      && r.value.config.favorites == [] && r.value.config.collections == DefaultCollections
      && multiset(r.value.config.allPhotos) == multiset(files))
    ensures file.Stored? ==> (r.Ok?
      && (r.value.written <==> exists f :: f in files && f !in file.config.allPhotos)
      && r.value.config.instructions == file.config.instructions
      && r.value.config.favorites == file.config.favorites
      && r.value.config.collections == file.config.collections
      && (r.value.written ==> StrictlySorted(r.value.config.allPhotos))
      && (!r.value.written ==> r.value.config.allPhotos == file.config.allPhotos))
  {
    match file
    case Missing => Ok(Loaded(DefaultConfig(files), true))
    case Malformed => Err(MalformedConfig)
    case Stored(c) =>
      if NewPhotos(files, c.allPhotos) != {} then
        SortedSetCorrect(files);
        Ok(Loaded(c.(allPhotos := SortedSet(files)), true))
      else
        assert forall f :: f in files ==> f !in NewPhotos(files, c.allPhotos);
        Ok(Loaded(c, false))
  }

  /** After loading, every current name is listed in `_all_photos`. */
  lemma LoadCoversFiles(file: ConfigFile, files: seq<string>)
    requires !file.Malformed?
    ensures forall f :: f in files ==> f in LoadConfig(file, files).value.config.allPhotos
  {
    var r := LoadConfig(file, files);
    if file.Missing? {
      SortNamesCorrect(files);
    } else if r.value.written {
      SortedSetCorrect(files);
    }
  }

  /** A rewritten list holds exactly the current names, once each and in
      ascending order: names of photos no longer on disk are dropped. */
  lemma RewriteListsCurrentNames(file: ConfigFile, files: seq<string>)
    requires file.Stored? && LoadConfig(file, files).value.written
    ensures StrictlySorted(LoadConfig(file, files).value.config.allPhotos)
    ensures forall f :: f in LoadConfig(file, files).value.config.allPhotos <==> f in files
  {
    SortedSetCorrect(files);
  }

  /** Loading twice with the same photos writes only once: the configuration
      a load returns is already up to date. */
  lemma LoadIdempotent(file: ConfigFile, files: seq<string>)
    requires !file.Malformed?
    ensures var c := LoadConfig(file, files).value.config;
      LoadConfig(Stored(c), files) == Ok(Loaded(c, false))
  {
    var c := LoadConfig(file, files).value.config;
    LoadCoversFiles(file, files);
    assert NewPhotos(files, c.allPhotos) == {};
  }

  /** When the current names are the scan's output (ascending, no name
      twice), a rewrite stores that very list. */
  lemma RewriteStoresScan(file: ConfigFile, files: seq<string>)
    requires StrictlySorted(files)
    requires file.Stored? && LoadConfig(file, files).value.written
    ensures LoadConfig(file, files).value.config.allPhotos == files
  {
    SortedSetCorrect(files);
    StrictlySortedUnique(SortedSet(files), files);
  }

  /** A stored list that already mentions every photo is left alone, even
      when it also names photos that are gone. */
  lemma StaleNamesKeptWithoutNewPhotos(c: Configuration, files: seq<string>)
    requires c.allPhotos == ["gone.jpg", "kept.jpg"] && files == ["kept.jpg"]
    ensures LoadConfig(Stored(c), files) == Ok(Loaded(c, false))
  {
    assert files[0] == c.allPhotos[1];
  }

  /** One new photo rewrites the list, and the stale name goes with it. */
  lemma StaleNamesDroppedWithNewPhoto(c: Configuration, files: seq<string>)
    requires c.allPhotos == ["gone.jpg", "kept.jpg"] && files == ["kept.jpg", "new.jpg"]
    ensures LoadConfig(Stored(c), files) == Ok(Loaded(c.(allPhotos := files), true))
  {
    assert "new.jpg" !in c.allPhotos;
    assert files[1] == "new.jpg";
    assert Less(files[0], files[1]) by {
      assert files[0][0] == 'k' && files[1][0] == 'n';
    }
    assert StrictlySorted(files);
    RewriteStoresScan(Stored(c), files);
  }
}
