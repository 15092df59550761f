# Photo manifest generator, modelled in Dafny

`generate_photos.py` builds the data file of a photo gallery. One run does the following:

- checks that the photo directory exists;
- converts every HEIC/HEIF image in it to a JPEG next to it and deletes the original;
- lists the supported images (`.jpeg .jpg .png .gif .webp`, any letter case) in name order;
- loads `photos_config.json`, creating it with default categories when it is missing;
- whenever a current file name is missing from its `_all_photos` list, replaces that list with the sorted current names;
- builds one record per image, holding:
  - the file name;
  - the EXIF capture date, or the file's modification time when there is none;
  - the GPS position when the EXIF block has one;
  - the image's categories (`favorites` first, then every collection that lists it);
- sorts the records by date;
- counts the favourites and the members of each collection.

The model covers these steps, split into modules:

| module | file | what it holds |
|---|---|---|
| `Wrappers` | `wrappers.dfy` | `Option` and `Result` |
| `Strings` | `strings.dfy` | Python's string order `Less` (code-point lexicographic) and ASCII lower-casing |
| `Sorting` | `sorting.dfy` | `SortBy`, a stable sort by a string key |
| `Paths` | `paths.dfy` | `os.path.splitext`, `os.path.join`, the extension sets, the JPEG name of a converted file |
| `Timestamps` | `timestamps.dfy` | `datetime.strptime(text, '%Y:%m:%d %H:%M:%S')`, `isoformat()` and their round trip |
| `Exif` | `exif.dfy` | the date-tag choice, the GPS conversion and `extract_exif` |
| `Config` | `config.dfy` | `load_config` |
| `Manifest` | `manifest.dfy` | the whole `main`: conversion pass, scan, records, sort, statistics |

Some points about `Sorting`:

- `SortBy` stands for Python's `sorted` and `list.sort`. Every stable sort gives the same output, so one definition is enough.
- `SortInPlace` performs the in-place `photos.sort` on an array. It is proved equal to `SortBy`.
- `SortBy` is proved to be ordered, a permutation of its input, and stable.

Some points about `Timestamps`:

- `ParseExif` follows the field patterns of CPython's `_strptime`. It checks:
  - the field patterns: one or two digits, a space-padded day, `\s+` for the space;
  - that no text is left over;
  - the `datetime` range checks (day within the month, leap years).
- `ConvertTimestamp` gives the `isoformat()` text.
- The lemmas prove that every valid timestamp round-trips, and that ISO text order is chronological order.

`Manifest.Pipeline` is the reference definition of one run. `Manifest.Generate` is the imperative `main`. It is proved to compute `Pipeline`.

The file system does not appear. Its effects enter as parameters:

- the directory listing: `None` when the directory does not exist;
- `heifSupport`: whether `pillow_heif` imported;
- `undecodable`: the HEIC files that Pillow fails to open;
- `configFile`: missing, malformed, or a stored configuration;
- `exifOf`: each image's decoded EXIF block;
- `mtimeOf`: each file's modification time, already as ISO text.

Behaviour of the code that is easy to misread, and that the model keeps:

- Only the first date tag present is tried (the `break` at line 91). An unparsable `DateTimeOriginal` leaves the photo without an EXIF date even when `DateTime` is valid (`Exif.UnparsableFirstTagHidesLaterOnes`).
- When a new photo appears, `_all_photos` becomes `sorted(current)` (line 148). Names of photos no longer on disk are dropped, so the list can shrink (`Config.StaleNamesDroppedWithNewPhoto`). Without a new photo, stale names stay (`Config.StaleNamesKeptWithoutNewPhotos`).
- A HEIC file that cannot be opened raises an exception out of `convert_heic_to_jpeg`. Neither that function nor `main` catches it, so the whole run stops rather than skipping the file (`Manifest.RunError.HeicUndecodable`, `Manifest.PipelineErrors`).
- A collection named `favorites` would also be counted as a favourite at line 222 and left out of the collection counts at line 226. The favourites theorem therefore assumes that no collection has that name (`Manifest.FavCountIsFavorites`).

## Model

| member | source | states |
|---|---|---|
| Strings.Lower | generate_photos.py:163 | `.lower()` on extensions: same length, each ASCII capital mapped to its small letter, everything else kept |
| Strings.LowerChar | generate_photos.py:163 | one character lowered: never a capital afterwards, a letter stays a letter, only capitals change, and a capital moves to its small letter |
| Strings.LessTotal | generate_photos.py:168-171 | Python's string order is total: of two strings one is smaller or they are equal |
| Strings.LessTransitive | generate_photos.py:168-171 | Python's string order is transitive |
| Strings.LessAsymmetric | generate_photos.py:168-171 | a string smaller than another is not also larger than it, and is not equal to it |
| Sorting.SortByCorrect | generate_photos.py:209 | the sort's output is ordered by the key, is a permutation of the input and has the same length |
| Sorting.SortByStable | generate_photos.py:209 | for every key value, the elements with that key keep their input order (Python's sort is stable) |
| Sorting.SortByKeepsTies | generate_photos.py:209 | any relation that orders equal-key elements in the input still orders them in the output |
| Sorting.SumOfSortBy | generate_photos.py:222 | a sum over the records is the same before and after sorting |
| Sorting.SortNamesCorrect | generate_photos.py:168-171 | `sorted` of names: ascending, the same names with the same multiplicities, strictly ascending when the input has no repeats |
| Sorting.Dedup | generate_photos.py:145 | `set(all_filenames)`: the same members, each once |
| Sorting.SortedSetCorrect | generate_photos.py:148 | `sorted(current)` is strictly ascending and holds exactly the current names |
| Sorting.StrictlySortedUnique | generate_photos.py:148 | two strictly ascending lists with the same members are equal |
| Sorting.InsertInPlace | generate_photos.py:209 | one insertion step on the array: its prefix becomes the sorted insertion of the next element, the rest is untouched |
| Sorting.SortInPlace | generate_photos.py:209 | `photos.sort(key=...)` in place: the array ends as `SortBy` of its old contents |
| Paths.SplitExt | generate_photos.py:163 | `os.path.splitext`: stem plus extension is the path. A non-empty extension is one dot followed by no dot and no slash, and the last component has a non-dot before it. The extension is empty exactly when no dot of the last component has a non-dot before it in that component |
| Paths.LeadingDotsAreNoExtension | generate_photos.py:163 | leading dots never start an extension (`.jpg` and `..jpg` have none) |
| Paths.LastDotStartsExtension | generate_photos.py:163 | the last dot starts the extension (`.a.jpg` gives `.jpg`, `a.b.JPG` gives `.JPG`) |
| Paths.DirectoryDotIsNoExtension | generate_photos.py:163 | a dot in a directory part is not an extension |
| Paths.Join | generate_photos.py:165 | `os.path.join`: an absolute second part wins; otherwise the parts are concatenated, with a `/` between them unless the first part is empty or already ends in `/` |
| Paths.JoinSplit | generate_photos.py:165 | splitting a joined path splits the file name and keeps the directory |
| Paths.ReplaceExt | generate_photos.py:55 | replacing a file's extension gives a name whose stem is the old stem and whose extension is the new one |
| Paths.JpegPath | generate_photos.py:55 | the converted file's path ends in `.jpeg` |
| Paths.ConvertedNameInDirectory | generate_photos.py:55 | converting the joined path writes the directory's entry for the file's JPEG name |
| Paths.JpegNameIsSupported | generate_photos.py:45-55 | the JPEG name of a HEIC file has extension `.jpeg`, is supported and is not HEIC |
| Paths.HeicNotSupported | generate_photos.py:45-46 | no name is both HEIC and supported |
| Paths.ConvertHeicToJpeg | generate_photos.py:49-65 | the conversion yields a path exactly when HEIF support is present. For a path with an extension (every HEIC path), the new path has the old stem and the extension `.jpeg`, is supported, and is not HEIC |
| Timestamps.DaysInMonth | generate_photos.py:87 | each month has 28 to 31 days; exactly February of a leap year has 29 |
| Timestamps.ParseExif | generate_photos.py:87 | whatever `strptime` accepts is a valid calendar date and time |
| Timestamps.ConvertTimestamp | generate_photos.py:87-88 | a date is obtained exactly when the text parses. It is a 19-character ISO text of some calendar date-time. The canonical EXIF text of any date-time gives that date-time's ISO text when it is a calendar date-time, and no date otherwise |
| Timestamps.ParseExifFormat | generate_photos.py:87 | parsing the canonical EXIF text of any in-range field tuple gives that tuple back exactly when it is a real date, and fails otherwise |
| Timestamps.ConvertCanonical | generate_photos.py:87-88 | the EXIF text of any valid date converts to that date's ISO text |
| Timestamps.IsoFormat | generate_photos.py:88 | `isoformat()` is 19 characters with `-`, `-`, `T`, `:`, `:` at positions 4, 7, 10, 13, 16 |
| Timestamps.IsoKeepsFields | generate_photos.py:88 | the ISO text is the EXIF text with `-` and `T` in place of the date colons and the space |
| Timestamps.IsoOrderIsChronological | generate_photos.py:209 | sorting by ISO text is sorting by time: text order is chronological order, and equal texts are equal dates |
| Timestamps.LeapDayAccepted | generate_photos.py:87 | `2024:02:29 23:59:59` converts to `2024-02-29T23:59:59` |
| Timestamps.LeapDayRefused | generate_photos.py:87 | `2021:02:29 10:00:00` gives no date |
| Exif.SelectDate | generate_photos.py:84-91 | the tag loop computes the reference date choice |
| Exif.DatePrecedence | generate_photos.py:84-91 | `DateTimeOriginal` decides when present, else `DateTimeDigitized`, else `DateTime`, else there is no date |
| Exif.UnparsableFirstTagHidesLaterOnes | generate_photos.py:86-91 | an unparsable first present tag gives no date even if a later tag is valid |
| Exif.TagDateIsIso | generate_photos.py:88 | a date found in the tags is 19 characters long, so never empty |
| Exif.Axis | generate_photos.py:107-110 | a coordinate is its reading in decimal degrees or its negation. For a non-zero reading it is negated exactly when the reference is `S` (or `W`), so a missing reference counts as `N` (or `E`). A positive reading ends below zero exactly for that reference |
| Exif.ExtractGeo | generate_photos.py:104-111 | a position exists exactly when both latitude and longitude are present |
| Exif.HemisphereSigns | generate_photos.py:105-110 | for positive readings, each coordinate is the reading in decimal degrees or its negation. Latitude is negative exactly for `S`, longitude exactly for `W`. A missing reference keeps the reading as it is |
| Exif.PittsburghExample | generate_photos.py:100-111 | 40°26'46" N 79°58'56" W is within half a millionth of a degree of (40.446111, -79.982222) |
| Exif.ExtractExif | generate_photos.py:68-117 | no EXIF block gives neither date nor position; otherwise the date is the tag choice and the position comes from the GPS block |
| Config.DefaultConfig | generate_photos.py:122-132 | the default configuration has the instruction text, no favourites, three empty collections, and the names sorted |
| Config.LoadConfig | generate_photos.py:120-153 | malformed file: error, and only then. Missing file: the default is written. Stored file: it is rewritten exactly when a current name is missing from `_all_photos`; then the list becomes the distinct names in order; everything else is kept; without a rewrite nothing changes |
| Config.LoadCoversFiles | generate_photos.py:143-153 | after loading, every current name is in `_all_photos` |
| Config.RewriteListsCurrentNames | generate_photos.py:148 | a rewritten list is strictly ascending and holds exactly the current names |
| Config.LoadIdempotent | generate_photos.py:143-153 | loading the loaded configuration again with the same names writes nothing and changes nothing |
| Config.RewriteStoresScan | generate_photos.py:148 | when the names come from the scan, a rewrite stores exactly the scan |
| Config.StaleNamesKeptWithoutNewPhotos | generate_photos.py:144-147 | without a new photo, a stale name stays listed |
| Config.StaleNamesDroppedWithNewPhoto | generate_photos.py:148 | with a new photo, the stale name is dropped |
| Manifest.Remove | generate_photos.py:64 | deleting an entry removes exactly that name and keeps names distinct |
| Manifest.AfterConversion | generate_photos.py:55-64 | a conversion removes the HEIC name and adds its JPEG name, keeping names distinct |
| Manifest.ConvertAll | generate_photos.py:161-165 | the conversion pass fails only with HEIF support, and only on a file that does not decode |
| Manifest.ConvertHeicFiles | generate_photos.py:161-165 | the loop over the listing computes the reference conversion pass |
| Manifest.ConvertWithoutHeif | generate_photos.py:51-53 | without HEIF support every HEIC file is skipped and the directory is unchanged |
| Manifest.ConvertFails | generate_photos.py:57 | with HEIF support the pass fails exactly when some listed HEIC file does not decode |
| Manifest.ConvertReportsFirst | generate_photos.py:162-165 | the reported file is the first undecodable HEIC file in listing order |
| Manifest.ConvertedEntries | generate_photos.py:161-165 | after the pass a name is present exactly when it was listed and not converted, or is the JPEG of a converted file |
| Manifest.ConvertKeepsNoDuplicates | generate_photos.py:161-165 | the pass keeps directory names distinct |
| Manifest.NoHeicLeft | generate_photos.py:161-165 | with HEIF support no HEIC file remains after a successful pass |
| Manifest.Supported | generate_photos.py:168-171 | the filter keeps exactly the names with a supported extension |
| Manifest.ScanFilesCorrect | generate_photos.py:168-171 | the scan is strictly ascending and holds exactly the supported names |
| Manifest.ScanOrderIrrelevant | generate_photos.py:168-171 | the scan does not depend on the order `os.listdir` returns |
| Manifest.ScannedNames | generate_photos.py:161-171 | after the pass the scan holds each supported listed name and the JPEG of each converted file, once each and in order |
| Manifest.Categories | generate_photos.py:190-195 | the loop computes the category list of a file |
| Manifest.ContainingMembers | generate_photos.py:193-195 | a collection is one of the file's categories exactly when its list holds the file |
| Manifest.CategoriesMembers | generate_photos.py:190-195 | a category is present exactly when it is `favorites` and the file is a favourite, or a collection's list holds the file; `favorites` comes first |
| Manifest.ContainingInOrder | generate_photos.py:193-195 | a file's collections appear in the order of the `collections` mapping: each entry names a collection holding the file, their positions ascend, and every collection holding the file is listed |
| Manifest.ContainingCount | generate_photos.py:193-195 | with distinct collection names, each collection occurs once or not at all, as its list holds the file |
| Manifest.CategoriesExample | generate_photos.py:190-195 | favourite `a.jpg` in `flowers` gets `favorites, flowers`; `b.jpg` gets `flowers`; `c.jpg` gets none |
| Manifest.RecordDate | generate_photos.py:184-187 | a record's date is the EXIF date when there is one, and the modification time otherwise |
| Manifest.BuildRecords | generate_photos.py:179-206 | the loop builds one record per scanned file, in scan order |
| Manifest.SortByDate | generate_photos.py:209 | sorting the records in place gives the stable sort by date |
| Manifest.ManifestOrder | generate_photos.py:209 | the manifest is ascending by date; records of equal date are in file-name order; there is one record per scanned file |
| Manifest.ManifestRecords | generate_photos.py:179-209 | the manifest is a permutation of the scanned files' records, and no file appears twice |
| Manifest.RecordsOnePerFile | generate_photos.py:180-206 | the records name distinct files |
| Manifest.FavCountOfRecords | generate_photos.py:222 | the favourites count is the number of scanned files the favourites list holds |
| Manifest.FavCountIsFavorites | generate_photos.py:222 | the same holds after sorting, given that no collection is named `favorites` |
| Manifest.CollectionCounts | generate_photos.py:223-227 | the nested loops compute the reference tally, names and counts |
| Manifest.BumpAllCounts | generate_photos.py:225-227 | one record's categories raise each non-favourite count by the number of times the category occurs, and keep the tally well-formed |
| Manifest.TallyCounts | generate_photos.py:223-227 | each non-favourite count is the number of occurrences in the manifest |
| Manifest.CollectionCountsCorrect | generate_photos.py:223-227 | the tally lists each category other than `favorites` that occurs, once, with its occurrence count, and nothing else |
| Manifest.OccurrencesOfRecords | generate_photos.py:223-227 | with distinct collection names, a collection occurs as often as the scanned files its list holds |
| Manifest.CollectionCountIsMembership | generate_photos.py:223-227 | the same holds for the sorted manifest |
| Manifest.BumpAllTotal | generate_photos.py:225-227 | one record's categories raise the sum of all counts by the number of its entries other than `favorites` |
| Manifest.TallyTotal | generate_photos.py:223-227 | the collection counts add up to the number of category entries other than `favorites` over all records |
| Manifest.Generate | generate_photos.py:156-227 | `main` computes the reference run |
| Manifest.PipelineErrors | generate_photos.py:156-174 | a run fails with "no directory" exactly when the directory is missing; with an HEIC error exactly when HEIF support is present and some listed HEIC file does not decode; with a configuration error exactly when neither applies and the configuration is malformed |
| Manifest.PipelineRun | generate_photos.py:156-227 | an existing directory whose HEIC files all decode and a readable configuration give a successful run; its manifest is date-sorted with ties in file-name order, is a permutation of the scanned files' records with one per file, and the configuration lists every scanned file. The favourites count and the collection counts are what the manifest and the configuration's lists give. The collection counts add up to the number of non-`favorites` category entries in the manifest |

## Left out

- Image decoding and encoding are not modelled. This covers opening a HEIC with Pillow, saving the JPEG at quality 90, copying the EXIF payload, and `os.remove`. The model keeps only their effect on the directory's names, plus the set of files that fail to decode.
- Pillow's `_getexif`, `TAGS` and `GPSTAGS` are not modelled. The EXIF block enters already keyed by tag name: `Exif.ExifData` holds the tag texts and the GPS fields.
- Exceptions inside `extract_exif` (lines 114-115) are modelled only where they matter. An image that cannot be opened, or has no EXIF block, gives no date and no position. A `GPSInfo` entry that raises while it is read (`Exif.GpsBlock.MalformedGps`) loses the position but keeps the date already stored at line 88. Exceptions raised by Pillow's own tag decoding are not modelled.
- Exif.ExtractGeo: the degrees are exact reals. The model does not capture float arithmetic or the rounding to six decimals at line 111, because floating point is not modelled.
- Exif.ExtractExif: `str(exif[date_tag])` on non-text tag values is not modelled. The tags are texts.
- Timestamps.ParseExif: only ASCII digits are accepted, although Python's `\d` also matches other Unicode decimal digits.
- Strings.Lower: only ASCII upper case is mapped. Python's `str.lower` also lowers other scripts.
- The file modification time and `datetime.fromtimestamp` (lines 186-187) are not modelled. Each file's time arrives as its ISO text through `mtimeOf`.
- Writing `photos_data.json` and `photos_data.js` is not modelled, nor is the JSON text of the configuration (lines 211-219 and 135-136, 149-150). The model keeps the values written, not their serialisation.
- The printed summary (lines 229-234), including `capitalize()`, and all warning prints are not modelled.
- `sys.exit` and the import fallbacks (lines 24-38) are not modelled. HEIF support is the parameter `heifSupport`. A missing directory is the error `PhotosDirMissing`.
- Directory paths (`BASE_DIR`, `PHOTOS_DIR`) are not modelled. The directory is its list of entry names, and those are distinct.
- The configuration keeps only the keys the program reads. A missing key reads as empty. Other keys, and values of the wrong JSON type, are not modelled.
- Duplicate keys in the JSON `collections` object are not modelled. `json.load` keeps one entry per key, while `Config.Configuration.collections` is a sequence. The lemmas whose statement depends on distinct names require `NoDuplicates(Names(...))`.
- A conversion whose `.jpeg` name already exists overwrites that file. The model keeps the name once.
- Conversions that completed before an undecodable HEIC file stops the run are dropped with the error value.
- Concurrent changes to the directory during a run are not modelled.
