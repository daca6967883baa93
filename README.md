# DotNetSiteMapGenerator: the sitemap partition store, in Dafny

`SitemapGenerator` keeps the URLs of a web site in sitemap files ("buckets"). Each file
belongs to one category and holds at most `maximumAllowedEntries` URLs. A file has a
number within its category and a dirty flag (`NeedReWrite`). The generator does four
things with these files:

- it loads the files already on disk;
- `AddUrlEntry` files a new URL into the first file of its category that has room, or
  opens the next-numbered file;
- `RemoveUrl` drops a URL;
- `Save` writes a sitemap index dated by the newest unwritten entry of each file, and then
  rewrites every dirty file.

The model has two layers:

- **Values.** A store is a sequence of `Bucket` values. `PartitionStore.Add`,
  `PartitionStore.Remove`, `Persistence.SaveOf` and `Persistence.AfterSave` say what each
  operation makes of it. The lemmas in `StoreLemmas`, `Persistence`, `Loading` and
  `Scenarios` state what the source promises about those functions.
- **Objects.** `Generator.SitemapGenerator` is a class holding `files: seq<SitemapFile>`.
  `SitemapFiles.SitemapFile` is a class with mutable fields. Each method is proved to leave
  `Buckets()`, the value of its file list, equal to what the value-level function gives
  for the old value.

Modules:

| file | module | contents |
|---|---|---|
| Wrappers.dfy | `Wrappers` | `Option`, `Result` |
| Strings.dfy | `Strings` | 32-bit `int`, `ToLower`/`Trim`, `Split`, `Replace(pat, "")`, `int.ToString` and `int.TryParse` |
| UrlEntries.dfy | `UrlEntries` | `UrlEntry`, `ChangeFrequency` |
| Filenames.dfy | `Filenames` | `GenerateFilename` and the loader's reading of a name |
| SitemapFiles.dfy | `SitemapFiles` | `SitemapFile` (class) and its value `Bucket` |
| PartitionStore.dfy | `PartitionStore` | `Add`, `Remove`, and the store invariants |
| StoreLemmas.dfy | `StoreLemmas` | properties of `Add` and `Remove` |
| Persistence.dfy | `Persistence` | `Save`: the index, the written files, the cleared flags |
| Loading.dfy | `Loading` | the bucket the loader builds from one file |
| Generator.dfy | `Generator` | the `SitemapGenerator` class |
| Filling.dfy | `Filling` | many URLs of one new category: the files they fill |
| Scenarios.dfy | `Scenarios` | two concrete runs |

Three behaviours of the code shape the model:

- A full file is not sealed. `FirstOrDefault(w => w.Entires.Count < maximumAllowedEntries)`
  picks any file of the category that has room again after a removal
  (`Scenarios.RemovalReopensFullFile`).
- Entries go to the first file of the category with room, in list order. The highest
  number of the category is used only to number a new file.
- A loaded file's `Filename` is its name on disk with `.xml` removed and then trimmed
  (SitemapGenerator.cs:109 and 116). `LoadUrlsFromFile` models exactly that; Findings
  explains what goes wrong and gives the corrected reading.

## Model

| member | source | states |
|---|---|---|
| SitemapFiles.SitemapFile.constructor | Models/SitemapFile.cs:15-18 | a new file has no entries, is clean, has number 0, and has empty name and category |
| SitemapFiles.SitemapFile.Initialized | SitemapGenerator.cs:156-162 | the object initializer gives the file exactly the stated name, category, number and flag, with no entries |
| SitemapFiles.SitemapFile.AddEntry | SitemapGenerator.cs:131 | `Entires.Add` appends one entry at the end; name, category, number and flag are unchanged |
| Generator.SitemapGenerator.constructor | SitemapGenerator.cs:18-27 | a generator starts with no files and keeps its base name, cap and separators |
| Generator.SitemapGenerator.LoadUrlsFromFile | SitemapGenerator.cs:107-135 | succeeds exactly when the name, with `.xml` removed and trimmed, has at least three blocks; then appends exactly the loaded bucket, whose name is that stem (`HeaderAsWritten`, as written), and leaves the other files unchanged; otherwise changes nothing |
| Generator.SitemapGenerator.AddUrlEntry | SitemapGenerator.cs:137-191 | the new store value is `Add` of the old one |
| Generator.SitemapGenerator.HoldsUrl | SitemapGenerator.cs:147-149 | returns true exactly when some file already lists the URL |
| Generator.SitemapGenerator.Attach | SitemapGenerator.cs:164 | `sitemapsFiles.Add` appends the file's value and no other file changes |
| Generator.SitemapGenerator.AppendEntry | SitemapGenerator.cs:186-189 | the chosen file gets the entry at its end and becomes dirty; every other file is unchanged |
| Generator.SitemapGenerator.RemoveUrl | SitemapGenerator.cs:318-330 | the new store value is `Remove` of the old one |
| Generator.SitemapGenerator.Save | SitemapGenerator.cs:193-256 | returns `SaveOf` of the old store, and the store becomes `AfterSave` of it (flags cleared on success, untouched on failure) |
| Generator.SitemapGenerator.BuildSitemapIndex | SitemapGenerator.cs:203-222 | returns `BuildIndex` of the store: one record per file, or the error of the first file with no unwritten entry |
| Generator.SitemapGenerator.WriteDirtyFiles | SitemapGenerator.cs:228-255 | writes exactly the dirty files, in list order, and clears every flag |
| UrlEntries.NewEntry | SitemapGenerator.cs:139-145 | the entry `AddUrlEntry` builds: the given URL, category, change frequency and date, not yet written (`Written` defaults to false, UrlEntry.cs:13) |
| UrlEntries.LoadedEntry | SitemapGenerator.cs:124-130 | the entry the loader builds: written, with the file's category and a default date; `Loading.LoadedBucketIsClean` states it |
| Strings.Wrap32 | SitemapGenerator.cs:177 | `num + 1` is the mathematical sum when in range, otherwise equal to it modulo 2^32 |
| Strings.ParseOrZero | SitemapGenerator.cs:112-113 | the file number the loader reads from the third block; `ParseFormatRoundTrip` states that a number written by `ToString()` reads back as itself, and `ParseOrZeroWithoutDigits` that a block with no digit reads as 0 |
| Strings.ParseOrZeroWithoutDigits | SitemapGenerator.cs:112-113 | a block with no digit at all does not parse, and the file's number is then 0 |
| Strings.TryParseInt32 | SitemapGenerator.cs:113 | `int.TryParse` with the default style: surrounding white space, an optional sign, at least one digit, a value inside 32 bits; `ParseFormatRoundTrip` and `ParseOrZeroWithoutDigits` state its behaviour |
| Strings.IntToString | SitemapGenerator.cs:276 | `int.ToString()`: decimal digits with a leading `-` when negative; `ParseFormatRoundTrip` states that it parses back |
| Strings.Split | SitemapGenerator.cs:110 | `string.Split` on one character: at least one piece, and (`SplitPieces`) no piece contains the separator |
| Strings.SplitPieces | SitemapGenerator.cs:110 | no piece returned by `Split` contains the separator |
| Strings.RemoveAll | SitemapGenerator.cs:109 | `Replace(pat, "")`: every non-overlapping occurrence of the pattern removed, scanning from the left; `RemoveAllTrailing` states that a text free of the pattern's first character loses exactly the one occurrence appended to it |
| Strings.RemoveAllTrailing | SitemapGenerator.cs:109 | removing `.xml` from a dot-free text followed by `.xml` gives back that text |
| Strings.Normalize | SitemapGenerator.cs:152 | the category key `ToLower().Trim()` |
| Strings.NormalizeShape | SitemapGenerator.cs:152 | a category key has no white space at either end and no upper-case ASCII letter |
| Strings.ParseFormatRoundTrip | SitemapGenerator.cs:113 | parsing `n.ToString()` gives back `n` for every 32-bit `n` |
| Strings.TrimIdempotent | SitemapGenerator.cs:111 | trimming twice is trimming once |
| Strings.NormalizeTrimmed | SitemapGenerator.cs:152 | the category key `ToLower().Trim()` of a trimmed category equals that of the original |
| Filenames.Padded | SitemapGenerator.cs:274-275 | a two- or four-digit date field is exactly that many digits |
| Filenames.PaddedValue | SitemapGenerator.cs:274-275 | a zero-padded date field reads back as the number it was formatted from |
| Filenames.GenerateFilename | SitemapGenerator.cs:272-278 | the name `base B category B number B dd D MM D yyyy B HH D mm .xml`; its shape is stated by `GeneratedNameShape` and `GeneratedNameBlocks` |
| Filenames.GeneratedNameShape | SitemapGenerator.cs:276-277 | a generated name starts with the base name and a block separator and ends with `.xml` |
| Filenames.StemOfGenerated | SitemapGenerator.cs:109 | the loader's stem of a generated name is the name without `.xml` and without the base name's leading blanks |
| Filenames.StemAsWritten | SitemapGenerator.cs:109 | `Replace(".xml", "").Trim()` of the file name; `StemOfGenerated` states its value on a generated name |
| Filenames.ReadBlocks | SitemapGenerator.cs:110-113 | block 1 trimmed as the category and block 2 parsed (0 on failure) as the number; none when there are fewer than three blocks, where the indexing throws |
| Filenames.HeaderAsWritten | SitemapGenerator.cs:109-119 | the header the loader builds, `Filename` being the stem; `HeaderAsWrittenDropsExtension` states its value on a generated name |
| Filenames.Header | SitemapGenerator.cs:109-119 | the corrected header, `Filename` being the name on disk; `FilenameRoundTrip` states its value on a generated name |
| Filenames.GeneratedNameBlocks | SitemapGenerator.cs:272-278 | a generated name, stripped of `.xml`, splits into exactly five blocks: base name, category, number, date, time |
| Filenames.FilenameRoundTrip | SitemapGenerator.cs:109-113 | the loader reads back the category (trimmed) and the number that `GenerateFilename` wrote, and the header keeps the file's name |
| Filenames.HeaderAsWrittenDropsExtension | SitemapGenerator.cs:109-116 | as written, a loaded file's `Filename` is the generated name minus `.xml`, so it differs from the name on disk |
| PartitionStore.FindFirst | SitemapGenerator.cs:170 | `FirstOrDefault`: the index of the first element satisfying the predicate, or none when no element does |
| PartitionStore.TopNumbered | SitemapGenerator.cs:169 | `Max(w => w.Number)`: a file of the category whose number is at least every other number of the category |
| PartitionStore.Route | SitemapGenerator.cs:152-183 | where a new URL goes: a new file numbered 1 for a new category, otherwise the first file of the category with room (an index into the store), otherwise a new file numbered highest+1 |
| PartitionStore.Add | SitemapGenerator.cs:137-191 | the store after `AddUrlEntry`; the `StoreLemmas.Add*` lemmas and `Filling.FillNewCategory` state its behaviour |
| PartitionStore.Remove | SitemapGenerator.cs:318-330 | the store after `RemoveUrl`; the `StoreLemmas.Remove*` lemmas state its behaviour |
| StoreLemmas.HasUrlIffListed | SitemapGenerator.cs:147-149 | a URL is held by some file exactly when it occurs in the store's list of URLs |
| StoreLemmas.AddDuplicateIsNoOp | SitemapGenerator.cs:147-149 | adding a URL already present anywhere leaves the store unchanged |
| StoreLemmas.AddStartsCategory | SitemapGenerator.cs:153-165 | a category no file matches gets one new dirty file numbered 1, holding only the entry, appended at the end |
| StoreLemmas.AddOpensNextNumber | SitemapGenerator.cs:169-183 | when every file of the category is full, a new dirty file numbered highest+1 (wrapping at the top of `int`) is appended with only the entry |
| StoreLemmas.AddAppendsToFirstOpen | SitemapGenerator.cs:170-189 | otherwise the entry goes to the end of the first file of the category under the cap; only that file changes, and it becomes dirty |
| StoreLemmas.AddGrowsByOne | SitemapGenerator.cs:137-191 | adding a URL not yet present puts exactly one more entry, and one more copy of its URL, into the store |
| StoreLemmas.AddKeepsUrlsUnique | SitemapGenerator.cs:146-149 | if no URL occurs twice before an add, none occurs twice after it |
| StoreLemmas.AddKeepsCapacity | SitemapGenerator.cs:170 | with a cap of at least 1, no file grows past the cap |
| StoreLemmas.AddKeepsCategoriesHomogeneous | SitemapGenerator.cs:152 | every entry stays in a file whose category key equals the entry's |
| StoreLemmas.AddKeepsInvariant | SitemapGenerator.cs:137-191 | with a cap of at least 1, `AddUrlEntry` preserves uniqueness, capacity and category homogeneity together |
| StoreLemmas.RemoveAbsentIsNoOp | SitemapGenerator.cs:318-330 | removing a URL no file holds changes nothing, not even a flag |
| StoreLemmas.RemoveFirstOccurrence | SitemapGenerator.cs:320-327 | removal deletes the first entry for the URL from the first file holding it, keeps the rest in order, and marks only that file dirty |
| StoreLemmas.RemoveDropsOne | SitemapGenerator.cs:322-325 | removal takes exactly one copy of the URL out when present (none otherwise), and the entry count drops by one or zero |
| StoreLemmas.RemoveTwiceIsRemoveOnce | SitemapGenerator.cs:318-330 | with unique URLs, the URL is gone after one removal, and a second removal is a no-op |
| StoreLemmas.RemoveKeepsUrlsUnique | SitemapGenerator.cs:318-330 | removal keeps URLs unique |
| StoreLemmas.RemoveKeepsShape | SitemapGenerator.cs:322-325 | removal keeps every file within the cap and every entry in a file of its category |
| StoreLemmas.RemoveKeepsInvariant | SitemapGenerator.cs:318-330 | `RemoveUrl` preserves the store invariant |
| StoreLemmas.AddedEntryIsSaved | SitemapGenerator.cs:215-217 | a newly added URL sits in a dirty file whose index date is no earlier than the URL's last modification |
| Persistence.LatestUnwritten | SitemapGenerator.cs:215-217 | the index date is the largest `LastModification` of the unwritten entries; there is none exactly when every entry is written |
| Persistence.BuildIndexSucceeds | SitemapGenerator.cs:203-218 | the index is built exactly when every file has an unwritten entry |
| Persistence.BuildIndexRecords | SitemapGenerator.cs:203-222 | a built index has one record per file, in order, naming the file and dated by its newest unwritten entry |
| Persistence.BuildIndexFails | SitemapGenerator.cs:215-217 | a failed index names a file that has no unwritten entry |
| Persistence.BuildIndexPrefixFails | SitemapGenerator.cs:203-218 | once a file fails, the index fails with that file's error whatever follows |
| Persistence.DirtyFilesMembers | SitemapGenerator.cs:228 | the files written are exactly the dirty ones, with their names and entries |
| Persistence.DirtyFilesInOrder | SitemapGenerator.cs:228 | the written files are the dirty buckets at strictly increasing positions, every dirty bucket among them: exactly the dirty files, in list order |
| Persistence.BuildIndex | SitemapGenerator.cs:203-222 | the index over all files in order, failing at the first file with no unwritten entry; `BuildIndexSucceeds`, `BuildIndexRecords` and `BuildIndexFails` state its behaviour |
| Persistence.DirtyFiles | SitemapGenerator.cs:228-254 | the files `Save` writes; `DirtyFilesMembers` and `DirtyFilesInOrder` state which and in what order |
| Persistence.SaveOf | SitemapGenerator.cs:198-255 | what one `Save` produces: nothing to index when nothing is dirty, otherwise the index or its error, and the dirty files; `SaveFailsIff` and `SaveWritesExactlyTheDirty` state its behaviour |
| Persistence.AfterSave | SitemapGenerator.cs:252 | the store after `Save`: every flag cleared on success, unchanged when the index throws; stated by `SaveWritesExactlyTheDirty` and `SecondSaveWritesNothing` |
| Persistence.SaveFailsIff | SitemapGenerator.cs:198-218 | `Save` fails exactly when some file is dirty and some file has no unwritten entry |
| Persistence.SaveWritesExactlyTheDirty | SitemapGenerator.cs:198-255 | a successful save builds the index exactly when something is dirty, writes exactly the dirty files, and leaves every file clean and otherwise unchanged |
| Persistence.NoDirtyFiles | SitemapGenerator.cs:228 | with nothing dirty, no file is written |
| Persistence.CleanSaveWritesNothing | SitemapGenerator.cs:198 | with nothing dirty, `Save` writes neither index nor files and changes nothing |
| Persistence.SecondSaveWritesNothing | SitemapGenerator.cs:252 | after a successful save, a second save writes nothing and changes nothing |
| Persistence.IndexDatesEachBucket | SitemapGenerator.cs:203-222 | each index record names its file, is dated no earlier than any unwritten entry, and is dated by one of them |
| Loading.LoadedBucket | SitemapGenerator.cs:114-134 | the file a header and its `<url>` records make; `LoadedBucketIsClean` states its shape |
| Loading.LoadedBucketIsClean | SitemapGenerator.cs:114-134 | a loaded file is clean, holds one written entry per `<url>` element, in file order and with the file's category, and gives no index date |
| Loading.ReloadedBucketRoutesAlike | SitemapGenerator.cs:109-119 | a file the store wrote is loaded back, as written, under its stem (the generated name without `.xml`, which is all of it before the extension when the base name has no leading blank), with its own number, and accepts exactly the categories the original file did |
| Loading.LoadedBucketBlocksSave | SitemapGenerator.cs:215-217 | while anything is dirty, a loaded file that received no new entry makes `Save` fail and leaves the store unchanged |
| Filling.AddAll | SitemapGenerator.cs:137-191 | `AddUrlEntry` called for each URL of a list in turn, call `k` (from 0) reading the time `clock(k)` from `DateTime.Now` |
| Filling.Filled | SitemapGenerator.cs:153-189 | the files a list of URLs fills in a category of its own, file `j` named with the time read by the call that opened it; `FilledCount` and `FilledShape` state what they are |
| Filling.FillNewCategory | SitemapGenerator.cs:137-191 | adding pairwise distinct new URLs of a category no file has yet leaves the old files as they were and appends exactly `Filled` of the URLs, for whatever time each call reads |
| Filling.FilledCount | SitemapGenerator.cs:153-183 | `N` URLs at a cap of `k >= 1` fill `ceil(N / k)` files |
| Filling.FilledShape | SitemapGenerator.cs:153-189 | file `j` is numbered `j + 1`, has the category, is dirty, is named by `GenerateFilename` for its number and the time `clock(j*k)` read by the call that filed its first URL, and holds the URLs `j*k` up to `j*k + k` in the order added; every file is full except the last, which holds the rest (1 to `k`) |
| Filling.FileCountIsCeil | SitemapGenerator.cs:170-177 | the number of files is `(N + k - 1) / k` |
| Scenarios.ThirdEntrySpills | SitemapGenerator.cs:153-189 | with a cap of 2, three blog URLs give file 1 holding the first two and file 2 holding the third |
| Scenarios.RemovalReopensFullFile | SitemapGenerator.cs:170 | removing a URL from a full file lets the next URL of its category go back into that file |

## Left out

- XML reading and writing, `createDefaultXmlDocument`, and the index file name: a written file is modelled as its name and its entries. A loaded file is given as its name and its list of `(loc, changefreq)` records.
- The `Parallel.ForEach` that renders a file's entries runs concurrently on one `XmlDocument`, so the order, and even the integrity, of the rendered elements is not guaranteed. `Persistence.DirtyFiles` lists the entries in bucket order.
- `Task.Run`/`async`, `PingSearchEngines` and the auto-ping at the end of `Save`: concurrency and network I/O.
- A failed document write is not modelled. The source clears `NeedReWrite` before `document.Save`, so such a failure would leave the file clean but stale.
- `Build`, `LoadCreatedSitemaps` (the directory glob), `Directory` creation and the builder setters (`WithFilename`, `WithMaximumThreads`, ...). The generator's constructor takes the base name, the cap and the separators directly. `WithMaximumThreads` assigns to `maximumAllowedEntries`, so any bug there is outside this model.
- Resolving a relative URL against the domain (`new Uri(...)`): `AddUrlEntry` takes the absolute URL.
- `DateTime.Now` is the parameter `now` of one call, and in `Filling`, where many calls follow each other, a clock `clock` whose `clock(k)` is the time read by the `k`-th call; both are down to the minute, since the name format has no seconds. `DateTime` values are ticks (`nat`), and a loaded entry's is 0 (`default(DateTime)`).
- `Enum.Parse` of `changefreq` and its failure: a loaded record carries the parsed value.
- `FilenameSeparators` is not part of this model. The two separators are a parameter. `Filenames.ValidSeparators` states what the round-trip lemmas need of them: the block separator differs from the date separator; neither is a dot; the block separator is not a minus sign, a digit or white space; the date separator is not a digit.
- Filenames.FormatStamp: it writes the separators as literal characters. In a .NET custom date format, `/` and `:` are replaced by the culture's separators, format letters (`d`, `M`, `y`, `H`, `m`, `h`, `s`, `f`, `t`, `z`, `g`, `K`, ...), `%`, `\` and quotes have meanings of their own, and the calendar is that of the current culture; the model covers separators that are none of these, in the Gregorian calendar.
- The directory glob `*.xml` is case-insensitive on Windows, so a file ending in `.XML` is loaded too, and `Replace(Path.GetExtension(filePath), "")` then removes `.XML`. Filenames.StemAsWritten removes only `.xml`.
- PartitionStore.Add: a `null` category throws a `NullReferenceException` at SitemapGenerator.cs:152 as soon as any file exists. Categories here are strings, so that case is not modelled.
- Filenames.GeneratedNameBlocks: it requires that neither the base name nor the category contains a dot. Only an inner `.xml` would actually be cut out by the loader, so a name such as `v1.2` is excluded although it would round-trip.
- Filenames.HeaderAsWrittenDropsExtension: same dot restriction as `GeneratedNameBlocks`, for the same reason.
- Loading.ReloadedBucketRoutesAlike: same dot restriction as `GeneratedNameBlocks`, for the same reason.
- Filenames.StemOfGenerated: same dot restriction as `GeneratedNameBlocks`, for the same reason.
- `Strings.Lower` lower-cases ASCII letters only. `Strings.Trim` trims space and U+0009 to U+000D; .NET's `Trim` also trims other Unicode white space.
- A `null` `Filename`/`Category` of a fresh `SitemapFile` is modelled as the empty string.
- `AddUrlEventArgs` and `ISitemapGenerator` are not part of this model: an event-argument type and an interface with no behaviour.
- The loader's `Replace(Path.GetExtension(filePath), "")` is modelled with the extension fixed to `.xml`; a file ending in `.XML`, which the glob also admits, is the case named in the `*.xml` glob line above.
- Filenames.FilenameRoundTrip: it requires that neither the base name nor the category contains a dot. Only an inner `.xml` would actually be cut out by the loader, so this is stronger than needed.
- `UrlEntry` is a reference type in the source. It is a value here, and the `List.Remove(urlEntry)` in `RemoveUrl` is modelled as deleting the first entry with the URL, which is the same element.

## Findings

| source | as written | input that shows it | evidently intended | confidence | as-written member | corrected member |
|---|---|---|---|---|---|---|
| SitemapGenerator.cs:109-116 | the loader sets `Filename` to the file name with `.xml` removed. `Save` then writes a dirty file to `Path.Combine(workingPath, Filename)` and names it in the index. `LoadUrlsFromFile` models this reading (`HeaderAsWritten`); `Filenames.Header` is the corrected one. | `sitemap_blog_1_01-02-2024_10-30.xml` on disk, then `AddUrlEntry` of a new blog URL, then `Save`: the file is rewritten as `sitemap_blog_1_01-02-2024_10-30`, without an extension, and the `.xml` file stays stale | a loaded file keeps the name it was read from, as generated names (which end in `.xml`) do | not executed | Filenames.HeaderAsWrittenDropsExtension | Filenames.FilenameRoundTrip |
