/**
 * `LoadUrlsFromFile` on values: a file already on disk becomes a clean bucket whose
 * entries are all marked written. Reading the XML is not modelled; its `<url>` elements
 * arrive as records.
 */
module Loading {
  import opened Strings
  import opened UrlEntries
  import opened Filenames
  import opened SitemapFiles
  import opened PartitionStore
  import opened Persistence

  /** The `<loc>` and `<changefreq>` of one `<url>` element. */
  datatype Record = Record(url: string, changeFrequency: ChangeFrequency)

  function LoadedEntries(category: string, records: seq<Record>): seq<UrlEntry>
  {
    seq(|records|, i requires 0 <= i < |records| => LoadedEntry(records[i].url, category, records[i].changeFrequency))
  }

  /** The bucket the loader adds for a file with header `h` and elements `records`. */
  function LoadedBucket(h: FileHeader, records: seq<Record>): Bucket
  {
    Bucket(h.filename, h.category, h.number, false, LoadedEntries(h.category, records))
  }

  /**
   * A loaded bucket starts clean, holds one written entry per element in file order with
   * the file's category, and has nothing to date an index record with.
   */
  lemma LoadedBucketIsClean(h: FileHeader, records: seq<Record>)
    ensures var b := LoadedBucket(h, records);
      && !b.needReWrite
      && |b.entries| == |records|
      && (forall i | 0 <= i < |records| :: b.entries[i].url == records[i].url
            && b.entries[i].changeFrequency == records[i].changeFrequency
            && b.entries[i].category == h.category && b.entries[i].lastModification == 0)
      && AllWritten(b.entries)
      && LatestUnwritten(b.entries).None?
      && CategoriesHomogeneous([b])
  {
  }

  /**
   * A file the store wrote comes back with its own number and (trimmed) category, and the
   * reloaded bucket receives exactly the categories the original one did. Its name is the
   * stem the loader keeps: the generated name without `.xml` (when the base name does not
   * start with white space, which the loader trims).
   */
  lemma ReloadedBucketRoutesAlike(baseName: string, seps: Separators, category: string, number: Int32, now: Stamp,
                                  records: seq<Record>, other: string)
    requires ValidSeparators(seps) && ValidStamp(now)
    requires seps.block !in baseName && '.' !in baseName
    requires seps.block !in category && '.' !in category
    ensures var name := GenerateFilename(baseName, seps, category, number, now);
      && HeaderAsWritten(seps, name).Some?
      && var b := LoadedBucket(HeaderAsWritten(seps, name).value, records);
      && b.filename == StemAsWritten(name)
      && ((|baseName| == 0 || !IsWhiteSpace(baseName[0])) ==> b.filename + Extension == name)
      && b.number == number
      && (Matches(b, other) <==> Normalize(category) == Normalize(other))
  {
    FilenameRoundTrip(baseName, seps, category, number, now);
    NormalizeTrimmed(category);
    if |baseName| == 0 || !IsWhiteSpace(baseName[0]) {
      HeaderAsWrittenDropsExtension(baseName, seps, category, number, now);
    }
  }

  /**
   * Once anything is dirty, a bucket loaded from disk and not added to since makes the
   * index, and so the whole `Save`, fail.
   */
  lemma LoadedBucketBlocksSave(bs: seq<Bucket>, i: nat, h: FileHeader, records: seq<Record>)
    requires i < |bs| && bs[i] == LoadedBucket(h, records)
    requires AnyDirty(bs)
    ensures SaveOf(bs).Failure?
    ensures AfterSave(bs) == bs
  {
    LoadedBucketIsClean(h, records);
    SaveFailsIff(bs);
  }
}
