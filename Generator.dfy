/**
 * The `SitemapGenerator` object: the list of sitemap files it owns, updated in place by
 * `LoadUrlsFromFile`, `AddUrlEntry`, `RemoveUrl` and `Save`. Each method is proved to turn
 * the list's value into what the value-level model of the store says.
 */
module Generator {
  import opened Wrappers
  import opened Strings
  import opened UrlEntries
  import opened Filenames
  import opened SitemapFiles
  import opened PartitionStore
  import opened StoreLemmas
  import opened Persistence
  import opened Loading

  class SitemapGenerator {
    /** `sitemapsFiles`: the buckets, in the order they were loaded or created. */
    var files: seq<SitemapFile>
    const baseFilename: string
    const maximumAllowedEntries: int
    const separators: Separators

    /** No file object is listed twice, so updating one bucket leaves the others alone. */
    ghost predicate Valid()
      reads this
    {
      forall i, j | 0 <= i < j < |files| :: files[i] != files[j]
    }

    static function Snapshot(fs: seq<SitemapFile>): (bs: seq<Bucket>)
      reads fs
      ensures |bs| == |fs| && forall i | 0 <= i < |fs| :: bs[i] == fs[i].Value()
      decreases |fs|
    {
      if |fs| == 0 then [] else Snapshot(fs[..|fs| - 1]) + [fs[|fs| - 1].Value()]
    }

    /** The value of the store: every file's value, in list order. */
    function Buckets(): (bs: seq<Bucket>)
      reads this, files
      ensures |bs| == |files| && forall i | 0 <= i < |files| :: bs[i] == files[i].Value()
    {
      Snapshot(files)
    }

    /** A generator with the given configuration and no files loaded yet. */
    constructor (baseFilename: string, maximumAllowedEntries: int, separators: Separators)
      ensures Valid() && Buckets() == []
      ensures this.baseFilename == baseFilename && this.maximumAllowedEntries == maximumAllowedEntries
      ensures this.separators == separators
    {
      this.baseFilename := baseFilename;
      this.maximumAllowedEntries := maximumAllowedEntries;
      this.separators := separators;
      files := [];
    }

    /**
     * Adds the bucket for one file found on disk. Returns false where the source throws:
     * the name has fewer than three blocks. As in the source, the bucket's name is the
     * file name with `.xml` removed and trimmed (`HeaderAsWritten`).
     */
    method LoadUrlsFromFile(fileName: string, records: seq<Record>) returns (loaded: bool)
      requires Valid()
      modifies this
      ensures Valid()
      ensures loaded == HeaderAsWritten(separators, fileName).Some?
      ensures loaded ==> Buckets() == old(Buckets()) + [LoadedBucket(HeaderAsWritten(separators, fileName).value, records)]
      ensures !loaded ==> Buckets() == old(Buckets())
    {
      var header := HeaderAsWritten(separators, fileName);
      if header.None? {
        return false;
      }
      var h := header.value;
      var f := new SitemapFile.Initialized(h.filename, h.category, h.number, false);
      var i := 0;
      while i < |records|
        invariant 0 <= i <= |records|
        invariant files == old(files)
        invariant f.Value() == LoadedBucket(h, records[..i])
      {
        f.AddEntry(LoadedEntry(records[i].url, h.category, records[i].changeFrequency));
        assert LoadedEntries(h.category, records[..i + 1])
            == LoadedEntries(h.category, records[..i]) + [LoadedEntry(records[i].url, h.category, records[i].changeFrequency)];
        i := i + 1;
      }
      assert records[..i] == records;
      Attach(f);
      loaded := true;
    }

    /** `AddUrlEntry` with the URL already made absolute and `DateTime.Now` given as `now`. */
    method AddUrlEntry(absoluteUrl: string, category: string, changeFrequency: ChangeFrequency,
                       lastModification: nat, now: Stamp)
      requires Valid() && ValidStamp(now)
      modifies this, files
      ensures Valid()
      ensures Buckets() == Add(old(Buckets()), NewEntry(absoluteUrl, category, changeFrequency, lastModification),
                               maximumAllowedEntries, baseFilename, separators, now)
    {
      var entry := NewEntry(absoluteUrl, category, changeFrequency, lastModification);
      ghost var bs := Buckets();
      var duplicate := HoldsUrl(entry.url);
      if duplicate {
        return;
      }
      var placement := Route(Buckets(), category, maximumAllowedEntries);
      ghost var target := Add(bs, entry, maximumAllowedEntries, baseFilename, separators, now);
      if placement.Create? {
        var n := placement.number;
        assert target == bs + [NewBucket(entry, n, baseFilename, separators, now)];
        var f := new SitemapFile.Initialized(GenerateFilename(baseFilename, separators, category, n, now), category, n, true);
        f.AddEntry(entry);
        assert f.Value() == NewBucket(entry, n, baseFilename, separators, now);
        assert Buckets() == bs;
        Attach(f);
      } else {
        assert target == bs[placement.index := bs[placement.index].(needReWrite := true, entries := bs[placement.index].entries + [entry])];
        AppendEntry(placement.index, entry);
      }
    }

    /** The duplicate check of `AddUrlEntry`: does any file already list `url`? */
    method HoldsUrl(url: string) returns (found: bool)
      ensures found == HasUrl(Buckets(), url)
    {
      var i := 0;
      while i < |files|
        invariant 0 <= i <= |files|
        invariant forall j | 0 <= j < i :: !ContainsUrl(files[j].entries, url)
      {
        if ContainsUrl(files[i].entries, url) {
          assert ContainsUrl(Buckets()[i].entries, url);
          return true;
        }
        i := i + 1;
      }
      return false;
    }

    /** `sitemapsFiles.Add`: lists a file object not yet listed, after the others. */
    method Attach(f: SitemapFile)
      requires Valid() && f !in files
      modifies this
      ensures Valid()
      ensures Buckets() == old(Buckets()) + [f.Value()]
    {
      ghost var prior := files;
      files := files + [f];
      assert forall j | 0 <= j < |prior| :: files[j] == prior[j];
    }

    /** Adds `entry` to the `k`-th file and marks it for rewriting; the other files keep their values. */
    method AppendEntry(k: nat, entry: UrlEntry)
      requires Valid() && k < |files|
      modifies files[k]
      ensures Valid()
      ensures Buckets() == old(Buckets())[k := old(Buckets())[k].(needReWrite := true, entries := old(Buckets())[k].entries + [entry])]
    {
      var f := files[k];
      f.needReWrite := true;
      f.AddEntry(entry);
    }

    /** `RemoveUrl`: drops the first entry for `url` from the first file holding it. */
    method RemoveUrl(url: string)
      requires Valid()
      modifies files
      ensures Valid()
      ensures Buckets() == Remove(old(Buckets()), url)
    {
      ghost var bs := Buckets();
      var i := 0;
      while i < |files|
        invariant 0 <= i <= |files|
        invariant Buckets() == bs
        invariant forall j | 0 <= j < i :: !ContainsUrl(files[j].entries, url)
      {
        var f := files[i];
        var k := FirstUrlIndex(f.entries, url);
        if k.Some? {
          RemoveFirstOccurrence(bs, url, i, k.value);
          f.entries := RemoveAt(f.entries, k.value);
          f.needReWrite := true;
          assert Buckets() == bs[i := bs[i].(needReWrite := true, entries := RemoveAt(bs[i].entries, k.value))];
          return;
        }
        i := i + 1;
      }
      RemoveAbsentIsNoOp(bs, url);
    }

    /**
     * `Save` without the XML: returns the index it would write (when some file is dirty)
     * and the files it writes, or the error that aborts it before anything is written.
     */
    method Save() returns (r: Result<SaveReport, SaveError>)
      requires Valid()
      modifies files
      ensures Valid()
      ensures r == SaveOf(old(Buckets()))
      ensures Buckets() == AfterSave(old(Buckets()))
    {
      var index: Option<seq<IndexEntry>> := None;
      if AnyDirty(Buckets()) {
        var built := BuildSitemapIndex();
        if built.Failure? {
          return Failure(built.error);
        }
        index := Some(built.value);
      }
      var written := WriteDirtyFiles();
      r := Success(SaveReport(index, written));
    }

    /** The `sitemapindex` pass of `Save`: one record per file, or the error of the first file without an unwritten entry. */
    method BuildSitemapIndex() returns (r: Result<seq<IndexEntry>, SaveError>)
      ensures r == BuildIndex(Buckets())
    {
      ghost var bs := Buckets();
      var ix := [];
      var i := 0;
      while i < |files|
        invariant 0 <= i <= |files|
        invariant BuildIndex(bs[..i]) == Success(ix)
      {
        var latest := LatestUnwritten(files[i].entries);
        assert bs[..i + 1][..i] == bs[..i];
        if latest.None? {
          BuildIndexPrefixFails(bs, i + 1);
          return Failure(NoUnwrittenEntry(files[i].filename));
        }
        ix := ix + [IndexEntry(files[i].filename, latest.value)];
        i := i + 1;
      }
      assert bs[..i] == bs;
      return Success(ix);
    }

    /** The write pass of `Save`: every dirty file is written and its flag cleared. */
    method WriteDirtyFiles() returns (written: seq<WrittenFile>)
      requires Valid()
      modifies files
      ensures Valid()
      ensures written == DirtyFiles(old(Buckets()))
      ensures Buckets() == Cleared(old(Buckets()))
    {
      ghost var bs := Buckets();
      written := [];
      var i := 0;
      while i < |files|
        invariant 0 <= i <= |files|
        invariant written == DirtyFiles(bs[..i])
        invariant forall j | 0 <= j < i :: files[j].Value() == bs[j].(needReWrite := false)
        invariant forall j | i <= j < |files| :: files[j].Value() == bs[j]
      {
        var f := files[i];
        DirtyFilesStep(bs, i);
        if f.needReWrite {
          // the flag is cleared before the document is saved
          f.needReWrite := false;
          written := written + [WrittenFile(f.filename, f.entries)];
        }
        i := i + 1;
      }
      assert bs[..i] == bs;
    }
  }
}
