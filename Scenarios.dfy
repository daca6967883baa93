/**
 * Concrete runs of the store: a category spilling into a second file, and a removal
 * making room in a full file again.
 */
module Scenarios {
  import opened UrlEntries
  import opened Filenames
  import opened SitemapFiles
  import opened PartitionStore
  import opened StoreLemmas

  function Blog(url: string, t: nat): UrlEntry
  {
    NewEntry(url, "blog", Daily, t)
  }

  /**
   * With a cap of two, three blog URLs fill file 1 with the first two and open file 2 for
   * the third; both files are dirty.
   */
  lemma ThirdEntrySpills(baseName: string, seps: Separators, now: Stamp, t1: nat, t2: nat, t3: nat)
    requires ValidStamp(now)
    ensures var s1 := Add([], Blog("/a", t1), 2, baseName, seps, now);
      var s2 := Add(s1, Blog("/b", t2), 2, baseName, seps, now);
      var s3 := Add(s2, Blog("/c", t3), 2, baseName, seps, now);
      s3 == [Bucket(GenerateFilename(baseName, seps, "blog", 1, now), "blog", 1, true, [Blog("/a", t1), Blog("/b", t2)]),
             Bucket(GenerateFilename(baseName, seps, "blog", 2, now), "blog", 2, true, [Blog("/c", t3)])]
  {
    var a, b, c := Blog("/a", t1), Blog("/b", t2), Blog("/c", t3);
    var f1 := Bucket(GenerateFilename(baseName, seps, "blog", 1, now), "blog", 1, true, [a]);
    AddStartsCategory([], a, 2, baseName, seps, now);
    var s1 := Add([], a, 2, baseName, seps, now);
    assert s1 == [f1];
    assert !HasUrl(s1, "/b") by { assert s1[0].entries == [a]; }
    AddAppendsToFirstOpen(s1, b, 2, baseName, seps, now, 0);
    var s2 := Add(s1, b, 2, baseName, seps, now);
    assert [a] + [b] == [a, b];
    assert s2 == [f1.(entries := [a, b])];
    assert !HasUrl(s2, "/c") by { assert s2[0].entries == [a, b]; }
    AddOpensNextNumber(s2, c, 2, baseName, seps, now, 0);
  }

  /** Removing "/a" from a full file of two leaves one entry and marks the file dirty. */
  lemma RemoveFromFullFile(fileName: string, t1: nat, t2: nat)
    ensures Remove([Bucket(fileName, "blog", 1, false, [Blog("/a", t1), Blog("/b", t2)])], "/a")
         == [Bucket(fileName, "blog", 1, true, [Blog("/b", t2)])]
  {
    var a, b := Blog("/a", t1), Blog("/b", t2);
    var full := [Bucket(fileName, "blog", 1, false, [a, b])];
    assert full[0].entries[0].url == "/a";
    RemoveFirstOccurrence(full, "/a", 0, 0);
    assert [a, b][..0] + [a, b][1..] == [b];
  }

  /** The next blog URL goes into a file of the category that has room, here the only one. */
  lemma AddRefillsFile(fileName: string, t2: nat, t3: nat, baseName: string, seps: Separators, now: Stamp)
    requires ValidStamp(now)
    ensures Add([Bucket(fileName, "blog", 1, true, [Blog("/b", t2)])], Blog("/d", t3), 2, baseName, seps, now)
         == [Bucket(fileName, "blog", 1, true, [Blog("/b", t2), Blog("/d", t3)])]
  {
    var b, d := Blog("/b", t2), Blog("/d", t3);
    var reopened := [Bucket(fileName, "blog", 1, true, [b])];
    assert !HasUrl(reopened, "/d") by { assert reopened[0].entries[0].url == "/b"; }
    AddAppendsToFirstOpen(reopened, d, 2, baseName, seps, now, 0);
    assert [b] + [d] == [b, d];
    assert reopened[0 := reopened[0].(needReWrite := true, entries := reopened[0].entries + [d])]
        == [Bucket(fileName, "blog", 1, true, [b, d])];
  }

  /**
   * A full file is not closed for good: once a URL is removed from it, the next URL of its
   * category goes back into it rather than into a newer file.
   */
  lemma RemovalReopensFullFile(fileName: string, t1: nat, t2: nat, t3: nat,
                               baseName: string, seps: Separators, now: Stamp)
    requires ValidStamp(now)
    ensures var full := [Bucket(fileName, "blog", 1, false, [Blog("/a", t1), Blog("/b", t2)])];
      Add(Remove(full, "/a"), Blog("/d", t3), 2, baseName, seps, now)
        == [Bucket(fileName, "blog", 1, true, [Blog("/b", t2), Blog("/d", t3)])]
  {
    RemoveFromFullFile(fileName, t1, t2);
    AddRefillsFile(fileName, t2, t3, baseName, seps, now);
  }
}
