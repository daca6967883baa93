/**
 * What `Save` does with the store: build the index when some bucket is dirty, write every
 * dirty bucket, clear the flags. The XML documents themselves are not modelled; a written
 * file is its name and its entries.
 */
module Persistence {
  import opened Wrappers
  import opened UrlEntries
  import opened SitemapFiles

  /**
   * The index "lastmod" of a bucket: the latest `LastModification` among its entries not yet
   * written. None where the source's `First()` throws: no such entry.
   */
  function LatestUnwritten(es: seq<UrlEntry>): (r: Option<nat>)
    ensures r.None? <==> AllWritten(es)
    ensures r.Some? ==> exists k | 0 <= k < |es| :: !es[k].written && es[k].lastModification == r.value
    ensures r.Some? ==> forall k | 0 <= k < |es| :: !es[k].written ==> es[k].lastModification <= r.value
    decreases |es|
  {
    if |es| == 0 then None
    else
      var e := es[|es| - 1];
      var rest := LatestUnwritten(es[..|es| - 1]);
      if e.written then rest
      else match rest
        case None => Some(e.lastModification)
        case Some(m) => Some(if e.lastModification > m then e.lastModification else m)
  }

  /** Every entry came from disk: the state of a bucket the loader built and nothing was added to. */
  predicate AllWritten(es: seq<UrlEntry>)
  {
    forall k | 0 <= k < |es| :: es[k].written
  }

  /** One `<sitemap>` record of the index. */
  datatype IndexEntry = IndexEntry(filename: string, lastModification: nat)

  /** The exception `Save` ends with: a bucket has no unwritten entry to date the index with. */
  datatype SaveError = NoUnwrittenEntry(filename: string)

  /** The index over ALL buckets, in order; fails at the first bucket without an unwritten entry. */
  function BuildIndex(bs: seq<Bucket>): Result<seq<IndexEntry>, SaveError>
    decreases |bs|
  {
    if |bs| == 0 then Success([])
    else
      var b := bs[|bs| - 1];
      match BuildIndex(bs[..|bs| - 1])
      case Failure(err) => Failure(err)
      case Success(ix) =>
        match LatestUnwritten(b.entries)
        case None => Failure(NoUnwrittenEntry(b.filename))
        case Some(m) => Success(ix + [IndexEntry(b.filename, m)])
  }

  predicate AnyDirty(bs: seq<Bucket>)
  {
    exists i | 0 <= i < |bs| :: bs[i].needReWrite
  }

  /** A file `Save` writes: its name and the entries rendered into it, in order. */
  datatype WrittenFile = WrittenFile(filename: string, entries: seq<UrlEntry>)

  /** The files of the dirty buckets, in store order. */
  function DirtyFiles(bs: seq<Bucket>): seq<WrittenFile>
    decreases |bs|
  {
    if |bs| == 0 then []
    else
      var b := bs[|bs| - 1];
      DirtyFiles(bs[..|bs| - 1]) + (if b.needReWrite then [WrittenFile(b.filename, b.entries)] else [])
  }

  /** One more bucket adds its file when it is dirty and nothing otherwise. */
  lemma DirtyFilesStep(bs: seq<Bucket>, i: nat)
    requires i < |bs|
    ensures DirtyFiles(bs[..i + 1])
         == DirtyFiles(bs[..i]) + (if bs[i].needReWrite then [WrittenFile(bs[i].filename, bs[i].entries)] else [])
  {
    assert bs[..i + 1][..i] == bs[..i];
  }

  /** What one `Save` produces: the index when one was built, and the files written. */
  datatype SaveReport = SaveReport(index: Option<seq<IndexEntry>>, written: seq<WrittenFile>)

  function SaveOf(bs: seq<Bucket>): Result<SaveReport, SaveError>
  {
    if !AnyDirty(bs) then Success(SaveReport(None, DirtyFiles(bs)))
    else match BuildIndex(bs)
      case Failure(err) => Failure(err)
      case Success(ix) => Success(SaveReport(Some(ix), DirtyFiles(bs)))
  }

  /** Every bucket with its flag cleared. */
  function Cleared(bs: seq<Bucket>): seq<Bucket>
  {
    seq(|bs|, i requires 0 <= i < |bs| => bs[i].(needReWrite := false))
  }

  /** The store after `Save`: flags cleared on success, untouched when the index throws. */
  function AfterSave(bs: seq<Bucket>): seq<Bucket>
  {
    if SaveOf(bs).Success? then Cleared(bs) else bs
  }

  // ---------------------------------------------------------------------------
  // Lemmas

  /** The index succeeds exactly when every bucket has an unwritten entry. */
  lemma {:induction false} BuildIndexSucceeds(bs: seq<Bucket>)
    ensures BuildIndex(bs).Success? <==> forall i | 0 <= i < |bs| :: LatestUnwritten(bs[i].entries).Some?
    decreases |bs|
  {
    if |bs| > 0 {
      var init := bs[..|bs| - 1];
      BuildIndexSucceeds(init);
      assert forall i | 0 <= i < |init| :: init[i] == bs[i];
    }
  }

  /** A built index holds one record per bucket, in order, dated by that bucket's latest unwritten entry. */
  lemma {:induction false} BuildIndexRecords(bs: seq<Bucket>)
    requires BuildIndex(bs).Success?
    ensures |BuildIndex(bs).value| == |bs|
    ensures forall i | 0 <= i < |bs| :: (LatestUnwritten(bs[i].entries).Some? &&
      BuildIndex(bs).value[i] == IndexEntry(bs[i].filename, LatestUnwritten(bs[i].entries).value))
    decreases |bs|
  {
    if |bs| > 0 {
      var init := bs[..|bs| - 1];
      BuildIndexRecords(init);
      assert forall i | 0 <= i < |init| :: init[i] == bs[i];
    }
  }

  /** A failed index names a bucket with no unwritten entry. */
  lemma {:induction false} BuildIndexFails(bs: seq<Bucket>)
    requires BuildIndex(bs).Failure?
    ensures exists i | 0 <= i < |bs| ::
      LatestUnwritten(bs[i].entries).None? && BuildIndex(bs).error == NoUnwrittenEntry(bs[i].filename)
    decreases |bs|
  {
    var init := bs[..|bs| - 1];
    if BuildIndex(init).Failure? {
      BuildIndexFails(init);
      var i :| 0 <= i < |init| && LatestUnwritten(init[i].entries).None?
               && BuildIndex(init).error == NoUnwrittenEntry(init[i].filename);
      assert init[i] == bs[i];
    }
  }

  /** The written files are exactly the dirty buckets' names and entries. */
  lemma {:induction false} DirtyFilesMembers(bs: seq<Bucket>)
    ensures forall w :: w in DirtyFiles(bs) <==> exists i | 0 <= i < |bs| ::
      bs[i].needReWrite && w == WrittenFile(bs[i].filename, bs[i].entries)
    decreases |bs|
  {
    if |bs| > 0 {
      var init := bs[..|bs| - 1];
      DirtyFilesMembers(init);
      assert forall i | 0 <= i < |init| :: init[i] == bs[i];
    }
  }

  /** `ws[j]` is the file of the dirty bucket at position `idx[j]`. */
  ghost predicate Picks(bs: seq<Bucket>, idx: seq<nat>, ws: seq<WrittenFile>)
  {
    |idx| == |ws| &&
    forall j | 0 <= j < |idx| :: idx[j] < |bs| && bs[idx[j]].needReWrite
      && ws[j] == WrittenFile(bs[idx[j]].filename, bs[idx[j]].entries)
  }

  ghost predicate Increasing(idx: seq<nat>)
  {
    forall j, k | 0 <= j < k < |idx| :: idx[j] < idx[k]
  }

  /** Every dirty bucket's position is listed. */
  ghost predicate CoversDirty(bs: seq<Bucket>, idx: seq<nat>)
  {
    forall i | 0 <= i < |bs| && bs[i].needReWrite :: i in idx
  }

  /**
   * `ws` lists the buckets of `bs` at positions `idx`: dirty buckets only, at strictly
   * increasing positions, every dirty bucket among them.
   */
  ghost predicate DirtyInOrder(bs: seq<Bucket>, idx: seq<nat>, ws: seq<WrittenFile>)
  {
    Picks(bs, idx, ws) && Increasing(idx) && CoversDirty(bs, idx)
  }

  lemma PicksPrefix(bs: seq<Bucket>, m: nat, idx: seq<nat>, ws: seq<WrittenFile>)
    requires m <= |bs| && Picks(bs[..m], idx, ws)
    ensures Picks(bs, idx, ws)
  {
    forall j | 0 <= j < |idx|
      ensures idx[j] < |bs| && bs[idx[j]].needReWrite
           && ws[j] == WrittenFile(bs[idx[j]].filename, bs[idx[j]].entries)
    {
      assert bs[..m][idx[j]] == bs[idx[j]];
    }
  }

  lemma PicksAppend(bs: seq<Bucket>, idx: seq<nat>, ws: seq<WrittenFile>, n: nat)
    requires Picks(bs, idx, ws) && n < |bs| && bs[n].needReWrite
    ensures Picks(bs, idx + [n], ws + [WrittenFile(bs[n].filename, bs[n].entries)])
  {
    var idx' := idx + [n];
    var ws' := ws + [WrittenFile(bs[n].filename, bs[n].entries)];
    forall j | 0 <= j < |idx'|
      ensures idx'[j] < |bs| && bs[idx'[j]].needReWrite
           && ws'[j] == WrittenFile(bs[idx'[j]].filename, bs[idx'[j]].entries)
    {
      if j < |idx| {
        assert idx'[j] == idx[j] && ws'[j] == ws[j];
      }
    }
  }

  lemma PicksStep(bs: seq<Bucket>, idx: seq<nat>)
    requires |bs| > 0 && Picks(bs[..|bs| - 1], idx, DirtyFiles(bs[..|bs| - 1]))
    ensures var n := |bs| - 1;
      Picks(bs, if bs[n].needReWrite then idx + [n] else idx, DirtyFiles(bs))
  {
    var n := |bs| - 1;
    var ws := DirtyFiles(bs[..n]);
    PicksPrefix(bs, n, idx, ws);
    if bs[n].needReWrite {
      assert DirtyFiles(bs) == ws + [WrittenFile(bs[n].filename, bs[n].entries)];
      PicksAppend(bs, idx, ws, n);
    } else {
      assert DirtyFiles(bs) == ws;
    }
  }

  lemma CoversStep(bs: seq<Bucket>, idx: seq<nat>)
    requires |bs| > 0 && CoversDirty(bs[..|bs| - 1], idx)
    ensures var n := |bs| - 1;
      CoversDirty(bs, if bs[n].needReWrite then idx + [n] else idx)
  {
    var n := |bs| - 1;
    var idx' := if bs[n].needReWrite then idx + [n] else idx;
    forall i | 0 <= i < |bs| && bs[i].needReWrite
      ensures i in idx'
    {
      if i < n {
        assert bs[..n][i] == bs[i];
        assert i in idx;
      }
    }
  }

  lemma IncreasingStep(idx: seq<nat>, n: nat)
    requires Increasing(idx) && forall j | 0 <= j < |idx| :: idx[j] < n
    ensures Increasing(idx + [n])
  {
  }

  /**
   * The written files follow store order: they are the dirty buckets taken at strictly
   * increasing positions, each dirty bucket exactly once.
   */
  lemma {:induction false} DirtyFilesInOrder(bs: seq<Bucket>)
    ensures exists idx: seq<nat> :: DirtyInOrder(bs, idx, DirtyFiles(bs))
    decreases |bs|
  {
    if |bs| == 0 {
      assert DirtyInOrder(bs, [], DirtyFiles(bs));
    } else {
      var n := |bs| - 1;
      DirtyFilesInOrder(bs[..n]);
      var idx: seq<nat> :| DirtyInOrder(bs[..n], idx, DirtyFiles(bs[..n]));
      PicksStep(bs, idx);
      CoversStep(bs, idx);
      if bs[n].needReWrite {
        IncreasingStep(idx, n);
        assert DirtyInOrder(bs, idx + [n], DirtyFiles(bs));
      } else {
        assert DirtyInOrder(bs, idx, DirtyFiles(bs));
      }
    }
  }

  /** A prefix whose index fails makes the whole index fail with the same error. */
  lemma {:induction false} BuildIndexPrefixFails(bs: seq<Bucket>, j: nat)
    requires j <= |bs| && BuildIndex(bs[..j]).Failure?
    ensures BuildIndex(bs) == BuildIndex(bs[..j])
    decreases |bs| - j
  {
    if j < |bs| {
      assert bs[..j + 1][..j] == bs[..j];
      BuildIndexPrefixFails(bs, j + 1);
    } else {
      assert bs[..j] == bs;
    }
  }

  /** `Save` fails exactly when some bucket is dirty and some bucket (any, clean or dirty) has no unwritten entry. */
  lemma SaveFailsIff(bs: seq<Bucket>)
    ensures SaveOf(bs).Failure? <==> AnyDirty(bs) && exists i | 0 <= i < |bs| :: AllWritten(bs[i].entries)
  {
    BuildIndexSucceeds(bs);
    if AnyDirty(bs) {
      var r := BuildIndex(bs);
      if r.Failure? {
        BuildIndexFails(bs);
        var i :| 0 <= i < |bs| && LatestUnwritten(bs[i].entries).None? && r.error == NoUnwrittenEntry(bs[i].filename);
        assert AllWritten(bs[i].entries);
      }
    }
  }

  /**
   * A successful `Save` writes every dirty bucket and no clean one, builds the index only
   * when something was dirty, and leaves no bucket dirty; the entries, names and numbers
   * stay as they were (entries are not marked written).
   */
  lemma SaveWritesExactlyTheDirty(bs: seq<Bucket>)
    requires SaveOf(bs).Success?
    ensures var rep := SaveOf(bs).value;
      && (rep.index.Some? <==> AnyDirty(bs))
      && (forall w :: w in rep.written <==> exists i | 0 <= i < |bs| ::
            bs[i].needReWrite && w == WrittenFile(bs[i].filename, bs[i].entries))
    ensures !AnyDirty(AfterSave(bs))
    ensures |AfterSave(bs)| == |bs| && forall i | 0 <= i < |bs| ::
      AfterSave(bs)[i] == bs[i].(needReWrite := false)
  {
    DirtyFilesMembers(bs);
  }

  lemma {:induction false} NoDirtyFiles(bs: seq<Bucket>)
    requires !AnyDirty(bs)
    ensures DirtyFiles(bs) == []
    decreases |bs|
  {
    if |bs| > 0 {
      var init := bs[..|bs| - 1];
      assert forall i | 0 <= i < |init| :: init[i] == bs[i];
      NoDirtyFiles(init);
    }
  }

  /** With nothing dirty, `Save` builds no index and writes nothing. */
  lemma CleanSaveWritesNothing(bs: seq<Bucket>)
    requires !AnyDirty(bs)
    ensures SaveOf(bs) == Success(SaveReport(None, []))
    ensures AfterSave(bs) == bs
  {
    NoDirtyFiles(bs);
  }

  /** A second `Save` with no add or remove in between writes nothing, not even the index. */
  lemma SecondSaveWritesNothing(bs: seq<Bucket>)
    requires SaveOf(bs).Success?
    ensures SaveOf(AfterSave(bs)) == Success(SaveReport(None, []))
    ensures AfterSave(AfterSave(bs)) == AfterSave(bs)
  {
    SaveWritesExactlyTheDirty(bs);
    CleanSaveWritesNothing(AfterSave(bs));
  }

  /** When the index is built, each record names its bucket's file and dates it with the latest unwritten entry. */
  lemma IndexDatesEachBucket(bs: seq<Bucket>)
    requires SaveOf(bs).Success? && AnyDirty(bs)
    ensures var ix := SaveOf(bs).value.index;
      && ix.Some? && |ix.value| == |bs|
      && forall i | 0 <= i < |bs| :: ix.value[i].filename == bs[i].filename
           && (forall k | 0 <= k < |bs[i].entries| :: !bs[i].entries[k].written ==>
                 bs[i].entries[k].lastModification <= ix.value[i].lastModification)
           && (exists k | 0 <= k < |bs[i].entries| :: !bs[i].entries[k].written &&
                 bs[i].entries[k].lastModification == ix.value[i].lastModification)
  {
    BuildIndexSucceeds(bs);
    BuildIndexRecords(bs);
  }
}
