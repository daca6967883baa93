/** What `AddUrlEntry` and `RemoveUrl` do to the store, and the invariants they keep. */
module StoreLemmas {
  import opened Wrappers
  import opened Strings
  import opened UrlEntries
  import opened Filenames
  import opened SitemapFiles
  import opened PartitionStore
  import opened Persistence

  // ---------------------------------------------------------------------------
  // Flattening the store

  lemma {:induction false} AllEntriesConcat(a: seq<Bucket>, b: seq<Bucket>)
    ensures AllEntries(a + b) == AllEntries(a) + AllEntries(b)
    decreases |b|
  {
    if |b| > 0 {
      var b' := b[..|b| - 1];
      assert (a + b)[..|a + b| - 1] == a + b';
      AllEntriesConcat(a, b');
    } else {
      assert a + b == a;
    }
  }

  lemma AllEntriesThree(pre: seq<Bucket>, b: Bucket, post: seq<Bucket>)
    ensures AllEntries(pre + [b] + post) == AllEntries(pre) + b.entries + AllEntries(post)
  {
    AllEntriesConcat(pre + [b], post);
    assert (pre + [b])[..|pre|] == pre;
  }

  lemma SplitAround<T>(s: seq<T>, k: nat)
    requires k < |s|
    ensures s == s[..k] + [s[k]] + s[k + 1..]
  {
  }

  /** The entries of the store are those before bucket `k`, bucket `k`'s, and those after. */
  lemma AllEntriesAround(bs: seq<Bucket>, k: nat)
    requires k < |bs|
    ensures AllEntries(bs) == AllEntries(bs[..k]) + bs[k].entries + AllEntries(bs[k + 1..])
  {
    SplitAround(bs, k);
    AllEntriesThree(bs[..k], bs[k], bs[k + 1..]);
  }

  lemma AllEntriesReplace(bs: seq<Bucket>, k: nat, b: Bucket)
    requires k < |bs|
    ensures AllEntries(bs[k := b]) == AllEntries(bs[..k]) + b.entries + AllEntries(bs[k + 1..])
  {
    var bs' := bs[k := b];
    AllEntriesAround(bs', k);
    assert bs'[..k] == bs[..k] && bs'[k + 1..] == bs[k + 1..];
  }

  lemma AllEntriesAppend(bs: seq<Bucket>, b: Bucket)
    ensures AllEntries(bs + [b]) == AllEntries(bs) + b.entries
  {
    assert (bs + [b])[..|bs|] == bs;
  }

  lemma UrlsOfConcat(a: seq<UrlEntry>, b: seq<UrlEntry>)
    ensures UrlsOf(a + b) == UrlsOf(a) + UrlsOf(b)
  {
  }

  lemma UrlCountConcat(a: seq<UrlEntry>, b: seq<UrlEntry>)
    ensures multiset(UrlsOf(a + b)) == multiset(UrlsOf(a)) + multiset(UrlsOf(b))
  {
    UrlsOfConcat(a, b);
  }

  lemma UrlCountThree(a: seq<UrlEntry>, m: seq<UrlEntry>, c: seq<UrlEntry>)
    ensures multiset(UrlsOf(a + m + c)) == multiset(UrlsOf(a)) + multiset(UrlsOf(m)) + multiset(UrlsOf(c))
  {
    UrlCountConcat(a + m, c);
    UrlCountConcat(a, m);
  }

  lemma ContainsUrlIffListed(es: seq<UrlEntry>, url: string)
    ensures ContainsUrl(es, url) <==> url in UrlsOf(es)
  {
    if url in UrlsOf(es) {
      var k :| 0 <= k < |es| && UrlsOf(es)[k] == url;
    }
    if ContainsUrl(es, url) {
      var k :| 0 <= k < |es| && es[k].url == url;
      assert UrlsOf(es)[k] == url;
    }
  }

  /** A URL is in the store exactly when it is among the URLs of all entries. */
  lemma {:induction false} HasUrlIffListed(bs: seq<Bucket>, url: string)
    ensures HasUrl(bs, url) <==> url in UrlsOf(AllEntries(bs))
    decreases |bs|
  {
    if |bs| > 0 {
      var init := bs[..|bs| - 1];
      var last := bs[|bs| - 1];
      HasUrlIffListed(init, url);
      UrlsOfConcat(AllEntries(init), last.entries);
      var es := last.entries;
      ContainsUrlIffListed(es, url);
      assert HasUrl(bs, url) <==> HasUrl(init, url) || ContainsUrl(es, url) by {
        if HasUrl(bs, url) {
          var i :| 0 <= i < |bs| && ContainsUrl(bs[i].entries, url);
          if i < |bs| - 1 {
            assert init[i] == bs[i];
          }
        }
        if HasUrl(init, url) {
          var i :| 0 <= i < |init| && ContainsUrl(init[i].entries, url);
          assert bs[i] == init[i];
        }
      }
    }
  }

  // ---------------------------------------------------------------------------
  // AddUrlEntry

  /** A URL already present anywhere leaves the whole store as it was. */
  lemma AddDuplicateIsNoOp(bs: seq<Bucket>, e: UrlEntry, cap: int, baseName: string, seps: Separators, now: Stamp)
    requires ValidStamp(now)
    requires HasUrl(bs, e.url)
    ensures Add(bs, e, cap, baseName, seps, now) == bs
  {
  }

  /** A category no bucket matches gets one new dirty bucket, number 1, holding only the entry, at the end. */
  lemma AddStartsCategory(bs: seq<Bucket>, e: UrlEntry, cap: int, baseName: string, seps: Separators, now: Stamp)
    requires ValidStamp(now)
    requires !HasUrl(bs, e.url)
    requires forall i | 0 <= i < |bs| :: Normalize(bs[i].category) != Normalize(e.category)
    ensures Add(bs, e, cap, baseName, seps, now)
         == bs + [Bucket(GenerateFilename(baseName, seps, e.category, 1, now), e.category, 1, true, [e])]
  {
  }

  /**
   * When every bucket of the category is at or over the cap, one new dirty bucket holding
   * only the entry is appended, numbered one more than the highest number of the category
   * (wrapping around at the top of the `int` range).
   */
  lemma AddOpensNextNumber(bs: seq<Bucket>, e: UrlEntry, cap: int, baseName: string, seps: Separators, now: Stamp, top: nat)
    requires ValidStamp(now)
    requires !HasUrl(bs, e.url)
    requires top < |bs| && Matches(bs[top], e.category)
    requires forall i | 0 <= i < |bs| :: Matches(bs[i], e.category) ==> bs[i].number <= bs[top].number
    requires forall i | 0 <= i < |bs| :: Matches(bs[i], e.category) ==> |bs[i].entries| >= cap
    ensures var n := Wrap32(bs[top].number + 1);
      && Add(bs, e, cap, baseName, seps, now)
         == bs + [Bucket(GenerateFilename(baseName, seps, e.category, n, now), e.category, n, true, [e])]
      && (bs[top].number < 0x7FFF_FFFF ==> n == bs[top].number + 1)
  {
    assert AnyMatching(bs, e.category);
    var t := TopNumbered(bs, e.category);
    assert bs[t].number == bs[top].number;
    assert FirstOpen(bs, e.category, cap).None?;
  }

  /**
   * Otherwise the entry goes to the end of the FIRST bucket of the category that is under
   * the cap; that bucket becomes dirty and every other bucket is untouched.
   */
  lemma AddAppendsToFirstOpen(bs: seq<Bucket>, e: UrlEntry, cap: int, baseName: string, seps: Separators, now: Stamp, k: nat)
    requires ValidStamp(now)
    requires !HasUrl(bs, e.url)
    requires k < |bs| && Matches(bs[k], e.category) && |bs[k].entries| < cap
    requires forall j | 0 <= j < k :: !(Matches(bs[j], e.category) && |bs[j].entries| < cap)
    ensures Add(bs, e, cap, baseName, seps, now)
         == bs[k := bs[k].(needReWrite := true, entries := bs[k].entries + [e])]
  {
    assert AnyMatching(bs, e.category);
    var r := FirstOpen(bs, e.category, cap);
    assert Open(bs[k], e.category, cap);
    assert r == Some(k);
  }

  lemma AppendCounts(bs: seq<Bucket>, k: nat, e: UrlEntry)
    requires k < |bs|
    ensures var bs' := bs[k := bs[k].(needReWrite := true, entries := bs[k].entries + [e])];
      && multiset(AllEntries(bs')) == multiset(AllEntries(bs)) + multiset{e}
      && multiset(UrlsOf(AllEntries(bs'))) == multiset(UrlsOf(AllEntries(bs))) + multiset{e.url}
      && |AllEntries(bs')| == |AllEntries(bs)| + 1
  {
    var a, m, c := AllEntries(bs[..k]), bs[k].entries, AllEntries(bs[k + 1..]);
    AllEntriesAround(bs, k);
    AllEntriesReplace(bs, k, bs[k].(needReWrite := true, entries := m + [e]));
    UrlCountThree(a, m, c);
    UrlCountThree(a, m + [e], c);
    UrlCountConcat(m, [e]);
    assert UrlsOf([e]) == [e.url];
  }

  lemma CreateCounts(bs: seq<Bucket>, b: Bucket, e: UrlEntry)
    requires b.entries == [e]
    ensures multiset(AllEntries(bs + [b])) == multiset(AllEntries(bs)) + multiset{e}
    ensures multiset(UrlsOf(AllEntries(bs + [b]))) == multiset(UrlsOf(AllEntries(bs))) + multiset{e.url}
    ensures |AllEntries(bs + [b])| == |AllEntries(bs)| + 1
  {
    AllEntriesAppend(bs, b);
    UrlCountConcat(AllEntries(bs), [e]);
  }

  /** A non-duplicate add puts exactly the new entry into the store: one more entry, nothing else changes. */
  lemma AddGrowsByOne(bs: seq<Bucket>, e: UrlEntry, cap: int, baseName: string, seps: Separators, now: Stamp)
    requires ValidStamp(now)
    requires !HasUrl(bs, e.url)
    ensures var bs' := Add(bs, e, cap, baseName, seps, now);
      && multiset(AllEntries(bs')) == multiset(AllEntries(bs)) + multiset{e}
      && multiset(UrlsOf(AllEntries(bs'))) == multiset(UrlsOf(AllEntries(bs))) + multiset{e.url}
      && |AllEntries(bs')| == |AllEntries(bs)| + 1
  {
    match Route(bs, e.category, cap)
    case AppendTo(k) =>
      AppendCounts(bs, k, e);
    case Create(n) =>
      CreateCounts(bs, NewBucket(e, n, baseName, seps, now), e);
  }

  /** URLs that were pairwise distinct across all buckets stay so. */
  lemma AddKeepsUrlsUnique(bs: seq<Bucket>, e: UrlEntry, cap: int, baseName: string, seps: Separators, now: Stamp)
    requires ValidStamp(now)
    requires UrlsUnique(bs)
    ensures UrlsUnique(Add(bs, e, cap, baseName, seps, now))
  {
    if !HasUrl(bs, e.url) {
      HasUrlIffListed(bs, e.url);
      AddGrowsByOne(bs, e, cap, baseName, seps, now);
    }
  }

  /** With a cap of at least one, no bucket grows past the cap. */
  lemma AddKeepsCapacity(bs: seq<Bucket>, e: UrlEntry, cap: int, baseName: string, seps: Separators, now: Stamp)
    requires ValidStamp(now)
    requires cap >= 1 && WithinCapacity(bs, cap)
    ensures WithinCapacity(Add(bs, e, cap, baseName, seps, now), cap)
  {
    if !HasUrl(bs, e.url) {
      match Route(bs, e.category, cap)
      case AppendTo(k) =>
        assert Open(bs[k], e.category, cap);
      case Create(n) =>
    }
  }

  /** Each entry stays in a bucket of its own category. */
  lemma AddKeepsCategoriesHomogeneous(bs: seq<Bucket>, e: UrlEntry, cap: int, baseName: string, seps: Separators, now: Stamp)
    requires ValidStamp(now)
    requires CategoriesHomogeneous(bs)
    ensures CategoriesHomogeneous(Add(bs, e, cap, baseName, seps, now))
  {
    if !HasUrl(bs, e.url) {
      var bs' := Add(bs, e, cap, baseName, seps, now);
      match Route(bs, e.category, cap)
      case AppendTo(k) =>
        assert Open(bs[k], e.category, cap);
        forall i, j | 0 <= i < |bs'| && 0 <= j < |bs'[i].entries|
          ensures Matches(bs'[i], bs'[i].entries[j].category)
        {
          if i == k && j == |bs[k].entries| {
            assert bs'[i].entries[j] == e;
          }
        }
      case Create(n) =>
    }
  }

  lemma AddKeepsInvariant(bs: seq<Bucket>, e: UrlEntry, cap: int, baseName: string, seps: Separators, now: Stamp)
    requires ValidStamp(now)
    requires cap >= 1 && Invariant(bs, cap)
    ensures Invariant(Add(bs, e, cap, baseName, seps, now), cap)
  {
    AddKeepsUrlsUnique(bs, e, cap, baseName, seps, now);
    AddKeepsCapacity(bs, e, cap, baseName, seps, now);
    AddKeepsCategoriesHomogeneous(bs, e, cap, baseName, seps, now);
  }

  // ---------------------------------------------------------------------------
  // RemoveUrl

  /** Removing a URL no bucket holds changes nothing, not even a dirty flag. */
  lemma RemoveAbsentIsNoOp(bs: seq<Bucket>, url: string)
    requires !HasUrl(bs, url)
    ensures Remove(bs, url) == bs
  {
    assert BucketWithUrl(bs, url).None?;
  }

  /**
   * Removal deletes the first entry for the URL from the first bucket holding it, keeps the
   * order of the rest, marks only that bucket dirty and leaves every other bucket untouched.
   */
  lemma RemoveFirstOccurrence(bs: seq<Bucket>, url: string, i: nat, k: nat)
    requires i < |bs| && k < |bs[i].entries| && bs[i].entries[k].url == url
    requires forall j | 0 <= j < i :: !ContainsUrl(bs[j].entries, url)
    requires forall j | 0 <= j < k :: bs[i].entries[j].url != url
    ensures Remove(bs, url)
         == bs[i := bs[i].(needReWrite := true, entries := bs[i].entries[..k] + bs[i].entries[k + 1..])]
  {
    var r := BucketWithUrl(bs, url);
    assert ContainsUrl(bs[i].entries, url);
    assert r == Some(i);
    var q := FirstUrlIndex(bs[i].entries, url);
    assert q == Some(k);
  }

  lemma RemoveAtUrls(es: seq<UrlEntry>, k: nat)
    requires k < |es|
    ensures multiset(UrlsOf(es)) == multiset(UrlsOf(RemoveAt(es, k))) + multiset{es[k].url}
    ensures multiset(es) == multiset(RemoveAt(es, k)) + multiset{es[k]}
  {
    SplitAround(es, k);
    UrlCountThree(es[..k], [es[k]], es[k + 1..]);
    UrlCountConcat(es[..k], es[k + 1..]);
    assert UrlsOf([es[k]]) == [es[k].url];
  }

  lemma RemoveAtCounts(bs: seq<Bucket>, i: nat, k: nat)
    requires i < |bs| && k < |bs[i].entries|
    ensures var bs' := bs[i := bs[i].(needReWrite := true, entries := RemoveAt(bs[i].entries, k))];
      && multiset(UrlsOf(AllEntries(bs))) == multiset(UrlsOf(AllEntries(bs'))) + multiset{bs[i].entries[k].url}
      && multiset(AllEntries(bs)) == multiset(AllEntries(bs')) + multiset{bs[i].entries[k]}
      && |AllEntries(bs')| == |AllEntries(bs)| - 1
  {
    var es := bs[i].entries;
    var es' := RemoveAt(es, k);
    var a, c := AllEntries(bs[..i]), AllEntries(bs[i + 1..]);
    AllEntriesAround(bs, i);
    AllEntriesReplace(bs, i, bs[i].(needReWrite := true, entries := es'));
    UrlCountThree(a, es, c);
    UrlCountThree(a, es', c);
    RemoveAtUrls(es, k);
  }

  /**
   * Removal takes exactly one copy of the URL out of the store when it is there and
   * nothing otherwise; the entry count drops by one or by zero.
   */
  lemma RemoveDropsOne(bs: seq<Bucket>, url: string)
    ensures var bs' := Remove(bs, url);
      && multiset(UrlsOf(AllEntries(bs)))
         == multiset(UrlsOf(AllEntries(bs'))) + (if HasUrl(bs, url) then multiset{url} else multiset{})
      && multiset(AllEntries(bs')) <= multiset(AllEntries(bs))
      && |AllEntries(bs')| == |AllEntries(bs)| - (if HasUrl(bs, url) then 1 else 0)
  {
    var r := BucketWithUrl(bs, url);
    if r.None? {
      assert !HasUrl(bs, url);
      RemoveAbsentIsNoOp(bs, url);
    } else {
      var i := r.value;
      assert ContainsUrl(bs[i].entries, url);
      var k := FirstUrlIndex(bs[i].entries, url).value;
      RemoveAtCounts(bs, i, k);
    }
  }

  /** With unique URLs, the URL is gone after one removal, so a second removal changes nothing. */
  lemma RemoveTwiceIsRemoveOnce(bs: seq<Bucket>, url: string)
    requires UrlsUnique(bs)
    ensures !HasUrl(Remove(bs, url), url)
    ensures Remove(Remove(bs, url), url) == Remove(bs, url)
  {
    var bs' := Remove(bs, url);
    RemoveDropsOne(bs, url);
    HasUrlIffListed(bs', url);
    HasUrlIffListed(bs, url);
    assert multiset(UrlsOf(AllEntries(bs)))[url] <= 1;
    RemoveAbsentIsNoOp(bs', url);
  }

  lemma RemoveKeepsUrlsUnique(bs: seq<Bucket>, url: string)
    requires UrlsUnique(bs)
    ensures UrlsUnique(Remove(bs, url))
  {
    var bs' := Remove(bs, url);
    RemoveDropsOne(bs, url);
    forall u ensures multiset(UrlsOf(AllEntries(bs')))[u] <= 1 {
      assert multiset(UrlsOf(AllEntries(bs)))[u] <= 1;
    }
  }

  /** Removal only shrinks one bucket and keeps every remaining entry where its category routes. */
  lemma RemoveKeepsShape(bs: seq<Bucket>, url: string, cap: int)
    requires WithinCapacity(bs, cap) && CategoriesHomogeneous(bs)
    ensures WithinCapacity(Remove(bs, url), cap) && CategoriesHomogeneous(Remove(bs, url))
  {
    var bs' := Remove(bs, url);
    var r := BucketWithUrl(bs, url);
    if r.Some? {
      var i := r.value;
      assert ContainsUrl(bs[i].entries, url);
      var es := bs[i].entries;
      var k := FirstUrlIndex(es, url).value;
      forall j | 0 <= j < |bs'[i].entries|
        ensures Matches(bs'[i], bs'[i].entries[j].category)
      {
        if j < k {
          assert bs'[i].entries[j] == es[j];
        } else {
          assert bs'[i].entries[j] == es[j + 1];
        }
      }
    }
  }

  lemma RemoveKeepsInvariant(bs: seq<Bucket>, url: string, cap: int)
    requires Invariant(bs, cap)
    ensures Invariant(Remove(bs, url), cap)
  {
    RemoveKeepsUrlsUnique(bs, url);
    RemoveKeepsShape(bs, url, cap);
  }

  // ---------------------------------------------------------------------------
  // Adding and saving

  /**
   * A URL that was not listed yet lands in a dirty bucket, so the next `Save` writes it,
   * and that bucket's index record is dated no earlier than the new entry.
   */
  lemma AddedEntryIsSaved(bs: seq<Bucket>, e: UrlEntry, cap: int, baseName: string, seps: Separators, now: Stamp)
    requires ValidStamp(now) && !e.written && !HasUrl(bs, e.url)
    ensures var after := Add(bs, e, cap, baseName, seps, now);
      && AnyDirty(after)
      && exists i | 0 <= i < |after| :: after[i].needReWrite && e in after[i].entries
           && LatestUnwritten(after[i].entries).Some?
           && e.lastModification <= LatestUnwritten(after[i].entries).value
  {
    var after := Add(bs, e, cap, baseName, seps, now);
    var i := if Route(bs, e.category, cap).AppendTo? then Route(bs, e.category, cap).index else |bs|;
    assert after[i].entries[|after[i].entries| - 1] == e;
    assert after[i].needReWrite && e in after[i].entries;
  }
}
