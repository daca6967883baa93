/**
 * The in-memory partition store as a value: the ordered list of buckets, and what
 * `AddUrlEntry` and `RemoveUrl` make of it.
 */
module PartitionStore {
  import opened Wrappers
  import opened Strings
  import opened UrlEntries
  import opened Filenames
  import opened SitemapFiles

  /** Position of the first element of `s` that satisfies `p` (`FirstOrDefault`). */
  function FindFirst<T>(s: seq<T>, p: T -> bool): (r: Option<nat>)
    ensures r.Some? ==> r.value < |s| && p(s[r.value]) && forall j :: 0 <= j < r.value ==> !p(s[j])
    ensures r.None? ==> forall j :: 0 <= j < |s| ==> !p(s[j])
  {
    if |s| == 0 then None
    else if p(s[0]) then Some(0)
    else match FindFirst(s[1..], p)
      case None => None
      case Some(k) => Some(k + 1)
  }

  /** `entries.Any(w => w.URL == url)`. */
  predicate ContainsUrl(es: seq<UrlEntry>, url: string)
  {
    exists k | 0 <= k < |es| :: es[k].url == url
  }

  /** Some bucket holds an entry for `url`. */
  predicate HasUrl(bs: seq<Bucket>, url: string)
  {
    exists i | 0 <= i < |bs| :: ContainsUrl(bs[i].entries, url)
  }

  /** A bucket belongs to a category when both keys agree after lower-casing and trimming. */
  predicate Matches(b: Bucket, category: string)
  {
    Normalize(b.category) == Normalize(category)
  }

  predicate AnyMatching(bs: seq<Bucket>, category: string)
  {
    exists i | 0 <= i < |bs| :: Matches(bs[i], category)
  }

  predicate Open(b: Bucket, category: string, cap: int)
  {
    Matches(b, category) && |b.entries| < cap
  }

  /** The first bucket of the category still under the cap. */
  function FirstOpen(bs: seq<Bucket>, category: string, cap: int): Option<nat>
  {
    FindFirst(bs, (b: Bucket) => Open(b, category, cap))
  }

  /** A bucket of the category with the highest `Number` (`Max(w => w.Number)`). */
  function TopNumbered(bs: seq<Bucket>, category: string): (t: nat)
    requires AnyMatching(bs, category)
    ensures t < |bs| && Matches(bs[t], category)
    ensures forall i | 0 <= i < |bs| :: Matches(bs[i], category) ==> bs[i].number <= bs[t].number
    decreases |bs|
  {
    var init := bs[..|bs| - 1];
    var last := |bs| - 1;
    if !AnyMatching(init, category) then last
    else
      var t := TopNumbered(init, category);
      if Matches(bs[last], category) && bs[last].number > bs[t].number then last else t
  }

  /** Where a new, non-duplicate entry goes: appended to a bucket, or into a new bucket numbered `number`. */
  datatype Placement = AppendTo(index: nat) | Create(number: Int32)

  function Route(bs: seq<Bucket>, category: string, cap: int): (p: Placement)
    ensures p.AppendTo? ==> p.index < |bs|
  {
    if !AnyMatching(bs, category) then Create(1)
    else match FirstOpen(bs, category, cap)
      case Some(k) => AppendTo(k)
      case None => Create(Wrap32(bs[TopNumbered(bs, category)].number + 1))
  }

  /** The bucket `AddUrlEntry` creates for `e`. */
  function NewBucket(e: UrlEntry, number: Int32, baseName: string, seps: Separators, now: Stamp): Bucket
    requires ValidStamp(now)
  {
    Bucket(GenerateFilename(baseName, seps, e.category, number, now), e.category, number, true, [e])
  }

  /** The store after `AddUrlEntry` with entry `e`, cap `cap`, at time `now`. */
  function Add(bs: seq<Bucket>, e: UrlEntry, cap: int, baseName: string, seps: Separators, now: Stamp): seq<Bucket>
    requires ValidStamp(now)
  {
    if HasUrl(bs, e.url) then bs
    else match Route(bs, e.category, cap)
      case AppendTo(k) => bs[k := bs[k].(needReWrite := true, entries := bs[k].entries + [e])]
      case Create(n) => bs + [NewBucket(e, n, baseName, seps, now)]
  }

  /** Position of the first entry for `url`. */
  function FirstUrlIndex(es: seq<UrlEntry>, url: string): Option<nat>
  {
    FindFirst(es, (e: UrlEntry) => e.url == url)
  }

  /** Position of the first bucket holding `url`. */
  function BucketWithUrl(bs: seq<Bucket>, url: string): Option<nat>
  {
    FindFirst(bs, (b: Bucket) => ContainsUrl(b.entries, url))
  }

  /** `List.Remove` of the element at `k`: the others keep their order. */
  function RemoveAt<T>(s: seq<T>, k: nat): seq<T>
    requires k < |s|
  {
    s[..k] + s[k + 1..]
  }

  /** The store after `RemoveUrl(url)`. */
  function Remove(bs: seq<Bucket>, url: string): seq<Bucket>
  {
    match BucketWithUrl(bs, url)
    case None => bs
    case Some(i) =>
      var k := FirstUrlIndex(bs[i].entries, url).value;
      bs[i := bs[i].(needReWrite := true, entries := RemoveAt(bs[i].entries, k))]
  }

  // ---------------------------------------------------------------------------
  // The store's invariants

  /** Every entry of the store, bucket by bucket. */
  function AllEntries(bs: seq<Bucket>): seq<UrlEntry>
    decreases |bs|
  {
    if |bs| == 0 then [] else AllEntries(bs[..|bs| - 1]) + bs[|bs| - 1].entries
  }

  function UrlsOf(es: seq<UrlEntry>): seq<string>
  {
    seq(|es|, i requires 0 <= i < |es| => es[i].url)
  }

  /** No URL occurs twice across all buckets. */
  ghost predicate UrlsUnique(bs: seq<Bucket>)
  {
    forall u :: multiset(UrlsOf(AllEntries(bs)))[u] <= 1
  }

  ghost predicate WithinCapacity(bs: seq<Bucket>, cap: int)
  {
    forall i | 0 <= i < |bs| :: |bs[i].entries| <= cap
  }

  /** Every entry's category routes to the bucket that holds it. */
  ghost predicate CategoriesHomogeneous(bs: seq<Bucket>)
  {
    forall i, k | 0 <= i < |bs| && 0 <= k < |bs[i].entries| :: Matches(bs[i], bs[i].entries[k].category)
  }

  ghost predicate Invariant(bs: seq<Bucket>, cap: int)
  {
    UrlsUnique(bs) && WithinCapacity(bs, cap) && CategoriesHomogeneous(bs)
  }
}
