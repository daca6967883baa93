/**
 * Repeated `AddUrlEntry` calls for one new category: `N` distinct URLs with a cap of `cap`
 * per file fill `ceil(N / cap)` files numbered 1 upwards, in order, each full except the last.
 */
module Filling {
  import opened Strings
  import opened UrlEntries
  import opened Filenames
  import opened SitemapFiles
  import opened PartitionStore
  import opened StoreLemmas

  /** `clock(k)` is what `DateTime.Now` reads during the `k`-th call (from 0) of a run. */
  ghost predicate ValidClock(clock: nat -> Stamp)
  {
    forall k: nat :: ValidStamp(clock(k))
  }

  /** The store after `AddUrlEntry` of each entry of `es`, in order; call `k` reads the time `clock(k)`. */
  function AddAll(bs: seq<Bucket>, es: seq<UrlEntry>, cap: int, baseName: string, seps: Separators, clock: nat -> Stamp): seq<Bucket>
    requires ValidClock(clock)
    decreases |es|
  {
    if |es| == 0 then bs
    else Add(AddAll(bs, es[..|es| - 1], cap, baseName, seps, clock), es[|es| - 1], cap, baseName, seps, clock(|es| - 1))
  }

  function Min(a: int, b: int): int
  {
    if a <= b then a else b
  }

  /** Where run `j` of `cap` entries starts: `j * cap`, built up by additions (see `StartIsProduct`). */
  function Start(j: nat, cap: nat): nat
  {
    if j == 0 then 0 else Start(j - 1, cap) + cap
  }

  /** The number of files `n` entries need at `cap` entries per file (`n / cap` rounded up, see `FileCountIsCeil`). */
  function FileCount(n: nat, cap: nat): (m: nat)
    requires cap >= 1
    ensures Start(m, cap) >= n && (m == 0 || Start(m - 1, cap) < n)
    ensures m <= n
    decreases n
  {
    if n == 0 then 0
    else if n <= cap then 1
    else 1 + FileCount(n - cap, cap)
  }

  /** The entries of file `j` (from 0): the `j`-th run of `cap` entries, cut short at the end. */
  function Chunk(es: seq<UrlEntry>, j: nat, cap: nat): seq<UrlEntry>
  {
    es[Min(Start(j, cap), |es|)..Min(Start(j, cap) + cap, |es|)]
  }

  /**
   * File `j` (from 0) of a category filled from scratch: numbered `j + 1`, dirty, holding run
   * `j`, and named with the time read by the call that opened it, the one filing entry `Start(j, cap)`.
   */
  function FileOf(category: string, es: seq<UrlEntry>, cap: nat, baseName: string, seps: Separators, clock: nat -> Stamp, j: nat): Bucket
    requires ValidClock(clock) && j < 0x7FFF_FFFF
  {
    Bucket(GenerateFilename(baseName, seps, category, j + 1, clock(Start(j, cap))), category, j + 1, true, Chunk(es, j, cap))
  }

  /** The files `es` fills in a category of its own, in order. */
  function Filled(category: string, es: seq<UrlEntry>, cap: nat, baseName: string, seps: Separators, clock: nat -> Stamp): seq<Bucket>
    requires cap >= 1 && ValidClock(clock) && |es| < 0x8000_0000
  {
    seq(FileCount(|es|, cap), j requires 0 <= j < FileCount(|es|, cap) => FileOf(category, es, cap, baseName, seps, clock, j))
  }

  // ---------------------------------------------------------------------------
  // Arithmetic

  lemma {:induction false} StartIsProduct(j: nat, cap: nat)
    ensures Start(j, cap) == j * cap
    decreases j
  {
    if j > 0 {
      StartIsProduct(j - 1, cap);
      assert j * cap == (j - 1) * cap + cap;
    }
  }

  /** `FileCount(n, cap)` is `n / cap` rounded up. */
  lemma FileCountIsCeil(n: nat, cap: nat)
    requires cap >= 1
    ensures FileCount(n, cap) == (n + cap - 1) / cap
  {
    var m := FileCount(n, cap);
    StartIsProduct(m, cap);
    if m > 0 {
      StartIsProduct(m - 1, cap);
    }
    CeilOfBounds(n, cap, m);
  }

  /** The `m` with `(m - 1) * cap < n <= m * cap` is `n / cap` rounded up. */
  lemma CeilOfBounds(n: nat, cap: nat, m: nat)
    requires cap >= 1 && m * cap >= n && (m == 0 || (m - 1) * cap < n)
    ensures m == (n + cap - 1) / cap
  {
    var q := (n + cap - 1) / cap;
    var r := (n + cap - 1) % cap;
    assert n + cap - 1 == q * cap + r;
    if q > m {
      assert (m + 1) * cap == m * cap + cap;
      MulMono(m + 1, q, cap);
    } else if q < m {
      assert (m - 1) * cap == m * cap - cap;
      assert (q + 1) * cap == q * cap + cap;
      MulMono(q + 1, m, cap);
    }
  }

  lemma {:induction false} MulMono(a: nat, b: nat, c: nat)
    requires a <= b
    ensures a * c <= b * c
    decreases b - a
  {
    if a < b {
      MulMono(a, b - 1, c);
      assert b * c == (b - 1) * c + c;
    }
  }

  /** Run `t` ends no later than a later run starts. */
  lemma {:induction false} RunInside(t: nat, m: nat, cap: nat)
    requires t < m
    ensures Start(t, cap) + cap <= Start(m, cap)
    decreases m
  {
    if t < m - 1 {
      RunInside(t, m - 1, cap);
    }
  }

  /** `FileCount(n, cap)` is the only `m` with `Start(m - 1) < n <= Start(m)`. */
  lemma CeilUnique(n: nat, cap: nat, m: nat)
    requires cap >= 1 && Start(m, cap) >= n && (m == 0 || Start(m - 1, cap) < n)
    ensures FileCount(n, cap) == m
  {
    var f := FileCount(n, cap);
    if f > m {
      RunInside(m, f, cap);
    } else if f < m {
      RunInside(f, m, cap);
    }
  }

  lemma SeqUpdated<T>(a: seq<T>, b: seq<T>, k: nat, x: T)
    requires |a| == |b| && k < |b| && a[k] == x
    requires forall i | 0 <= i < |a| && i != k :: a[i] == b[i]
    ensures a == b[k := x]
  {
  }

  lemma SeqExtended<T>(a: seq<T>, b: seq<T>, x: T)
    requires |a| == |b| + 1 && a[|b|] == x
    requires forall i | 0 <= i < |b| :: a[i] == b[i]
    ensures a == b + [x]
  {
  }

  lemma AppendAfterPrefix<T>(a: seq<T>, b: seq<T>, x: T)
    ensures a + b + [x] == a + (b + [x])
  {
  }

  lemma UpdateAfterPrefix<T>(a: seq<T>, b: seq<T>, k: nat, x: T)
    requires k < |b|
    ensures (a + b)[|a| + k := x] == a + b[k := x]
  {
  }

  // ---------------------------------------------------------------------------
  // One more entry

  /** A run that ends inside the prefix is the same in the prefix and in the whole sequence. */
  lemma ChunkOfPrefix(es: seq<UrlEntry>, n: nat, j: nat, cap: nat)
    requires n <= |es| && Start(j, cap) + cap <= n
    ensures Chunk(es[..n], j, cap) == Chunk(es, j, cap)
    ensures |Chunk(es, j, cap)| == cap
  {
    var lo := Start(j, cap);
    assert es[..n][lo..lo + cap] == es[lo..lo + cap];
  }

  /** A file whose run ends inside the prefix is the same file, full, in both fillings. */
  lemma FilledKeeps(category: string, es: seq<UrlEntry>, cap: nat, baseName: string, seps: Separators, clock: nat -> Stamp, t: nat)
    requires cap >= 1 && ValidClock(clock) && 1 <= |es| < 0x8000_0000
    requires Start(t, cap) + cap <= |es| - 1
    requires t < FileCount(|es| - 1, cap) && t < FileCount(|es|, cap)
    ensures var fp := Filled(category, es[..|es| - 1], cap, baseName, seps, clock);
      Filled(category, es, cap, baseName, seps, clock)[t] == fp[t] && |fp[t].entries| == cap
  {
    ChunkOfPrefix(es, |es| - 1, t, cap);
  }

  /** An entry of run `j` sits at the run's start plus its offset. */
  lemma ChunkEntry(es: seq<UrlEntry>, j: nat, cap: nat, k: nat)
    requires k < |Chunk(es, j, cap)|
    ensures Min(Start(j, cap), |es|) + k < |es| && Chunk(es, j, cap)[k] == es[Min(Start(j, cap), |es|) + k]
  {
  }

  /** Every entry of a filled file is one of the entries filed. */
  lemma FilledEntryFromInput(category: string, es: seq<UrlEntry>, cap: nat, baseName: string, seps: Separators, clock: nat -> Stamp,
                             j: nat, k: nat)
    requires cap >= 1 && ValidClock(clock) && |es| < 0x8000_0000
    requires j < |Filled(category, es, cap, baseName, seps, clock)|
    requires k < |Filled(category, es, cap, baseName, seps, clock)[j].entries|
    ensures exists t | 0 <= t < |es| :: Filled(category, es, cap, baseName, seps, clock)[j].entries[k] == es[t]
  {
    ChunkEntry(es, j, cap, k);
  }

  /** The URLs the store holds after filing a prefix are those of the old store and of the prefix. */
  lemma NotYetHeld(bs: seq<Bucket>, category: string, es: seq<UrlEntry>, cap: nat, baseName: string, seps: Separators,
                   clock: nat -> Stamp, e: UrlEntry)
    requires cap >= 1 && ValidClock(clock) && |es| < 0x8000_0000
    requires !HasUrl(bs, e.url)
    requires forall t | 0 <= t < |es| :: es[t].url != e.url
    ensures !HasUrl(bs + Filled(category, es, cap, baseName, seps, clock), e.url)
  {
    var fs := Filled(category, es, cap, baseName, seps, clock);
    var s := bs + fs;
    forall i, k | 0 <= i < |s| && 0 <= k < |s[i].entries|
      ensures s[i].entries[k].url != e.url
    {
      if i >= |bs| {
        FilledEntryFromInput(category, es, cap, baseName, seps, clock, i - |bs|, k);
      }
    }
  }

  /** The first entry of a new category opens file 1. */
  lemma FillFirst(bs: seq<Bucket>, category: string, es: seq<UrlEntry>, cap: nat, baseName: string, seps: Separators, clock: nat -> Stamp)
    requires cap >= 1 && ValidClock(clock) && |es| == 1
    requires es[0].category == category && !HasUrl(bs, es[0].url)
    requires forall i | 0 <= i < |bs| :: !Matches(bs[i], category)
    ensures Add(bs + Filled(category, es[..0], cap, baseName, seps, clock), es[0], cap, baseName, seps, clock(0))
         == bs + Filled(category, es, cap, baseName, seps, clock)
  {
    assert Filled(category, es[..0], cap, baseName, seps, clock) == [];
    assert bs + [] == bs;
    AddStartsCategory(bs, es[0], cap, baseName, seps, clock(0));
    CeilUnique(1, cap, 1);
    assert Chunk(es, 0, cap) == [es[0]];
  }

  /** A last run with room in the prefix is that run with the next entry added. */
  lemma LastChunkOpen(es: seq<UrlEntry>, cap: nat, m: nat)
    requires cap >= 1 && |es| >= 1 && m >= 1
    requires var n := |es| - 1; Start(m - 1, cap) < n < Start(m, cap)
    ensures var n := |es| - 1;
      && Chunk(es, m - 1, cap) == Chunk(es[..n], m - 1, cap) + [es[n]]
      && |Chunk(es[..n], m - 1, cap)| < cap
  {
    var n := |es| - 1;
    var p := es[..n];
    var lo := Start(m - 1, cap);
    assert Chunk(p, m - 1, cap) == p[lo..n];
    assert Chunk(es, m - 1, cap) == es[lo..n + 1];
    assert es[lo..n + 1] == p[lo..n] + [es[n]];
  }

  /** While the last file has room, one more entry extends that file and no other. */
  lemma OpenStepFiles(category: string, es: seq<UrlEntry>, cap: nat, baseName: string, seps: Separators, clock: nat -> Stamp)
    requires cap >= 1 && ValidClock(clock) && 1 < |es| < 0x8000_0000
    requires var n := |es| - 1; Start(FileCount(n, cap), cap) > n
    ensures var n := |es| - 1; var m := FileCount(n, cap);
      var fp := Filled(category, es[..n], cap, baseName, seps, clock);
      && m >= 1 && |fp| == m
      && Filled(category, es, cap, baseName, seps, clock) == fp[m - 1 := fp[m - 1].(entries := fp[m - 1].entries + [es[n]])]
      && (forall t | 0 <= t < m - 1 :: |fp[t].entries| == cap)
      && |fp[m - 1].entries| < cap
  {
    var n := |es| - 1;
    var p := es[..n];
    var m := FileCount(n, cap);
    var fp := Filled(category, p, cap, baseName, seps, clock);
    var fe := Filled(category, es, cap, baseName, seps, clock);
    CeilUnique(n + 1, cap, m);
    LastChunkOpen(es, cap, m);
    var x := fp[m - 1].(entries := fp[m - 1].entries + [es[n]]);
    LastFileGrows(category, es, cap, baseName, seps, clock, m);
    FilledPrefixKept(category, es, cap, baseName, seps, clock, m - 1);
    SeqUpdated(fe, fp, m - 1, x);
  }

  /** The last file of the prefix's filling, with room left, takes the next entry. */
  lemma LastFileGrows(category: string, es: seq<UrlEntry>, cap: nat, baseName: string, seps: Separators, clock: nat -> Stamp, m: nat)
    requires cap >= 1 && ValidClock(clock) && 1 < |es| < 0x8000_0000
    requires var n := |es| - 1; m == FileCount(n, cap) == FileCount(n + 1, cap) && m >= 1
    requires var n := |es| - 1; Chunk(es, m - 1, cap) == Chunk(es[..n], m - 1, cap) + [es[n]]
    ensures var n := |es| - 1; var fp := Filled(category, es[..n], cap, baseName, seps, clock);
      Filled(category, es, cap, baseName, seps, clock)[m - 1] == fp[m - 1].(entries := fp[m - 1].entries + [es[n]])
  {
  }

  /** When the last file is full, one more entry adds the next-numbered file after the others. */
  lemma FullStepFiles(category: string, es: seq<UrlEntry>, cap: nat, baseName: string, seps: Separators, clock: nat -> Stamp)
    requires cap >= 1 && ValidClock(clock) && 1 < |es| < 0x8000_0000
    requires var n := |es| - 1; Start(FileCount(n, cap), cap) == n
    ensures var n := |es| - 1; var m := FileCount(n, cap);
      var fp := Filled(category, es[..n], cap, baseName, seps, clock);
      && 1 <= m < 0x7FFF_FFFF && |fp| == m
      && Filled(category, es, cap, baseName, seps, clock)
         == fp + [Bucket(GenerateFilename(baseName, seps, category, m + 1, clock(n)), category, m + 1, true, [es[n]])]
      && (forall t | 0 <= t < m :: |fp[t].entries| == cap && fp[t].number == t + 1 && fp[t].category == category)
  {
    var n := |es| - 1;
    var p := es[..n];
    var m := FileCount(n, cap);
    var fp := Filled(category, p, cap, baseName, seps, clock);
    var fe := Filled(category, es, cap, baseName, seps, clock);
    CeilUnique(n + 1, cap, m + 1);
    assert Start(m - 1, cap) + cap == n;
    var y := Bucket(GenerateFilename(baseName, seps, category, m + 1, clock(n)), category, m + 1, true, [es[n]]);
    NewLastFile(category, es, cap, baseName, seps, clock, m);
    FilledPrefixKept(category, es, cap, baseName, seps, clock, m);
    SeqExtended(fe, fp, y);
  }

  /** A file opened by entry `n`, the start of run `m`, holds only that entry. */
  lemma NewLastFile(category: string, es: seq<UrlEntry>, cap: nat, baseName: string, seps: Separators, clock: nat -> Stamp, m: nat)
    requires cap >= 1 && ValidClock(clock) && 1 < |es| < 0x8000_0000
    requires var n := |es| - 1; Start(m, cap) == n && FileCount(n + 1, cap) == m + 1
    ensures var n := |es| - 1;
      Filled(category, es, cap, baseName, seps, clock)[m]
      == Bucket(GenerateFilename(baseName, seps, category, m + 1, clock(n)), category, m + 1, true, [es[n]])
  {
    var n := |es| - 1;
    assert Chunk(es, m, cap) == es[n..n + 1] == [es[n]];
  }

  /** The first `k` files, whose runs end inside the prefix, are the same full files in both fillings. */
  lemma FilledPrefixKept(category: string, es: seq<UrlEntry>, cap: nat, baseName: string, seps: Separators, clock: nat -> Stamp, k: nat)
    requires cap >= 1 && ValidClock(clock) && 1 <= |es| < 0x8000_0000
    requires Start(k, cap) <= |es| - 1
    requires k <= FileCount(|es| - 1, cap) && k <= FileCount(|es|, cap)
    ensures var fp := Filled(category, es[..|es| - 1], cap, baseName, seps, clock);
      var fe := Filled(category, es, cap, baseName, seps, clock);
      forall t | 0 <= t < k :: fe[t] == fp[t] && |fp[t].entries| == cap
  {
    forall t | 0 <= t < k
      ensures Filled(category, es, cap, baseName, seps, clock)[t] == Filled(category, es[..|es| - 1], cap, baseName, seps, clock)[t]
      ensures |Filled(category, es[..|es| - 1], cap, baseName, seps, clock)[t].entries| == cap
    {
      RunInside(t, k, cap);
      FilledKeeps(category, es, cap, baseName, seps, clock, t);
    }
  }

  /** While the last file has room, the next entry joins it. */
  lemma FillAppend(bs: seq<Bucket>, category: string, es: seq<UrlEntry>, cap: nat, baseName: string, seps: Separators, clock: nat -> Stamp)
    requires cap >= 1 && ValidClock(clock) && 1 < |es| < 0x8000_0000
    requires var n := |es| - 1; Start(FileCount(n, cap), cap) > n
    requires es[|es| - 1].category == category
    requires !HasUrl(bs + Filled(category, es[..|es| - 1], cap, baseName, seps, clock), es[|es| - 1].url)
    requires forall i | 0 <= i < |bs| :: !Matches(bs[i], category)
    ensures Add(bs + Filled(category, es[..|es| - 1], cap, baseName, seps, clock), es[|es| - 1], cap, baseName, seps, clock(|es| - 1))
         == bs + Filled(category, es, cap, baseName, seps, clock)
  {
    var n := |es| - 1;
    var e := es[n];
    var m := FileCount(n, cap);
    var fp := Filled(category, es[..n], cap, baseName, seps, clock);
    OpenStepFiles(category, es, cap, baseName, seps, clock);
    FilledTags(category, es[..n], cap, baseName, seps, clock);
    AddIntoLast(bs, fp, e, category, cap, baseName, seps, clock(n));
    assert fp[m - 1].(needReWrite := true, entries := fp[m - 1].entries + [e])
        == fp[m - 1].(entries := fp[m - 1].entries + [e]);
  }

  /** Adding to a store whose files of the category are full but the last puts the entry in the last. */
  lemma AddIntoLast(bs: seq<Bucket>, fp: seq<Bucket>, e: UrlEntry, category: string, cap: int,
                    baseName: string, seps: Separators, now: Stamp)
    requires ValidStamp(now) && |fp| >= 1 && |fp[|fp| - 1].entries| < cap
    requires forall t | 0 <= t < |fp| - 1 :: |fp[t].entries| == cap
    requires forall t | 0 <= t < |fp| :: fp[t].category == category
    requires forall i | 0 <= i < |bs| :: !Matches(bs[i], category)
    requires e.category == category && !HasUrl(bs + fp, e.url)
    ensures var k := |fp| - 1;
      Add(bs + fp, e, cap, baseName, seps, now)
      == bs + fp[k := fp[k].(needReWrite := true, entries := fp[k].entries + [e])]
  {
    var k := |fp| - 1;
    OpenStore(bs, fp, category, cap);
    AddAppendsToFirstOpen(bs + fp, e, cap, baseName, seps, now, |bs| + k);
    UpdateAfterPrefix(bs, fp, k, fp[k].(needReWrite := true, entries := fp[k].entries + [e]));
  }

  /** When the last file is full, the next entry opens the next-numbered file. */
  lemma FillNext(bs: seq<Bucket>, category: string, es: seq<UrlEntry>, cap: nat, baseName: string, seps: Separators, clock: nat -> Stamp)
    requires cap >= 1 && ValidClock(clock) && 1 < |es| < 0x8000_0000
    requires var n := |es| - 1; Start(FileCount(n, cap), cap) == n
    requires es[|es| - 1].category == category
    requires !HasUrl(bs + Filled(category, es[..|es| - 1], cap, baseName, seps, clock), es[|es| - 1].url)
    requires forall i | 0 <= i < |bs| :: !Matches(bs[i], category)
    ensures Add(bs + Filled(category, es[..|es| - 1], cap, baseName, seps, clock), es[|es| - 1], cap, baseName, seps, clock(|es| - 1))
         == bs + Filled(category, es, cap, baseName, seps, clock)
  {
    var n := |es| - 1;
    var fp := Filled(category, es[..n], cap, baseName, seps, clock);
    var fe := Filled(category, es, cap, baseName, seps, clock);
    FullStepFiles(category, es, cap, baseName, seps, clock);
    FullAddCloses(bs, fp, fe, es[n], category, cap, baseName, seps, clock(n));
  }

  /** Opening file `m + 1` behind the full files `fp` gives the store `bs + fe` when `fe` is `fp` and that file. */
  lemma FullAddCloses(bs: seq<Bucket>, fp: seq<Bucket>, fe: seq<Bucket>, e: UrlEntry, category: string, cap: int,
                      baseName: string, seps: Separators, now: Stamp)
    requires ValidStamp(now) && 1 <= |fp| < 0x7FFF_FFFF
    requires forall t | 0 <= t < |fp| :: |fp[t].entries| == cap && fp[t].number == t + 1 && fp[t].category == category
    requires forall i | 0 <= i < |bs| :: !Matches(bs[i], category)
    requires e.category == category && !HasUrl(bs + fp, e.url)
    requires fe == fp + [Bucket(GenerateFilename(baseName, seps, category, |fp| + 1, now), category, |fp| + 1, true, [e])]
    ensures Add(bs + fp, e, cap, baseName, seps, now) == bs + fe
  {
    AddAfterFull(bs, fp, e, category, cap, baseName, seps, now);
    AppendAfterPrefix(bs, fp, Bucket(GenerateFilename(baseName, seps, category, |fp| + 1, now), category, |fp| + 1, true, [e]));
  }

  /** Adding to a store whose files of the category are full and numbered 1 to `m` opens file `m + 1`. */
  lemma AddAfterFull(bs: seq<Bucket>, fp: seq<Bucket>, e: UrlEntry, category: string, cap: int,
                     baseName: string, seps: Separators, now: Stamp)
    requires ValidStamp(now) && 1 <= |fp| < 0x7FFF_FFFF
    requires forall t | 0 <= t < |fp| :: |fp[t].entries| == cap && fp[t].number == t + 1 && fp[t].category == category
    requires forall i | 0 <= i < |bs| :: !Matches(bs[i], category)
    requires e.category == category && !HasUrl(bs + fp, e.url)
    ensures var m := |fp|;
      Add(bs + fp, e, cap, baseName, seps, now)
      == bs + fp + [Bucket(GenerateFilename(baseName, seps, category, m + 1, now), category, m + 1, true, [e])]
  {
    FullStore(bs, fp, category, cap);
    AddOpensNextNumber(bs + fp, e, cap, baseName, seps, now, |bs| + |fp| - 1);
  }

  /** Behind a store without the category, files all full except the last: the last is the first open one. */
  lemma OpenStore(bs: seq<Bucket>, fp: seq<Bucket>, category: string, cap: int)
    requires |fp| >= 1 && |fp[|fp| - 1].entries| < cap
    requires forall t | 0 <= t < |fp| - 1 :: |fp[t].entries| == cap
    requires forall t | 0 <= t < |fp| :: fp[t].category == category
    requires forall i | 0 <= i < |bs| :: !Matches(bs[i], category)
    ensures var s := bs + fp; var k := |bs| + |fp| - 1;
      && Matches(s[k], category) && |s[k].entries| < cap
      && forall j | 0 <= j < k :: !(Matches(s[j], category) && |s[j].entries| < cap)
  {
    var s := bs + fp;
    assert forall j | |bs| <= j < |s| :: s[j] == fp[j - |bs|];
  }

  /** Behind a store without the category, full files numbered 1 to `m`: the last is the top-numbered one. */
  lemma FullStore(bs: seq<Bucket>, fp: seq<Bucket>, category: string, cap: int)
    requires |fp| >= 1
    requires forall t | 0 <= t < |fp| :: |fp[t].entries| == cap && fp[t].number == t + 1 && fp[t].category == category
    requires forall i | 0 <= i < |bs| :: !Matches(bs[i], category)
    ensures var s := bs + fp; var top := |bs| + |fp| - 1;
      && Matches(s[top], category) && s[top].number == |fp|
      && forall i | 0 <= i < |s| :: Matches(s[i], category) ==> s[i].number <= s[top].number && |s[i].entries| >= cap
  {
    var s := bs + fp;
    assert forall j | |bs| <= j < |s| :: s[j] == fp[j - |bs|];
  }

  // ---------------------------------------------------------------------------
  // The whole run

  /**
   * Filing distinct new URLs of one category, which no file of the store matches yet, one
   * after another, appends exactly the files `Filled` describes and changes nothing else.
   */
  lemma {:induction false} FillNewCategory(bs: seq<Bucket>, category: string, es: seq<UrlEntry>, cap: nat,
                                           baseName: string, seps: Separators, clock: nat -> Stamp)
    requires cap >= 1 && ValidClock(clock) && |es| < 0x8000_0000
    requires forall i | 0 <= i < |bs| :: !Matches(bs[i], category)
    requires forall k | 0 <= k < |es| :: es[k].category == category && !HasUrl(bs, es[k].url)
    requires forall j, k | 0 <= j < k < |es| :: es[j].url != es[k].url
    ensures AddAll(bs, es, cap, baseName, seps, clock) == bs + Filled(category, es, cap, baseName, seps, clock)
    decreases |es|
  {
    if |es| == 0 {
      assert Filled(category, es, cap, baseName, seps, clock) == [];
    } else {
      var n := |es| - 1;
      var p := es[..n];
      var e := es[n];
      FillNewCategory(bs, category, p, cap, baseName, seps, clock);
      FillStep(bs, category, es, cap, baseName, seps, clock);
    }
  }

  /** Filing the last entry of `es` after the others extends their filling to that of `es`. */
  lemma FillStep(bs: seq<Bucket>, category: string, es: seq<UrlEntry>, cap: nat, baseName: string, seps: Separators, clock: nat -> Stamp)
    requires cap >= 1 && ValidClock(clock) && 1 <= |es| < 0x8000_0000
    requires forall i | 0 <= i < |bs| :: !Matches(bs[i], category)
    requires es[|es| - 1].category == category && !HasUrl(bs, es[|es| - 1].url)
    requires forall t | 0 <= t < |es| - 1 :: es[t].url != es[|es| - 1].url
    ensures Add(bs + Filled(category, es[..|es| - 1], cap, baseName, seps, clock), es[|es| - 1], cap, baseName, seps, clock(|es| - 1))
         == bs + Filled(category, es, cap, baseName, seps, clock)
  {
    var n := |es| - 1;
    NotYetHeld(bs, category, es[..n], cap, baseName, seps, clock, es[n]);
    if n == 0 {
      FillFirst(bs, category, es, cap, baseName, seps, clock);
    } else if Start(FileCount(n, cap), cap) > n {
      FillAppend(bs, category, es, cap, baseName, seps, clock);
    } else {
      FillNext(bs, category, es, cap, baseName, seps, clock);
    }
  }

  /** `N` entries at `cap` per file fill `ceil(N / cap)` files. */
  lemma FilledCount(category: string, es: seq<UrlEntry>, cap: nat, baseName: string, seps: Separators, clock: nat -> Stamp)
    requires cap >= 1 && ValidClock(clock) && |es| < 0x8000_0000
    ensures |Filled(category, es, cap, baseName, seps, clock)| == (|es| + cap - 1) / cap
  {
    FileCountIsCeil(|es|, cap);
  }

  /**
   * The files filled are numbered 1, 2, ... in order, each named by `GenerateFilename` for
   * its number and the time read by the call that opened it, dirty, and holding the next
   * `cap` URLs in the order they were added (file `j` from entry `Start(j, cap)`, which is
   * `j * cap`); every file is full but the last, which holds the remaining 1 to `cap`.
   */
  lemma FilledShape(category: string, es: seq<UrlEntry>, cap: nat, baseName: string, seps: Separators, clock: nat -> Stamp)
    requires cap >= 1 && ValidClock(clock) && |es| < 0x8000_0000
    ensures var fs := Filled(category, es, cap, baseName, seps, clock);
      forall j | 0 <= j < |fs| :: FileShaped(fs, category, es, cap, baseName, seps, clock, j)
  {
    var fs := Filled(category, es, cap, baseName, seps, clock);
    forall j | 0 <= j < |fs|
      ensures FileShaped(fs, category, es, cap, baseName, seps, clock, j)
    {
      FileShape(category, es, cap, baseName, seps, clock, j);
    }
  }

  /**
   * File `j` of `fs` is numbered `j + 1`, has the category, is dirty, is named for its number
   * and the time `clock(Start(j, cap))`, and holds run `j`: `cap` entries when a later file
   * exists, the remaining 1 to `cap` when it is the last.
   */
  ghost predicate FileShaped(fs: seq<Bucket>, category: string, es: seq<UrlEntry>, cap: nat, baseName: string,
                             seps: Separators, clock: nat -> Stamp, j: nat)
    requires ValidClock(clock) && j < |fs|
  {
    var m := |fs|;
    && fs[j].number == j + 1 && fs[j].category == category && fs[j].needReWrite
    && fs[j].filename == GenerateFilename(baseName, seps, category, j + 1, clock(Start(j, cap)))
    && (j < m - 1 ==> Start(j, cap) + cap <= |es| && fs[j].entries == es[Start(j, cap)..Start(j, cap) + cap])
    && (j == m - 1 ==> Start(j, cap) < |es| && fs[j].entries == es[Start(j, cap)..] && |fs[j].entries| <= cap)
  }

  lemma FileShape(category: string, es: seq<UrlEntry>, cap: nat, baseName: string, seps: Separators, clock: nat -> Stamp, j: nat)
    requires cap >= 1 && ValidClock(clock) && |es| < 0x8000_0000
    requires j < |Filled(category, es, cap, baseName, seps, clock)|
    ensures FileShaped(Filled(category, es, cap, baseName, seps, clock), category, es, cap, baseName, seps, clock, j)
  {
    RunShape(es, cap, j);
  }

  /** Every file of a filling is dirty, of the category and numbered after its position. */
  lemma FilledTags(category: string, es: seq<UrlEntry>, cap: nat, baseName: string, seps: Separators, clock: nat -> Stamp)
    requires cap >= 1 && ValidClock(clock) && |es| < 0x8000_0000
    ensures var fs := Filled(category, es, cap, baseName, seps, clock);
      forall j | 0 <= j < |fs| :: fs[j].category == category && fs[j].number == j + 1 && fs[j].needReWrite
  {
  }

  /** Run `j` of a filling is full when a later run exists and holds the rest otherwise. */
  lemma RunShape(es: seq<UrlEntry>, cap: nat, j: nat)
    requires cap >= 1 && j < FileCount(|es|, cap)
    ensures var m := FileCount(|es|, cap); var lo := Start(j, cap);
      && (j < m - 1 ==> lo + cap <= |es| && Chunk(es, j, cap) == es[lo..lo + cap])
      && (j == m - 1 ==> lo < |es| && Chunk(es, j, cap) == es[lo..] && |Chunk(es, j, cap)| <= cap)
  {
    var m := FileCount(|es|, cap);
    var lo := Start(j, cap);
    if j < m - 1 {
      RunInside(j, m - 1, cap);
      assert lo + cap <= |es|;
      assert Min(lo, |es|) == lo && Min(lo + cap, |es|) == lo + cap;
    } else {
      assert Start(m, cap) == lo + cap && lo < |es| <= lo + cap;
      assert Min(lo, |es|) == lo && Min(lo + cap, |es|) == |es|;
    }
  }
}
