/** The groundtruth cache of benchs/bench_datasets.py: brute-force answers are stored at 100 columns or
    more, one file per dataset, depth and fingerprint, and sliced down to the k a caller asks for.

    Opening a dataset, reading its vectors and hashing them are parameters: `world` gives, for a dataset
    name and a fingerprint, each query's distances to the base rows. */
module GtCache {
  import opened Common
  import opened Distinctness
  import opened Selection
  import opened Streaming
  import opened Knn
  import opened PythonSlices

  type Table = seq<seq<int>>

  // ---------------------------------------------------------------------------------------------
  // Brute force
  // ---------------------------------------------------------------------------------------------

  /** `faiss.knn` on one query: its distances and the depth wanted give a row of entries. */
  type Search = (seq<real>, nat) -> seq<Entry>

  ghost predicate Exact(t: Ties, search: Search) {
    forall dist, k: nat :: IsKnn(t, dist, k, search(dist, k))
  }

  function Ids(row: seq<Entry>): (r: seq<int>)
    ensures |r| == |row|
  {
    seq(|row|, i requires 0 <= i < |row| => row[i].id)
  }

  function BruteForce(search: Search, dists: seq<seq<real>>, k: nat): (gt: Table)
    ensures |gt| == |dists|
  {
    seq(|dists|, q requires 0 <= q < |dists| => Ids(search(dists[q], k)))
  }

  /** `compute_ground_truth`: batches of queries answered one after the other into one table. */
  method ComputeGroundTruth(search: Search, dists: seq<seq<real>>, k: nat, batchSize: nat) returns (gt: Table)
    requires batchSize > 0
    ensures gt == BruteForce(search, dists, k)
  {
    var nq := |dists|;
    var rows := new seq<int>[nq](_ => []);
    var start := 0;
    while start < nq
      invariant 0 <= start
      invariant forall q :: 0 <= q < start && q < nq ==> rows[q] == Ids(search(dists[q], k))
    {
      var end := Min(start + batchSize, nq);
      var ids := BruteForce(search, dists[start..end], k);
      forall q | start <= q < end {
        rows[q] := ids[q - start];
      }
      start := start + batchSize;
    }
    gt := rows[..];
  }

  /** A deeper exact answer starts with an exact answer. */
  lemma PrefixIsKnn(t: Ties, dist: seq<real>, deep: nat, row: seq<Entry>, k: nat)
    requires IsKnn(t, dist, deep, row) && k <= deep
    ensures IsKnn(t, dist, k, row[..k])
  {
    hide Nearest;
    var n, m := Min(deep, |dist|), Min(k, |dist|);
    PrefixIsNearest(t, dist, deep, row[..n], k);
    assert row[..k][..m] == row[..n][..m];
    assert row[..k][m..] == row[n..][..k - m] by {
      if m < k { assert m == n; }
    }
  }

  lemma PrefixIsNearest(t: Ties, dist: seq<real>, deep: nat, near: seq<Entry>, k: nat)
    requires Nearest(t, dist, 0, |dist|, deep, near) && k <= deep
    ensures Nearest(t, dist, 0, |dist|, k, near[..Min(k, |dist|)])
  {
    hide Numbered, Worse, Best;
    PrefixIsBest(t, near, Min(k, |dist|), multiset(Numbered(dist, 0, |dist|)));
  }

  lemma PrefixIsBest(t: Ties, near: seq<Entry>, m: nat, hits: multiset<Entry>)
    requires m <= |near| && multiset(near) <= hits
    requires forall i, j :: 0 <= i < j < |near| ==> !Worse(t, near[i], near[j])
    requires Best(t, multiset(near), hits - multiset(near))
    ensures multiset(near[..m]) <= hits
    ensures Best(t, multiset(near[..m]), hits - multiset(near[..m]))
  {
    hide Worse;
    var front, back := near[..m], near[m..];
    assert near == front + back;
    SplitRest(multiset(front), multiset(back), hits);
    forall a, b | a in multiset(front) && b in hits - multiset(front)
      ensures !Worse(t, a, b)
    {
      if b in multiset(back) {
        FrontBeatsBack(t, near, m, a, b);
      } else {
        assert a in multiset(near);
      }
    }
  }

  lemma FrontBeatsBack(t: Ties, near: seq<Entry>, m: nat, a: Entry, b: Entry)
    requires m <= |near| && a in near[..m] && b in near[m..]
    requires forall i, j :: 0 <= i < j < |near| ==> !Worse(t, near[i], near[j])
    ensures !Worse(t, a, b)
  {
    var i :| 0 <= i < m && near[i] == a;
    var j :| 0 <= j < |near[m..]| && near[m..][j] == b;
    assert near[m + j] == b;
  }

  lemma SplitRest<T>(front: multiset<T>, back: multiset<T>, all: multiset<T>)
    requires front + back <= all
    ensures front <= all
    ensures forall e :: e in all - front && e !in back ==> e in all - (front + back)
  {
  }

  // ---------------------------------------------------------------------------------------------
  // Depths
  // ---------------------------------------------------------------------------------------------

  /** GT_CACHE_K */
  const CACHE_K: nat := 100

  /** `k` counts as given: neither None nor 0. */
  predicate Given(k: Option<int>) {
    k.Some? && k.value != 0
  }

  /** `_cache_k` */
  function CacheK(k: Option<int>): (depth: nat)
    ensures depth >= CACHE_K && (k.Some? ==> depth >= k.value)
    ensures depth == CACHE_K || k == Some(depth)
  {
    var wanted := if Given(k) then k.value else CACHE_K;
    if wanted > CACHE_K then wanted else CACHE_K
  }

  /** `gt[:, :n]` */
  function FirstColumns(gt: Table, n: int): (r: Table)
    ensures |r| == |gt|
  {
    seq(|gt|, q requires 0 <= q < |gt| => Upto(gt[q], n))
  }

  /** `gt[:, :k] if k else gt` */
  function Columns(gt: Table, k: Option<int>): (r: Table)
    ensures |r| == |gt|
  {
    if Given(k) then FirstColumns(gt, k.value) else gt
  }

  /** The answer to a computed request, whether or not it came from the cache. */
  function FreshAnswer(search: Search, dists: seq<seq<real>>, k: Option<int>): (r: Table)
    ensures |r| == |dists|
  {
    Columns(BruteForce(search, dists, CacheK(k)), k)
  }

  /** Caching at a greater depth is invisible: for k >= 1 every row of the answer lists an exact k-NN
      answer, and where exact answers are unique it is the row a direct computation at k gives. */
  lemma CachedColumns(t: Ties, search: Search, dists: seq<seq<real>>, k: nat, q: nat)
    requires Exact(t, search) && k >= 1 && q < |dists|
    ensures var row := search(dists[q], CacheK(Some(k)))[..Min(k, |search(dists[q], CacheK(Some(k)))|)];
            IsKnn(t, dists[q], k, row) && FreshAnswer(search, dists, Some(k))[q] == Ids(row)
    ensures t.ById? || Distinct(dists[q]) ==>
              FreshAnswer(search, dists, Some(k))[q] == BruteForce(search, dists, k)[q]
  {
    hide IsKnn;
    var dist, deep := dists[q], CacheK(Some(k));
    var row := search(dist, deep);
    assert IsKnn(t, dist, deep, row);
    assert |row| == deep by { SplitRow(t, dist, deep, row); }
    PrefixIsKnn(t, dist, deep, row, k);
    assert IsKnn(t, dist, k, search(dist, k));
    if t.ById? || Distinct(dist) {
      AnswersAgree(t, dist, k, row[..k], search(dist, k));
    }
  }

  /** Whatever the depth it was computed at, an answer for k >= 1 lists for each query min(k, n) different
      base rows by ascending distance, no other base row being nearer, and then -1. */
  lemma AnswerListsNearest(t: Ties, search: Search, dists: seq<seq<real>>, k: nat, q: nat)
    requires Exact(t, search) && k >= 1 && q < |dists|
    ensures ListsNearest(dists[q], k, FreshAnswer(search, dists, Some(k))[q])
  {
    hide IsKnn, FreshAnswer, ListsNearest;
    CachedColumns(t, search, dists, k, q);
    var r := search(dists[q], CacheK(Some(k)))[..Min(k, |search(dists[q], CacheK(Some(k)))|)];
    RowListsNearest(t, dists[q], k, r, Ids(r));
  }

  /** An answer has exactly k columns precisely when k is positive: None and 0 give the cached depth,
      and a negative k drops columns from the end. */
  lemma AnswerWidth(t: Ties, search: Search, dists: seq<seq<real>>, k: Option<int>, q: nat)
    requires Exact(t, search) && q < |dists|
    ensures k.Some? ==> (|FreshAnswer(search, dists, k)[q]| == k.value <==> k.value >= 1)
    ensures !Given(k) ==> |FreshAnswer(search, dists, k)[q]| == CACHE_K
    ensures k.Some? && k.value < 0 ==> |FreshAnswer(search, dists, k)[q]| == Bound(CACHE_K, k.value)
  {
    hide IsKnn;
    assert IsKnn(t, dists[q], CacheK(k), search(dists[q], CacheK(k)));
    SplitRow(t, dists[q], CacheK(k), search(dists[q], CacheK(k)));
  }

  // ---------------------------------------------------------------------------------------------
  // File names
  // ---------------------------------------------------------------------------------------------

  function Digit(n: nat): char
    requires n < 10
  {
    "0123456789"[n]
  }

  /** `str(n)` */
  function Decimal(n: nat): (s: string)
    ensures s != []
    ensures forall c :: c in s ==> c in "0123456789"
  {
    if n < 10 then [Digit(n)] else Decimal(n / 10) + [Digit(n % 10)]
  }

  /** The number a string of digits denotes. */
  function NumberOf(s: string): int {
    if s == [] then 0 else 10 * NumberOf(s[..|s| - 1]) + (s[|s| - 1] as int - '0' as int)
  }

  lemma {:induction false} DecimalReads(n: nat)
    ensures NumberOf(Decimal(n)) == n
  {
    if n >= 10 {
      DecimalReads(n / 10);
    }
  }

  lemma DecimalLength(n: nat)
    ensures |Decimal(n)| == 1 <==> n < 10
  {
  }

  lemma {:induction false} DecimalInjective(m: nat, n: nat)
    requires Decimal(m) == Decimal(n)
    ensures m == n
  {
    DecimalLength(m);
    DecimalLength(n);
    if m >= 10 {
      var a, b := Decimal(m), Decimal(n);
      assert a[..|a| - 1] == Decimal(m / 10) && b[..|b| - 1] == Decimal(n / 10);
      assert a[|a| - 1] == Digit(m % 10) && b[|b| - 1] == Digit(n % 10);
      DecimalInjective(m / 10, n / 10);
    }
  }

  /** `hexdigest()` of a non-empty digest. */
  predicate IsDigest(s: string) {
    s != [] && forall c :: c in s ==> c in "0123456789abcdef"
  }

  /** The base name `_gt_cache_path` builds. */
  function FileName(tag: string, depth: nat, fingerprint: Option<string>): string {
    "gt_" + tag + "_k" + Decimal(depth)
    + (if fingerprint.Some? && fingerprint.value != "" then "_" + fingerprint.value else "")
    + ".npy"
  }

  lemma LastUnderscore(a: string, x: string)
    requires '_' !in x
    ensures forall i :: |a| < i < |a + "_" + x| ==> (a + "_" + x)[i] != '_'
  {
    forall i | |a| < i < |a + "_" + x| ensures (a + "_" + x)[i] != '_' {
      assert (a + "_" + x)[i] == x[i - |a| - 1];
    }
  }

  lemma LastField(a: string, x: string, b: string, y: string)
    requires a + "_" + x == b + "_" + y
    requires '_' !in x && '_' !in y
    ensures a == b && x == y
  {
    var s, t := a + "_" + x, b + "_" + y;
    assert s[|a|] == '_' && t[|b|] == '_';
    LastUnderscore(a, x);
    LastUnderscore(b, y);
    assert a == s[..|a|] && b == t[..|b|];
    assert x == s[|a| + 1..] && y == t[|b| + 1..];
  }

  lemma SameMiddle(p: string, a: string, b: string, s: string)
    requires p + a + s == p + b + s
    ensures a == b
  {
    var x, y := p + a + s, p + b + s;
    assert |a| == |b|;
    assert a == x[|p|..|p| + |a|] && b == y[|p|..|p| + |b|];
  }

  /** The stem between "gt_" and ".npy". */
  function Stem(tag: string, depth: nat, fingerprint: Option<string>): string {
    if fingerprint.None? then tag + "_" + ("k" + Decimal(depth))
    else (tag + "_" + ("k" + Decimal(depth))) + "_" + fingerprint.value
  }

  lemma NameOfStem(tag: string, depth: nat, fingerprint: Option<string>)
    requires fingerprint.Some? ==> IsDigest(fingerprint.value)
    ensures FileName(tag, depth, fingerprint) == "gt_" + Stem(tag, depth, fingerprint) + ".npy"
  {
    hide Decimal;
    var d := Decimal(depth);
    assert "_k" + d == "_" + ("k" + d);
    if fingerprint.None? {
      assert "gt_" + tag + "_k" + d + "" + ".npy" == "gt_" + (tag + "_" + ("k" + d)) + ".npy";
    } else {
      var f := fingerprint.value;
      assert "gt_" + tag + "_k" + d + ("_" + f) + ".npy" == "gt_" + ((tag + "_" + ("k" + d)) + "_" + f) + ".npy";
    }
  }

  /** Two requests share a cache file exactly when dataset name, depth and fingerprint all agree; a
      file named without a fingerprint is never taken for one named with it. */
  lemma FileNamesDistinguish(tag: string, depth: nat, f: Option<string>, tag': string, depth': nat, f': Option<string>)
    requires f.Some? ==> IsDigest(f.value)
    requires f'.Some? ==> IsDigest(f'.value)
    ensures FileName(tag, depth, f) == FileName(tag', depth', f') <==> tag == tag' && depth == depth' && f == f'
  {
    hide FileName, Decimal, IsDigest;
    if FileName(tag, depth, f) == FileName(tag', depth', f') {
      NameOfStem(tag, depth, f);
      NameOfStem(tag', depth', f');
      SameMiddle("gt_", Stem(tag, depth, f), Stem(tag', depth', f'), ".npy");
      var x, x' := "k" + Decimal(depth), "k" + Decimal(depth');
      Fields(depth, f);
      Fields(depth', f');
      if f.Some? && f'.Some? {
        LastField(tag + "_" + x, f.value, tag' + "_" + x', f'.value);
        LastField(tag, x, tag', x');
        DepthField(depth, depth');
      } else if f.Some? {
        LastField(tag + "_" + x, f.value, tag', x');
      } else if f'.Some? {
        LastField(tag, x, tag' + "_" + x', f'.value);
      } else {
        LastField(tag, x, tag', x');
        DepthField(depth, depth');
      }
    }
  }

  lemma DepthField(m: nat, n: nat)
    requires "k" + Decimal(m) == "k" + Decimal(n)
    ensures m == n
  {
    hide Decimal;
    assert ("k" + Decimal(m))[1..] == Decimal(m) && ("k" + Decimal(n))[1..] == Decimal(n);
    DecimalInjective(m, n);
  }

  lemma Fields(depth: nat, f: Option<string>)
    requires f.Some? ==> IsDigest(f.value)
    ensures '_' !in "k" + Decimal(depth) && 'k' in "k" + Decimal(depth)
    ensures f.Some? ==> '_' !in f.value && 'k' !in f.value
  {
    assert ("k" + Decimal(depth))[0] == 'k';
  }

  // ---------------------------------------------------------------------------------------------
  // The cache on disk
  // ---------------------------------------------------------------------------------------------

  datatype Path = Path(dir: string, name: string)

  /** One request as it reaches `_load_or_compute_gt`; `saves` says whether writing the file would
      succeed at that moment. */
  datatype Request = Request(dir: string, cacheDir: Option<string>, tag: string, fingerprint: string,
                             k: Option<int>, saves: bool)

  /** `_gt_cache_path` */
  function PathOf(r: Request): Path {
    Path(if r.cacheDir.Some? && r.cacheDir.value != "" then r.cacheDir.value else r.dir,
         FileName(r.tag, CacheK(r.k), Some(r.fingerprint)))
  }

  /** The distances behind a dataset name and a fingerprint: the crop size belongs to the name, the
      base and query contents to the fingerprint. */
  type World = (string, string) -> seq<seq<real>>

  type Disk = map<Path, Table>

  function AnswerTo(search: Search, world: World, disk: Disk, r: Request): Table {
    Columns(if PathOf(r) in disk then disk[PathOf(r)]
            else BruteForce(search, world(r.tag, r.fingerprint), CacheK(r.k)), r.k)
  }

  function DiskAfterOne(search: Search, world: World, disk: Disk, r: Request): Disk {
    if PathOf(r) in disk || !r.saves then disk
    else disk[PathOf(r) := BruteForce(search, world(r.tag, r.fingerprint), CacheK(r.k))]
  }

  function DiskAfter(search: Search, world: World, disk: Disk, rs: seq<Request>): Disk {
    if rs == [] then disk
    else DiskAfterOne(search, world, DiskAfter(search, world, disk, rs[..|rs| - 1]), rs[|rs| - 1])
  }

  /** Every file that carries a cache name holds the table that name stands for. */
  ghost predicate Correct(search: Search, world: World, disk: Disk) {
    forall dir, tag, f, depth: nat :: IsDigest(f) && Path(dir, FileName(tag, depth, Some(f))) in disk ==>
      disk[Path(dir, FileName(tag, depth, Some(f)))] == BruteForce(search, world(tag, f), depth)
  }

  lemma CorrectAfterOne(search: Search, world: World, disk: Disk, r: Request)
    requires Correct(search, world, disk) && IsDigest(r.fingerprint)
    ensures Correct(search, world, DiskAfterOne(search, world, disk, r))
    ensures AnswerTo(search, world, disk, r) == FreshAnswer(search, world(r.tag, r.fingerprint), r.k)
  {
    hide FileName, BruteForce, CacheK, Columns, IsDigest;
    var disk', p := DiskAfterOne(search, world, disk, r), PathOf(r);
    forall dir, tag, f, depth: nat | IsDigest(f) && Path(dir, FileName(tag, depth, Some(f))) in disk'
      ensures disk'[Path(dir, FileName(tag, depth, Some(f)))] == BruteForce(search, world(tag, f), depth)
    {
      if Path(dir, FileName(tag, depth, Some(f))) == p {
        FileNamesDistinguish(tag, depth, Some(f), r.tag, CacheK(r.k), Some(r.fingerprint));
      }
    }
  }

  /** A request writes at most its own file, in the cache directory if one is named and beside the dataset
      if not, and leaves every file that was there as it was. */
  lemma WritesOwnFile(search: Search, world: World, disk: Disk, r: Request, p: Path)
    ensures p in disk ==> p in DiskAfterOne(search, world, disk, r) && DiskAfterOne(search, world, disk, r)[p] == disk[p]
    ensures p !in disk && p in DiskAfterOne(search, world, disk, r) ==>
              && r.saves && p.name == FileName(r.tag, CacheK(r.k), Some(r.fingerprint))
              && (r.cacheDir.None? || r.cacheDir == Some("") ==> p.dir == r.dir)
              && (r.cacheDir.Some? && r.cacheDir != Some("") ==> p.dir == r.cacheDir.value)
  {
    hide FileName;
  }

  lemma {:induction false} CorrectAfter(search: Search, world: World, disk: Disk, rs: seq<Request>)
    requires Correct(search, world, disk)
    requires forall r :: r in rs ==> IsDigest(r.fingerprint)
    ensures Correct(search, world, DiskAfter(search, world, disk, rs))
  {
    hide Correct, DiskAfterOne, IsDigest;
    if rs != [] {
      CorrectAfter(search, world, disk, rs[..|rs| - 1]);
      CorrectAfterOne(search, world, DiskAfter(search, world, disk, rs[..|rs| - 1]), rs[|rs| - 1]);
    }
  }

  /** Over any run of requests, from an empty or a correct cache and whatever saves fail, every answer
      is the one recomputing from scratch would give. */
  lemma EveryAnswer(search: Search, world: World, disk: Disk, rs: seq<Request>, i: nat)
    requires Correct(search, world, disk)
    requires forall r :: r in rs ==> IsDigest(r.fingerprint)
    requires i < |rs|
    ensures AnswerTo(search, world, DiskAfter(search, world, disk, rs[..i]), rs[i])
            == FreshAnswer(search, world(rs[i].tag, rs[i].fingerprint), rs[i].k)
  {
    hide Correct, AnswerTo, DiskAfter, FreshAnswer, IsDigest;
    CorrectAfter(search, world, disk, rs[..i]);
    CorrectAfterOne(search, world, DiskAfter(search, world, disk, rs[..i]), rs[i]);
  }

  /** Request `i` of a run runs the brute force exactly when its file was not there at the start and
      no earlier request for it managed to save. */
  lemma {:induction false} ComputesExactlyWhen(search: Search, world: World, disk: Disk, rs: seq<Request>, p: Path)
    ensures p !in DiskAfter(search, world, disk, rs)
            <==> p !in disk && forall j :: 0 <= j < |rs| && PathOf(rs[j]) == p ==> !rs[j].saves
  {
    hide PathOf;
    if rs != [] {
      var n := |rs| - 1;
      ComputesExactlyWhen(search, world, disk, rs[..n], p);
      assert forall j :: 0 <= j < n ==> rs[..n][j] == rs[j];
    }
  }

  /** When saves succeed no table is computed twice. */
  lemma ComputedAtMostOnce(search: Search, world: World, disk: Disk, rs: seq<Request>, i: nat, j: nat)
    requires i < j < |rs| && PathOf(rs[i]) == PathOf(rs[j])
    requires rs[i].saves
    ensures PathOf(rs[j]) in DiskAfter(search, world, disk, rs[..j])
  {
    hide PathOf, DiskAfter;
    ComputesExactlyWhen(search, world, disk, rs[..j], PathOf(rs[j]));
    assert rs[..j][i] == rs[i];
  }

  // ---------------------------------------------------------------------------------------------
  // The dataset's groundtruth
  // ---------------------------------------------------------------------------------------------

  /** A shipped groundtruth file. */
  datatype Official = Official(width: nat, rows: Table) {
    ghost predicate Valid() {
      forall r :: r in rows ==> |r| == width
    }
  }

  /** The shipped file answers unless it is shallower than the request. */
  predicate Shipped(official: Option<Official>, k: Option<int>) {
    official.Some? && (k.None? || official.value.width >= k.value)
  }

  function Groundtruth(search: Search, world: World, disk: Disk, official: Option<Official>, nq: nat, r: Request): Table {
    if Shipped(official, r.k) then
      var rows := official.value.rows;
      var gt := if |rows| > nq then rows[..nq] else rows;
      if r.k.Some? then FirstColumns(gt, r.k.value) else gt
    else AnswerTo(search, world, disk, r)
  }

  /** The width an answer has when the shipped file gives it. */
  lemma ShippedWidth(search: Search, world: World, disk: Disk, official: Official, nq: nat, r: Request, q: nat)
    requires official.Valid() && Shipped(Some(official), r.k)
    requires q < |Groundtruth(search, world, disk, Some(official), nq, r)|
    ensures |Groundtruth(search, world, disk, Some(official), nq, r)[q]|
            == if r.k.None? then official.width else Bound(official.width, r.k.value)
  {
    hide AnswerTo;
    assert official.rows[q] in official.rows;
  }

  /** Exactly when a request is answered with as many columns as it names: for k >= 1, and for k = 0 if
      there is a shipped file. */
  lemma WidthIsK(t: Ties, search: Search, world: World, disk: Disk, official: Option<Official>,
                 nq: nat, r: Request, q: nat)
    requires Exact(t, search) && Correct(search, world, disk) && IsDigest(r.fingerprint)
    requires official.Some? ==> official.value.Valid()
    requires r.k.Some? && q < |Groundtruth(search, world, disk, official, nq, r)|
    ensures |Groundtruth(search, world, disk, official, nq, r)[q]| == r.k.value
            <==> r.k.value >= 1 || (r.k.value == 0 && Shipped(official, r.k))
  {
    hide FreshAnswer, AnswerTo, Correct, IsDigest, IsKnn;
    if Shipped(official, r.k) {
      ShippedWidth(search, world, disk, official.value, nq, r, q);
    } else {
      CorrectAfterOne(search, world, disk, r);
      AnswerWidth(t, search, world(r.tag, r.fingerprint), r.k, q);
    }
  }

  /** Exactly when it does not matter for the width which route answers: always for k >= 1, never for
      k = 0, and otherwise only if the shipped file is 100 columns wide or a negative k empties both. */
  lemma RoutesSameWidth(t: Ties, search: Search, world: World, disk: Disk, official: Official,
                        nq: nat, r: Request, q: nat)
    requires Exact(t, search) && Correct(search, world, disk) && IsDigest(r.fingerprint)
    requires official.Valid() && Shipped(Some(official), r.k)
    requires q < |Groundtruth(search, world, disk, Some(official), nq, r)|
    requires q < |Groundtruth(search, world, disk, None, nq, r)|
    ensures |Groundtruth(search, world, disk, Some(official), nq, r)[q]|
            == |Groundtruth(search, world, disk, None, nq, r)[q]|
            <==> if r.k.None? then official.width == CACHE_K
                 else r.k.value >= 1
                      || (r.k.value < 0 && (official.width == CACHE_K
                                            || (official.width <= -r.k.value && CACHE_K <= -r.k.value)))
  {
    hide FreshAnswer, AnswerTo, Correct, IsDigest, IsKnn;
    ShippedWidth(search, world, disk, official, nq, r, q);
    CorrectAfterOne(search, world, disk, r);
    AnswerWidth(t, search, world(r.tag, r.fingerprint), r.k, q);
  }

  /** The two routes disagree on k = 0: the shipped file is cut to no columns, the cache gives all 100. */
  lemma ZeroColumnsDisagree(t: Ties, search: Search, world: World, disk: Disk, official: Official,
                            nq: nat, r: Request, q: nat)
    requires Exact(t, search) && Correct(search, world, disk) && IsDigest(r.fingerprint)
    requires official.Valid() && r.k == Some(0)
    requires q < |world(r.tag, r.fingerprint)| && q < nq && q < |official.rows|
    ensures Groundtruth(search, world, disk, Some(official), nq, r)[q] == []
    ensures |Groundtruth(search, world, disk, None, nq, r)| == |world(r.tag, r.fingerprint)|
    ensures |Groundtruth(search, world, disk, None, nq, r)[q]| == CACHE_K
  {
    hide FreshAnswer, AnswerTo, Correct, IsDigest, IsKnn;
    CorrectAfterOne(search, world, disk, r);
    AnswerWidth(t, search, world(r.tag, r.fingerprint), r.k, q);
  }

  /** A dataset and the cache directory it writes to. */
  class Groundtruths {
    var disk: Disk
    const search: Search
    const world: World

    constructor (search: Search, world: World, disk: Disk)
      ensures this.search == search && this.world == world && this.disk == disk
    {
      this.search, this.world, this.disk := search, world, disk;
    }

    /** `_load_or_compute_gt` */
    method LoadOrCompute(r: Request) returns (answer: Table)
      modifies this
      ensures answer == AnswerTo(search, world, old(disk), r)
      ensures disk == DiskAfterOne(search, world, old(disk), r)
    {
      var path := PathOf(r);
      var gt: Table;
      if path in disk {
        gt := disk[path];
      } else {
        gt := ComputeGroundTruth(search, world(r.tag, r.fingerprint), CacheK(r.k), 4096);
        if r.saves {
          disk := disk[path := gt];
        }
      }
      answer := if Given(r.k) then FirstColumns(gt, r.k.value) else gt;
    }

    /** `get_groundtruth` */
    method GetGroundtruth(official: Option<Official>, nq: nat, r: Request) returns (gt: Table)
      modifies this
      ensures gt == Groundtruth(search, world, old(disk), official, nq, r)
      ensures disk == if Shipped(official, r.k) then old(disk) else DiskAfterOne(search, world, old(disk), r)
    {
      if official.Some? {
        gt := official.value.rows;
        if |gt| > nq {
          gt := gt[..nq];
        }
        if r.k.None? || official.value.width >= r.k.value {
          if r.k.Some? {
            gt := FirstColumns(gt, r.k.value);
          }
          return;
        }
      }
      gt := LoadOrCompute(r);
    }
  }
}
