/** Sorting symbols by frequency (`tdefl_radix_sort_syms`): two stable counting passes over bytes. */
module RadixSort {
  import opened Bits
  import opened Canonical
  import opened Sums
  import opened MinRedundancy

  function Digit(x: SymFreq, pass: nat): nat {
    if pass == 0 then x.key % 256 else (x.key / 256) % 256
  }

  /** The elements of `s` with digit `d`, in order. */
  function Bucket(s: seq<SymFreq>, pass: nat, d: nat): seq<SymFreq> {
    if s == [] then []
    else
      var r := Bucket(s[..|s| - 1], pass, d);
      if Digit(s[|s| - 1], pass) == d then r + [s[|s| - 1]] else r
  }

  /** The buckets below `d`, one after the other. */
  function Buckets(s: seq<SymFreq>, pass: nat, d: nat): seq<SymFreq> {
    if d == 0 then [] else Buckets(s, pass, d - 1) + Bucket(s, pass, d - 1)
  }

  /** One counting pass. */
  function Pass(s: seq<SymFreq>, pass: nat): seq<SymFreq> { Buckets(s, pass, 256) }

  // ---- A pass is a permutation

  /** The elements whose digit is below `d`, in order. */
  function Below(s: seq<SymFreq>, pass: nat, d: nat): seq<SymFreq> {
    if s == [] then []
    else
      var r := Below(s[..|s| - 1], pass, d);
      if Digit(s[|s| - 1], pass) < d then r + [s[|s| - 1]] else r
  }

  lemma {:induction false} BelowStep(s: seq<SymFreq>, pass: nat, d: nat)
    ensures multiset(Below(s, pass, d + 1)) == multiset(Below(s, pass, d)) + multiset(Bucket(s, pass, d))
  {
    if s != [] { BelowStep(s[..|s| - 1], pass, d); }
  }

  lemma {:induction false} BelowAll(s: seq<SymFreq>, pass: nat)
    ensures Below(s, pass, 256) == s
  {
    if s != [] {
      BelowAll(s[..|s| - 1], pass);
      assert s == s[..|s| - 1] + [s[|s| - 1]];
    }
  }

  lemma {:induction false} BelowNone(s: seq<SymFreq>, pass: nat)
    ensures Below(s, pass, 0) == []
  {
    if s != [] { BelowNone(s[..|s| - 1], pass); }
  }

  lemma {:induction false} BucketsBelow(s: seq<SymFreq>, pass: nat, d: nat)
    ensures multiset(Buckets(s, pass, d)) == multiset(Below(s, pass, d))
  {
    hide Below, Bucket;
    if d == 0 {
      BelowNone(s, pass);
    } else {
      BucketsBelow(s, pass, d - 1);
      BelowStep(s, pass, d - 1);
      assert Buckets(s, pass, d) == Buckets(s, pass, d - 1) + Bucket(s, pass, d - 1);
    }
  }

  lemma PassPermutes(s: seq<SymFreq>, pass: nat)
    ensures multiset(Pass(s, pass)) == multiset(s) && |Pass(s, pass)| == |s|
  {
    BucketsBelow(s, pass, 256);
    BelowAll(s, pass);
    assert |multiset(Pass(s, pass))| == |multiset(s)|;
  }

  // ---- Two passes sort

  /** Ordered by `Key`, the low digit or both. */
  ghost predicate SortedLow(s: seq<SymFreq>) {
    forall i, j :: 0 <= i <= j < |s| ==> s[i].key % 256 <= s[j].key % 256
  }

  ghost predicate SortedKeys(s: seq<SymFreq>) {
    forall i, j :: 0 <= i <= j < |s| ==> s[i].key <= s[j].key
  }

  /** A bucket lists its elements in their old order. */
  lemma {:induction false} BucketFrom(s: seq<SymFreq>, pass: nat, d: nat)
    ensures forall x :: x in Bucket(s, pass, d) ==> x in s && Digit(x, pass) == d
    ensures SortedLow(s) ==> SortedLow(Bucket(s, pass, d))
  {
    if s != [] {
      var init, last := s[..|s| - 1], s[|s| - 1];
      BucketFrom(init, pass, d);
      var r := Bucket(init, pass, d);
      forall x | x in r ensures x in s && (SortedLow(s) ==> x.key % 256 <= last.key % 256) {
        assert x in init;
      }
      assert forall i :: 0 <= i < |r| ==> r[i] in r;
    }
  }

  lemma {:induction false} LowBuckets(s: seq<SymFreq>, d: nat)
    ensures forall x :: x in Buckets(s, 0, d) ==> x.key % 256 < d
    ensures SortedLow(Buckets(s, 0, d))
  {
    if d > 0 {
      LowBuckets(s, d - 1);
      BucketFrom(s, 0, d - 1);
      var a, b := Buckets(s, 0, d - 1), Bucket(s, 0, d - 1);
      assert forall i :: 0 <= i < |b| ==> b[i] in b;
      assert forall i :: 0 <= i < |a| ==> a[i] in a;
    }
  }

  lemma {:induction false} HighBuckets(s: seq<SymFreq>, d: nat)
    requires SortedLow(s) && forall x :: x in s ==> x.key < 65536
    ensures forall x :: x in Buckets(s, 1, d) ==> x.key < 256 * d && x.key < 65536
    ensures SortedKeys(Buckets(s, 1, d))
  {
    if d > 0 {
      HighBuckets(s, d - 1);
      BucketFrom(s, 1, d - 1);
      var a, b := Buckets(s, 1, d - 1), Bucket(s, 1, d - 1);
      assert forall i :: 0 <= i < |b| ==> b[i] in b;
      assert forall i :: 0 <= i < |a| ==> a[i] in a;
      HighBucketSorted(b, d - 1);
    }
  }

  lemma HighBucketSorted(b: seq<SymFreq>, d: nat)
    requires SortedLow(b) && forall x :: x in b ==> x.key < 65536 && Digit(x, 1) == d
    ensures SortedKeys(b) && forall x :: x in b ==> 256 * d <= x.key < 256 * (d + 1)
  {
    forall x | x in b ensures 256 * d <= x.key < 256 * (d + 1) && x.key == 256 * d + x.key % 256 {
    }
    forall i, j | 0 <= i <= j < |b| ensures b[i].key <= b[j].key {
      assert b[i] in b && b[j] in b;
    }
  }

  /** Low pass, then high pass: sorted, because the second pass is stable. */
  lemma TwoPassesSort(s: seq<SymFreq>)
    requires forall x :: x in s ==> x.key < 65536
    ensures SortedKeys(Pass(Pass(s, 0), 1)) && multiset(Pass(Pass(s, 0), 1)) == multiset(s)
  {
    PassPermutes(s, 0);
    PassPermutes(Pass(s, 0), 1);
    LowBuckets(s, 256);
    forall x | x in Pass(s, 0) ensures x.key < 65536 {
      assert x in multiset(Pass(s, 0));
    }
    HighBuckets(Pass(s, 0), 256);
  }

  /** If all high bytes are zero the low pass alone sorts. */
  lemma OnePassSorts(s: seq<SymFreq>)
    requires forall x :: x in s ==> x.key < 256
    ensures SortedKeys(Pass(s, 0)) && multiset(Pass(s, 0)) == multiset(s)
  {
    PassPermutes(s, 0);
    LowBuckets(s, 256);
    hide Bucket, Buckets;
    var t := Pass(s, 0);
    forall x | x in t ensures x.key < 256 {
      assert x in multiset(t);
    }
    forall i, j | 0 <= i <= j < |t| ensures t[i].key <= t[j].key {
      assert t[i] in t && t[j] in t;
    }
  }

  // ---- The pass in the array

  lemma {:induction false} BucketsLength(s: seq<SymFreq>, pass: nat, d: nat, e: nat)
    requires d <= e
    ensures |Buckets(s, pass, d)| <= |Buckets(s, pass, e)|
    ensures Buckets(s, pass, e)[..|Buckets(s, pass, d)|] == Buckets(s, pass, d)
    decreases e
  {
    if d < e { BucketsLength(s, pass, d, e - 1); }
  }

  lemma BucketGrows(s: seq<SymFreq>, k: nat, pass: nat, d: nat)
    requires k < |s|
    ensures Bucket(s[..k + 1], pass, d)
         == if Digit(s[k], pass) == d then Bucket(s[..k], pass, d) + [s[k]] else Bucket(s[..k], pass, d)
  {
    assert s[..k + 1][..k] == s[..k];
  }

  lemma {:induction false} BucketPrefix(s: seq<SymFreq>, k: nat, pass: nat, d: nat)
    requires k <= |s|
    ensures |Bucket(s[..k], pass, d)| <= |Bucket(s, pass, d)|
    decreases |s| - k
  {
    if k == |s| {
      assert s[..k] == s;
    } else {
      BucketGrows(s, k, pass, d);
      BucketPrefix(s, k + 1, pass, d);
    }
  }

  /** Where bucket `d` starts. */
  function Start(s: seq<SymFreq>, pass: nat, d: nat): nat { |Buckets(s, pass, d)| }

  lemma StartStep(s: seq<SymFreq>, pass: nat, d: nat)
    ensures Start(s, pass, d + 1) == Start(s, pass, d) + |Bucket(s, pass, d)|
  {
  }

  /** `t` holds, for each digit, the part of its bucket that the first `k` elements of `s` supply. */
  ghost predicate Scattered(t: seq<SymFreq>, s: seq<SymFreq>, pass: nat, k: nat)
    requires k <= |s|
  {
    && |t| == |s|
    && forall d: nat :: d < 256 ==>
         && Start(s, pass, d) + |Bucket(s[..k], pass, d)| <= |t|
         && t[Start(s, pass, d)..Start(s, pass, d) + |Bucket(s[..k], pass, d)|] == Bucket(s[..k], pass, d)
  }

  lemma ScatterFits(s: seq<SymFreq>, pass: nat, k: nat)
    requires k < |s|
    ensures Start(s, pass, Digit(s[k], pass)) + |Bucket(s[..k], pass, Digit(s[k], pass))| < |s|
  {
    var d := Digit(s[k], pass);
    PassPermutes(s, pass);
    BucketGrows(s, k, pass, d);
    BucketPrefix(s, k + 1, pass, d);
    BucketsLength(s, pass, d + 1, 256);
    StartStep(s, pass, d);
  }

  lemma ScatterStep(t: seq<SymFreq>, s: seq<SymFreq>, pass: nat, k: nat)
    requires k < |s| && Scattered(t, s, pass, k)
    ensures
      var d := Digit(s[k], pass);
      var at := Start(s, pass, d) + |Bucket(s[..k], pass, d)|;
      at < |t| && Scattered(t[at := s[k]], s, pass, k + 1)
  {
    var e := Digit(s[k], pass);
    var at := Start(s, pass, e) + |Bucket(s[..k], pass, e)|;
    ScatterFits(s, pass, k);
    var r := t[at := s[k]];
    forall d: nat | d < 256
      ensures Start(s, pass, d) + |Bucket(s[..k + 1], pass, d)| <= |r|
      ensures r[Start(s, pass, d)..Start(s, pass, d) + |Bucket(s[..k + 1], pass, d)|] == Bucket(s[..k + 1], pass, d)
    {
      BucketGrows(s, k, pass, d);
      var lo, hi := Start(s, pass, d), Start(s, pass, d) + |Bucket(s[..k], pass, d)|;
      if d == e {
        assert r[lo..hi + 1] == t[lo..hi] + [s[k]];
      } else {
        Disjoint(s, pass, k, d, e);
        assert r[lo..hi] == t[lo..hi];
      }
    }
  }

  /** The place of the next element lies in its own bucket, outside every other one. */
  lemma Disjoint(s: seq<SymFreq>, pass: nat, k: nat, d: nat, e: nat)
    requires k < |s| && d < 256 && e == Digit(s[k], pass) && d != e
    ensures
      var at := Start(s, pass, e) + |Bucket(s[..k], pass, e)|;
      at < Start(s, pass, d) || at >= Start(s, pass, d) + |Bucket(s[..k], pass, d)|
  {
    BucketGrows(s, k, pass, e);
    BucketPrefix(s, k + 1, pass, e);
    BucketPrefix(s, k, pass, d);
    StartStep(s, pass, e);
    StartStep(s, pass, d);
    if d < e {
      BucketsLength(s, pass, d + 1, e);
    } else {
      BucketsLength(s, pass, e + 1, d);
    }
  }

  lemma {:induction false} ScatteredBuckets(t: seq<SymFreq>, s: seq<SymFreq>, pass: nat, d: nat)
    requires Scattered(t, s, pass, |s|) && d <= 256
    ensures Start(s, pass, d) <= |t| && t[..Start(s, pass, d)] == Buckets(s, pass, d)
  {
    if d > 0 {
      ScatteredBuckets(t, s, pass, d - 1);
      assert s[..|s|] == s;
      var lo, hi := Start(s, pass, d - 1), Start(s, pass, d);
      StartStep(s, pass, d - 1);
      assert t[lo..hi] == Bucket(s, pass, d - 1);
      assert t[..hi] == t[..lo] + t[lo..hi];
    }
  }

  lemma ScatteredAll(t: seq<SymFreq>, s: seq<SymFreq>, pass: nat)
    requires Scattered(t, s, pass, |s|)
    ensures t == Pass(s, pass)
  {
    ScatteredBuckets(t, s, pass, 256);
    PassPermutes(s, pass);
    assert t[..|t|] == t;
  }

  /** Half of the histogram: bucket sizes for one digit. */
  ghost predicate HistOk(h: seq<nat>, s: seq<SymFreq>, pass: nat) {
    |h| == 512 && pass <= 1 && forall d: nat :: d < 256 ==> h[256 * pass + d] == |Bucket(s, pass, d)|
  }

  lemma HistStep(h: seq<nat>, s: seq<SymFreq>, k: nat, pass: nat)
    requires k < |s| && HistOk(h, s[..k], pass)
    ensures
      var lo, hi := Digit(s[k], 0), Digit(s[k], 1);
      var g := h[lo := h[lo] + 1];
      HistOk(g[256 + hi := g[256 + hi] + 1], s[..k + 1], pass)
  {
    var lo, hi := Digit(s[k], 0), Digit(s[k], 1);
    var g := h[lo := h[lo] + 1];
    var f := g[256 + hi := g[256 + hi] + 1];
    var t := s[..k + 1];
    forall d: nat | d < 256 ensures f[256 * pass + d] == |Bucket(t, pass, d)| {
      BucketGrows(s, k, pass, d);
      assert h[256 * pass + d] == |Bucket(s[..k], pass, d)|;
      if pass == 0 {
        assert f[d] == h[d] + if d == lo then 1 else 0;
      } else {
        assert f[256 + d] == h[256 + d] + if d == hi then 1 else 0;
      }
    }
  }

  method Histogram(syms: array<SymFreq>) returns (hist: array<nat>)
    ensures fresh(hist) && hist.Length == 512
    ensures HistOk(hist[..], syms[..], 0) && HistOk(hist[..], syms[..], 1)
  {
    hist := new nat[512](i => 0);
    ghost var s := syms[..];
    assert s[..0] == [];
    for i := 0 to syms.Length
      invariant HistOk(hist[..], s[..i], 0) && HistOk(hist[..], s[..i], 1)
    {
      ghost var h := hist[..];
      var lo, hi := Digit(syms[i], 0), Digit(syms[i], 1);
      HistStep(h, s, i, 0);
      HistStep(h, s, i, 1);
      hist[lo] := hist[lo] + 1;
      hist[256 + hi] := hist[256 + hi] + 1;
      assert hist[..] == h[lo := h[lo] + 1][256 + hi := h[lo := h[lo] + 1][256 + hi] + 1];
    }
    assert s[..syms.Length] == s;
  }

  /** Where the next element of each bucket goes once the first `k` elements are placed. */
  ghost predicate OffsetsOk(f: seq<nat>, s: seq<SymFreq>, pass: nat, k: nat) {
    |f| == 256 && k <= |s|
    && forall d: nat :: d < 256 ==> f[d] == Start(s, pass, d) + |Bucket(s[..k], pass, d)|
  }

  lemma OffsetsStep(f: seq<nat>, s: seq<SymFreq>, pass: nat, k: nat)
    requires k < |s| && OffsetsOk(f, s, pass, k)
    ensures
      var d := Digit(s[k], pass);
      OffsetsOk(f[d := f[d] + 1], s, pass, k + 1)
  {
    forall d: nat ensures |Bucket(s[..k + 1], pass, d)|
      == |Bucket(s[..k], pass, d)| + if Digit(s[k], pass) == d then 1 else 0 {
      BucketGrows(s, k, pass, d);
    }
  }

  /** The running starts of the buckets. */
  method Offsets(hist: array<nat>, pass: nat, ghost s: seq<SymFreq>) returns (offsets: array<nat>)
    requires hist.Length == 512 && HistOk(hist[..], s, pass)
    ensures fresh(offsets) && offsets.Length == 256 && OffsetsOk(offsets[..], s, pass, 0)
  {
    offsets := new nat[256];
    var ofs: nat := 0;
    for i := 0 to 256
      invariant ofs == Start(s, pass, i)
      invariant forall d :: 0 <= d < i ==> offsets[d] == Start(s, pass, d)
    {
      offsets[i] := ofs;
      StartStep(s, pass, i);
      assert hist[..][256 * pass + i] == |Bucket(s, pass, i)|;
      ofs := ofs + hist[256 * pass + i];
    }
    assert s[..0] == [];
  }

  lemma NothingScattered(t: seq<SymFreq>, s: seq<SymFreq>, pass: nat)
    requires |t| == |s|
    ensures Scattered(t, s, pass, 0)
  {
    forall d: nat | d < 256 ensures Start(s, pass, d) <= |t| {
      PassPermutes(s, pass);
      BucketsLength(s, pass, d, 256);
    }
  }

  /** One stable pass from `cur` to `out`. */
  method CountingPass(cur: array<SymFreq>, out: array<SymFreq>, hist: array<nat>, pass: nat)
    requires cur != out && cur.Length == out.Length && hist.Length == 512 && pass <= 1
    requires HistOk(hist[..], cur[..], pass)
    modifies out
    ensures out[..] == Pass(cur[..], pass)
  {
    hide Scattered, Bucket, Buckets;
    ghost var s := cur[..];
    var offsets := Offsets(hist, pass, s);
    NothingScattered(out[..], s, pass);
    for i := 0 to cur.Length
      invariant cur[..] == s
      invariant OffsetsOk(offsets[..], s, pass, i)
      invariant Scattered(out[..], s, pass, i)
    {
      ghost var o, f := out[..], offsets[..];
      var d := Digit(cur[i], pass);
      ScatterStep(o, s, pass, i);
      OffsetsStep(f, s, pass, i);
      assert f[d] == Start(s, pass, d) + |Bucket(s[..i], pass, d)|;
      out[offsets[d]] := cur[i];
      assert out[..] == o[f[d] := s[i]];
      offsets[d] := offsets[d] + 1;
      assert offsets[..] == f[d := f[d] + 1];
    }
    assert s[..cur.Length] == s;
    ScatteredAll(out[..], s, pass);
  }

  /** If every element is in the first high-digit bucket, no key reaches 256. */
  lemma {:induction false} AllInOneBucket(s: seq<SymFreq>, pass: nat, d: nat)
    requires |Bucket(s, pass, d)| == |s|
    ensures forall x :: x in s ==> Digit(x, pass) == d
  {
    BucketAtMost(s, pass, d);
    if s != [] {
      BucketAtMost(s[..|s| - 1], pass, d);
      AllInOneBucket(s[..|s| - 1], pass, d);
    }
  }

  lemma {:induction false} BucketAtMost(s: seq<SymFreq>, pass: nat, d: nat)
    ensures |Bucket(s, pass, d)| <= |s|
  {
    if s != [] { BucketAtMost(s[..|s| - 1], pass, d); }
  }

  lemma {:induction false} BucketCount(s: seq<SymFreq>, pass: nat, d: nat, x: SymFreq)
    ensures multiset(Bucket(s, pass, d))[x] == if Digit(x, pass) == d then multiset(s)[x] else 0
  {
    if s != [] {
      BucketCount(s[..|s| - 1], pass, d, x);
      assert s == s[..|s| - 1] + [s[|s| - 1]];
    }
  }

  /** Bucket sizes do not depend on the order of the elements, so one histogram serves both passes. */
  lemma HistPermuted(h: seq<nat>, a: seq<SymFreq>, b: seq<SymFreq>, pass: nat)
    requires multiset(a) == multiset(b) && HistOk(h, a, pass)
    ensures HistOk(h, b, pass)
  {
    forall d: nat | d < 256 ensures |Bucket(a, pass, d)| == |Bucket(b, pass, d)| {
      forall x: SymFreq ensures multiset(Bucket(a, pass, d))[x] == multiset(Bucket(b, pass, d))[x] {
        BucketCount(a, pass, d, x);
        BucketCount(b, pass, d, x);
      }
      assert multiset(Bucket(a, pass, d)) == multiset(Bucket(b, pass, d));
      assert |multiset(Bucket(a, pass, d))| == |multiset(Bucket(b, pass, d))|;
    }
  }

  /** The array after `pass` passes. */
  function AfterPasses(s: seq<SymFreq>, pass: nat): seq<SymFreq> {
    if pass == 0 then s else Pass(AfterPasses(s, pass - 1), pass - 1)
  }

  lemma SortedAfter(s: seq<SymFreq>, passes: nat)
    requires forall x :: x in s ==> x.key < 65536
    requires passes == 2 || (passes == 1 && |Bucket(s, 1, 0)| == |s|)
    ensures SortedKeys(AfterPasses(s, passes)) && multiset(AfterPasses(s, passes)) == multiset(s)
  {
    assert AfterPasses(s, 0) == s && AfterPasses(s, 1) == Pass(s, 0);
    if passes == 2 {
      assert AfterPasses(s, 2) == Pass(Pass(s, 0), 1);
      TwoPassesSort(s);
    } else {
      AllInOneBucket(s, 1, 0);
      OnePassSorts(s);
    }
  }

  /** `tdefl_radix_sort_syms`: the result is whichever of the two arrays was written last. */
  method RadixSortSyms(syms0: array<SymFreq>, syms1: array<SymFreq>) returns (sorted: array<SymFreq>)
    requires syms0 != syms1 && syms0.Length == syms1.Length
    requires forall x :: x in syms0[..] ==> x.key < 65536
    modifies syms0, syms1
    ensures sorted == syms0 || sorted == syms1
    ensures SortedKeys(sorted[..]) && multiset(sorted[..]) == multiset(old(syms0[..]))
  {
    hide Pass, Bucket;
    ghost var s := syms0[..];
    var hist := Histogram(syms0);
    var totalPasses := 2;
    assert hist[..][256 * 1 + 0] == |Bucket(s, 1, 0)|;
    while totalPasses > 1 && syms0.Length == hist[(totalPasses - 1) * 256]
      invariant 1 <= totalPasses <= 2
      invariant totalPasses == 1 ==> hist[256] == syms0.Length
    {
      totalPasses := totalPasses - 1;
    }
    var cur, out := syms0, syms1;
    for pass := 0 to totalPasses
      invariant (cur == syms0 && out == syms1) || (cur == syms1 && out == syms0)
      invariant cur[..] == AfterPasses(s, pass)
      invariant HistOk(hist[..], s, 0) && HistOk(hist[..], s, 1)
    {
      if pass == 1 {
        PassPermutes(s, 0);
        assert AfterPasses(s, 1) == Pass(s, 0);
        HistPermuted(hist[..], s, Pass(s, 0), 1);
      }
      CountingPass(cur, out, hist, pass);
      cur, out := out, cur;
    }
    SortedAfter(s, totalPasses);
    return cur;
  }
}
