/** Limiting code lengths (`tdefl_huffman_enforce_max_code_size`), on the histogram of lengths. */
module LengthLimit {
  import opened Bits
  import opened Canonical

  const MAX_SUPPORTED: nat := 32

  /** Unused words of length `l` when `h[i]` codes have length `i`. */
  function FreeOf(h: seq<int>, l: nat): int
    requires l < |h|
  {
    if l == 0 then 1 else 2 * FreeOf(h, l - 1) - h[l]
  }

  function SumTo(h: seq<int>, l: nat): int
    requires l < |h|
  {
    if l == 0 then 0 else SumTo(h, l - 1) + h[l]
  }

  /** The Kraft sum of the lengths `i` to `max`, scaled by `Pow2(max)`. */
  function ScaledFrom(h: seq<int>, max: nat, i: nat): int
    requires 1 <= i <= max + 1 && max < |h|
    decreases max + 1 - i
  {
    if i > max then 0 else ScaledFrom(h, max, i + 1) + h[i] * Pow2(max - i)
  }

  ghost predicate NonNegative(h: seq<int>) {
    forall i :: 0 <= i < |h| ==> h[i] >= 0
  }

  /** A histogram of `n` codes that use up all words of length `limit` exactly. */
  ghost predicate CompleteHistogram(h: seq<int>, n: int, limit: nat)
    requires limit < |h|
  {
    && (forall i :: 0 <= i <= limit ==> h[i] >= 0)
    && SumTo(h, limit) == n
    && FreeOf(h, limit) == 0
  }

  lemma FoldScaled(f: int, g: int, c: int, p: int)
    requires g == 2 * f - c
    ensures f * (2 * p) == g * p + c * p
  {
    assert g * p == (2 * f) * p - c * p;
  }

  lemma {:induction false} ScaledFree(h: seq<int>, max: nat, i: nat)
    requires 1 <= i <= max + 1 && max < |h|
    ensures FreeOf(h, i - 1) * Pow2(max + 1 - i) - ScaledFrom(h, max, i) == FreeOf(h, max)
    decreases max + 1 - i
  {
    if i <= max {
      ScaledFree(h, max, i + 1);
      assert Pow2(max + 1 - i) == 2 * Pow2(max - i);
      FoldScaled(FreeOf(h, i - 1), FreeOf(h, i), h[i], Pow2(max - i));
    }
  }

  lemma {:induction false} FreeSame(h: seq<int>, g: seq<int>, l: nat, m: nat)
    requires l <= m < |h| && m < |g| && FreeOf(h, l) == FreeOf(g, l)
    requires forall i :: l < i <= m ==> h[i] == g[i]
    ensures FreeOf(h, m) == FreeOf(g, m)
    decreases m
  {
    if l < m { FreeSame(h, g, l, m - 1); }
  }

  lemma {:induction false} SumSame(h: seq<int>, g: seq<int>, l: nat, m: nat)
    requires l <= m < |h| && m < |g|
    requires forall i :: l < i <= m ==> h[i] == g[i]
    ensures SumTo(h, m) - SumTo(h, l) == SumTo(g, m) - SumTo(g, l)
    decreases m
  {
    if l < m { SumSame(h, g, l, m - 1); }
  }

  /** Changing one entry. */
  lemma SumUpdate(h: seq<int>, i: nat, v: int, m: nat)
    requires 1 <= i <= m < |h|
    ensures SumTo(h[i := v], m) == SumTo(h, m) - h[i] + v
  {
    SumSame(h, h[i := v], 0, i - 1);
    SumSame(h, h[i := v], i, m);
  }

  lemma {:induction false} FreeOfCounts(h: seq<int>, lens: seq<nat>, l: nat)
    requires l < |h| && forall i :: 1 <= i <= l ==> h[i] == Count(lens, i)
    ensures FreeOf(h, l) == Free(lens, l) && SumTo(h, l) == Used(lens, l)
  {
    if l > 0 { FreeOfCounts(h, lens, l - 1); }
  }

  /** Words still free at length `l` are used up by longer codes, each of at least one. */
  lemma {:induction false} FreeBelowSum(h: seq<int>, l: nat, m: nat)
    requires l <= m < |h| && NonNegative(h) && FreeOf(h, m) == 0
    ensures 0 <= FreeOf(h, l) <= SumTo(h, m) - SumTo(h, l)
    decreases m - l
  {
    if l < m { FreeBelowSum(h, l + 1, m); }
  }

  /** When all codes have length `max` (or 0) they leave `Pow2(max) - n` words free. */
  lemma {:induction false} FreeOfEmpty(h: seq<int>, l: nat)
    requires l < |h| && forall i :: 1 <= i <= l ==> h[i] == 0
    ensures FreeOf(h, l) == Pow2(l) && SumTo(h, l) == 0
  {
    if l > 0 { FreeOfEmpty(h, l - 1); }
  }

  /** One round: a longest code becomes a sibling of a split shorter one. */
  function Rebalanced(h: seq<int>, i: nat, max: nat): seq<int>
    requires 1 <= i < max < |h|
  {
    var a := h[max := h[max] - 1];
    var b := a[i := a[i] - 1];
    b[i + 1 := b[i + 1] + 2]
  }

  lemma RebalancedFree(h: seq<int>, i: nat, max: nat)
    requires 1 <= i < max < |h|
    ensures FreeOf(Rebalanced(h, i, max), max) == FreeOf(h, max) + 1
    ensures SumTo(Rebalanced(h, i, max), max) == SumTo(h, max)
  {
    var g := Rebalanced(h, i, max);
    FreeSame(h, g, 0, i - 1);
    assert FreeOf(g, i) == FreeOf(h, i) + 1;
    if i + 1 < max {
      FreeSame(h, g, i + 1, max - 1);
    }
    var a := h[max := h[max] - 1];
    var b := a[i := a[i] - 1];
    SumUpdate(h, max, h[max] - 1, max);
    SumUpdate(a, i, a[i] - 1, max);
    SumUpdate(b, i + 1, b[i + 1] + 2, max);
  }

  /** Folding the lengths above `max` into `max` overfills the code by less than `h[max]`. */
  lemma FoldedGap(h: seq<int>, g: seq<int>, max: nat)
    requires |h| == |g| == MAX_SUPPORTED + 1 && 1 <= max <= MAX_SUPPORTED && NonNegative(h)
    requires FreeOf(h, MAX_SUPPORTED) == 0
    requires g == h[max := h[max] + SumTo(h, MAX_SUPPORTED) - SumTo(h, max)]
    ensures SumTo(g, max) == SumTo(h, MAX_SUPPORTED) && g[max] >= h[max]
    ensures FreeOf(g, max) <= 0 && (FreeOf(g, max) < 0 ==> -FreeOf(g, max) < g[max])
  {
    FreeBelowSum(h, max, MAX_SUPPORTED);
    SumUpdate(h, max, g[max], max);
    FreeSame(h, g, 0, max - 1);
    if FreeOf(h, max) == 0 {
      AllUsed(h, max, MAX_SUPPORTED);
    }
  }

  lemma {:induction false} AllUsed(h: seq<int>, l: nat, m: nat)
    requires l <= m < |h| && NonNegative(h) && FreeOf(h, m) == 0 && FreeOf(h, l) == 0
    ensures SumTo(h, m) == SumTo(h, l)
    decreases m - l
  {
    if l < m {
      FreeBelowSum(h, l + 1, m);
      AllUsed(h, l + 1, m);
    }
  }

  /** What holds throughout the rebalancing of a histogram that started as `h`. */
  ghost predicate Overfull(g: seq<int>, h: seq<int>, n: int, max: nat) {
    && |g| == |h| == MAX_SUPPORTED + 1 && 1 <= max < MAX_SUPPORTED
    && (forall i :: 0 <= i <= max ==> g[i] >= 0)
    && (forall i :: max < i < |g| ==> g[i] == h[i])
    && g[0] == h[0]
    && SumTo(g, max) == n
    && FreeOf(g, max) <= 0
    && (FreeOf(g, max) < 0 ==> -FreeOf(g, max) < g[max])
  }

  lemma ShorterCodeExists(g: seq<int>, h: seq<int>, n: int, max: nat)
    requires Overfull(g, h, n, max) && n <= Pow2(max) && FreeOf(g, max) < 0
    ensures exists i :: 1 <= i < max && g[i] != 0
  {
    if forall i :: 1 <= i < max ==> g[i] == 0 {
      FreeOfEmpty(g, max - 1);
    }
  }

  // ---- How far the limiter reaches

  lemma {:induction false} ScaledSame(h: seq<int>, g: seq<int>, max: nat, i: nat)
    requires 1 <= i <= max + 1 && max < |h| && max < |g| && forall l :: i <= l <= max ==> h[l] == g[l]
    ensures ScaledFrom(h, max, i) == ScaledFrom(g, max, i)
    decreases max + 1 - i
  {
    if i <= max { ScaledSame(h, g, max, i + 1); }
  }

  lemma {:induction false} ScaledUpdate(h: seq<int>, k: nat, v: int, max: nat, i: nat)
    requires 1 <= i <= k <= max < |h|
    ensures ScaledFrom(h[k := v], max, i) == ScaledFrom(h, max, i) + (v - h[k]) * Pow2(max - k)
    decreases k - i
  {
    if i < k {
      ScaledUpdate(h, k, v, max, i + 1);
    } else {
      ScaledSame(h, h[k := v], max, i + 1);
      assert v * Pow2(max - k) == h[k] * Pow2(max - k) + (v - h[k]) * Pow2(max - k);
    }
  }

  lemma {:induction false} ScaledEmpty(h: seq<int>, max: nat, i: nat)
    requires 1 <= i <= max < |h| && forall l :: i <= l < max ==> h[l] == 0
    ensures ScaledFrom(h, max, i) == h[max]
    decreases max - i
  {
    assert Pow2(0) == 1;
    if i < max {
      ScaledEmpty(h, max, i + 1);
    } else {
      assert ScaledFrom(h, max, max + 1) == 0;
    }
  }

  /** The counts of lengths below `c` are those of `h`; of the codes of length `c` some have been split,
      and what lies between `c` and `max` comes from the last one split. */
  ghost predicate Reaching(g: seq<int>, h: seq<int>, c: nat, max: nat) {
    && 1 <= c <= max < |g| && max < |h| && (forall l :: 1 <= l < c ==> g[l] == h[l])
    && (c < max ==> g[c] < h[c] && ScaledFrom(g, max, c + 1) <= Pow2(max - c) + g[max])
  }

  lemma RebalancedScaled(g: seq<int>, i: nat, max: nat, from: nat)
    requires 1 <= i < max < |g| && 1 <= from <= i + 1
    ensures
      var r := Rebalanced(g, i, max);
      ScaledFrom(r, max, from) - r[max]
      <= ScaledFrom(g, max, from) - g[max] + if from == i + 1 < max then Pow2(max - i) else 0
  {
    var a := g[max := g[max] - 1];
    var b := a[i := a[i] - 1];
    assert Pow2(max - i) == 2 * Pow2(max - (i + 1));
    assert Pow2(0) == 1;
    ScaledUpdate(g, max, g[max] - 1, max, from);
    if from <= i { ScaledUpdate(a, i, a[i] - 1, max, from); } else { ScaledSame(a, b, max, from); }
    ScaledUpdate(b, i + 1, b[i + 1] + 2, max, from);
  }

  /** One round splits a code of the cut's length or of the lengths beyond, or moves the cut down. */
  lemma RebalancedReach(g: seq<int>, h: seq<int>, c: nat, i: nat, max: nat)
    requires Reaching(g, h, c, max) && 1 <= i < max && (forall k :: i < k < max ==> g[k] == 0)
    ensures Reaching(Rebalanced(g, i, max), h, if i < c then i else c, max)
  {
    if i <= c {
      ScaledEmpty(g, max, i + 1);
      RebalancedScaled(g, i, max, i + 1);
    } else {
      RebalancedScaled(g, i, max, c + 1);
    }
  }

  lemma Halved(f: int, p: nat, s: int, n: nat)
    requires f * p == s <= p + n && f >= 2
    ensures s <= 2 * n
  {
    assert f * p == (f - 1) * p + p;
    assert (f - 1) * p == p + (f - 2) * p && (f - 2) * p >= 0;
  }

  /** Once the code is complete again, all codes from the cut on together take up few words. */
  lemma CutIsDeep(g: seq<int>, h: seq<int>, n: nat, c: nat, max: nat)
    requires Overfull(g, h, n, max) && FreeOf(g, max) == 0 && Reaching(g, h, c, max) && c < max
    requires NonNegative(h) && FreeOf(h, MAX_SUPPORTED) == 0 && SumTo(h, max) < SumTo(h, MAX_SUPPORTED)
    ensures ScaledFrom(g, max, c + 1) <= 2 * n
  {
    FreeBelowSum(h, c, MAX_SUPPORTED);
    if FreeOf(h, c) == 0 {
      AllUsed(h, c, MAX_SUPPORTED);
      SumGrows(h, c, max);
    }
    FreeSame(g, h, 0, c - 1);
    ScaledFree(g, max, c + 1);
    SumGrows(g, 0, max - 1);
    Halved(FreeOf(g, c), Pow2(max - c), ScaledFrom(g, max, c + 1), n);
  }

  lemma {:induction false} SumGrows(h: seq<int>, l: nat, m: nat)
    requires l <= m < |h| && forall i :: 0 <= i <= m ==> h[i] >= 0
    ensures SumTo(h, l) <= SumTo(h, m)
    decreases m
  {
    if l < m { SumGrows(h, l, m - 1); }
  }

  /** One round of the limiter: the longest shorter code is split. */
  method Rebalance(num: array<int>, ghost h: seq<int>, n: int, max: nat, ghost c: nat) returns (ghost cut: nat)
    requires num.Length == MAX_SUPPORTED + 1 && Reaching(num[..], h, c, max)
    requires Overfull(num[..], h, n, max) && n <= Pow2(max) && FreeOf(num[..], max) < 0
    modifies num
    ensures Overfull(num[..], h, n, max)
    ensures FreeOf(num[..], max) == FreeOf(old(num[..]), max) + 1
    ensures Reaching(num[..], h, cut, max) && cut < max
  {
    hide Reaching;
    ghost var g := num[..];
    ShorterCodeExists(g, h, n, max);
    num[max] := num[max] - 1;
    var i := max - 1;
    while i > 0 && num[i] == 0
      invariant 0 <= i < max
      invariant forall k :: i < k < max ==> g[k] == 0
    {
      i := i - 1;
    }
    num[i] := num[i] - 1;
    num[i + 1] := num[i + 1] + 2;
    assert num[..] == Rebalanced(g, i, max);
    RebalancedFree(g, i, max);
    RebalancedReach(g, h, c, i, max);
    cut := if i < c then i else c;
  }

  method ScaledTotal(num: array<int>, max: nat) returns (total: int)
    requires num.Length == MAX_SUPPORTED + 1 && 1 <= max < MAX_SUPPORTED
    ensures total == Pow2(max) - FreeOf(num[..], max)
  {
    total := 0;
    var j := max;
    while j > 0
      invariant 0 <= j <= max
      invariant total == ScaledFrom(num[..], max, j + 1)
    {
      total := total + num[j] * Pow2(max - j);
      j := j - 1;
    }
    ScaledFree(num[..], max, 1);
  }

  /** The counts `g` are those of `h` below length `cut`, some of length `cut` are gone, and all codes beyond
      take up at most `2 * n` words of length `max`. */
  ghost predicate Confined(g: seq<int>, h: seq<int>, cut: nat, n: int, max: nat)
    requires max < |g| && max < |h|
  {
    && 1 <= cut <= max && (forall l :: 1 <= l < cut ==> g[l] == h[l])
    && (cut < max ==> g[cut] < h[cut] && ScaledFrom(g, max, cut + 1) <= 2 * n)
  }

  /** `tdefl_huffman_enforce_max_code_size`: no length stays above `max`, no code is gained or lost,
      the lengths still form a complete code, and only lengths close to the limit have changed. */
  method EnforceMaxCodeSize(num: array<int>, n: int, max: nat) returns (ghost cut: nat)
    requires num.Length == MAX_SUPPORTED + 1 && 1 <= max < MAX_SUPPORTED && n <= Pow2(max)
    requires n > 1 ==> CompleteHistogram(num[..], n, MAX_SUPPORTED)
    modifies num
    ensures n <= 1 ==> num[..] == old(num[..])
    ensures n > 1 ==> CompleteHistogram(num[..], n, max)
    ensures n > 1 && SumTo(old(num[..]), max) == n ==> num[..] == old(num[..])
    ensures num[0] == old(num[0]) && forall i :: max < i < num.Length ==> num[i] == old(num[i])
    ensures Confined(num[..], old(num[..]), cut, n, max)
  {
    cut := max;
    if n <= 1 {
      return;
    }
    ghost var h := num[..];
    for i := max + 1 to MAX_SUPPORTED + 1
      invariant num[..] == h[max := h[max] + SumTo(h, i - 1) - SumTo(h, max)]
    {
      num[max] := num[max] + num[i];
    }
    ghost var folded := num[..];
    FoldedGap(h, folded, max);
    var total := ScaledTotal(num, max);
    while total != Pow2(max)
      invariant Overfull(num[..], h, n, max)
      invariant total == Pow2(max) - FreeOf(num[..], max)
      invariant FreeOf(folded, max) == 0 ==> num[..] == folded
      invariant Reaching(num[..], h, cut, max) && (cut < max ==> FreeOf(folded, max) < 0)
      decreases total - Pow2(max)
    {
      cut := Rebalance(num, h, n, max, cut);
      total := total - 1;
    }
    if SumTo(h, max) == n {
      assert folded == h;
      FreeBelowSum(h, max, MAX_SUPPORTED);
    }
    if cut < max {
      SumGrows(h, max, MAX_SUPPORTED);
      CutIsDeep(num[..], h, n, cut, max);
    }
  }
}
