/** What limiting code lengths can cost: the limited code exceeds an optimal one by at most two bits in 352
    for every symbol in use. */
module LimitCost {
  import opened Bits
  import opened Canonical
  import opened Sums
  import opened Huffman
  import opened MinRedundancy
  import opened LengthLimit

  // ---- Sorted lengths are determined by how many there are of each

  ghost predicate Descending(s: seq<nat>) {
    (forall i, j :: 0 <= i <= j < |s| ==> s[i] >= s[j]) && forall i :: 0 <= i < |s| ==> s[i] >= 1
  }

  lemma {:induction false} UsedSplit(a: seq<nat>, b: seq<nat>, l: nat)
    ensures Used(a + b, l) == Used(a, l) + Used(b, l)
  {
    if l > 0 {
      UsedSplit(a, b, l - 1);
      CountSplit(a, b, l);
    }
  }

  /** Of descending lengths, those from `i` on are at most `v` exactly when that many are. */
  lemma UsedRank(s: seq<nat>, i: nat, v: nat)
    requires Descending(s) && i < |s|
    ensures s[i] <= v <==> Used(s, v) >= |s| - i
  {
    hide Used, Count;
    if s[i] <= v {
      UsedSplit(s[..i], s[i..], v);
      assert s[..i] + s[i..] == s;
      UsedAll(s[i..], v);
    } else {
      UsedSplit(s[..i + 1], s[i + 1..], v);
      assert s[..i + 1] + s[i + 1..] == s;
      UsedAbove(s[..i + 1], v);
      UsedBound(s[i + 1..], v);
    }
  }

  /** Where two descending lists have equally many entries below `c`, and the first at least as many at `c`,
      their entries up to `c` agree. */
  lemma SameRank(l: seq<nat>, r: seq<nat>, c: nat, i: nat)
    requires Descending(l) && Descending(r) && |l| == |r| && i < |r| && r[i] <= c
    requires (forall k :: 1 <= k < c ==> Count(l, k) == Count(r, k)) && Count(l, c) >= Count(r, c)
    ensures l[i] == r[i]
  {
    hide Used, Descending;
    var v := r[i];
    Positive(r, i);
    UsedRank(r, i, v);
    UsedRank(r, i, v - 1);
    UsedRank(l, i, v);
    UsedRank(l, i, v - 1);
    UsedSame(l, r, v - 1);
    UsedLast(l, r, v);
  }

  lemma Positive(s: seq<nat>, i: nat)
    requires Descending(s) && i < |s|
    ensures s[i] >= 1
  {
  }

  lemma UsedLast(l: seq<nat>, r: seq<nat>, v: nat)
    requires v >= 1 && Used(l, v - 1) == Used(r, v - 1) && Count(l, v) >= Count(r, v)
    ensures Used(l, v) >= Used(r, v)
  {
  }

  lemma {:induction false} UsedSame(l: seq<nat>, r: seq<nat>, k: nat)
    requires forall i :: 1 <= i <= k ==> Count(l, i) == Count(r, i)
    ensures Used(l, k) == Used(r, k)
  {
    if k > 0 { UsedSame(l, r, k - 1); }
  }

  // ---- The words beyond the cut

  /** The words of length 15 that lie below the codes `l` of those symbols whose length in `r` exceeds `c`. */
  function Beyond(l: seq<nat>, r: seq<nat>, c: nat): nat
    requires |l| == |r|
  {
    if l == [] then 0 else (if r[0] > c then Share(MAX_BITS, l[0]) else 0) + Beyond(l[1..], r[1..], c)
  }

  lemma {:induction false} BeyondSame(l: seq<nat>, r: seq<nat>, c: nat)
    requires |l| == |r| && forall i :: 0 <= i < |r| && r[i] <= c ==> l[i] == r[i]
    ensures Beyond(l, r, c) - Beyond(r, r, c) == Shares(l, MAX_BITS) - Shares(r, MAX_BITS)
  {
    hide Share;
    if l != [] { BeyondSame(l[1..], r[1..], c); }
  }

  lemma {:induction false} BeyondRest(r: seq<nat>, c: nat)
    requires c <= MAX_BITS
    ensures Beyond(r, r, c) + Pow2(MAX_BITS - c) * Shares(r, c) == Shares(r, MAX_BITS)
  {
    hide Share, Pow2;
    if r != [] {
      BeyondRest(r[1..], c);
      ShareScaled(r[0], c);
      MulSum(Pow2(MAX_BITS - c), Share(c, r[0]), Shares(r[1..], c));
    }
  }

  lemma ShareScaled(x: nat, c: nat)
    requires c <= MAX_BITS
    ensures Pow2(MAX_BITS - c) * Share(c, x) == if x > c then 0 else Share(MAX_BITS, x)
  {
    if x <= c { Pow2Add(MAX_BITS - c, c - x); }
  }

  lemma MulSum(p: nat, a: nat, b: nat)
    ensures p * (a + b) == p * a + p * b
  {
  }

  /** The codes beyond the cut take up few words. */
  lemma BeyondFew(l: seq<nat>, r: seq<nat>, g: seq<int>, n: nat, c: nat)
    requires |l| == |r| && Descending(l) && Descending(r) && Limited(l, 32)
    requires Free(l, 32) == 0 && Free(r, MAX_BITS) == 0 && 1 <= c < MAX_BITS < |g|
    requires (forall i :: 1 <= i <= MAX_BITS ==> g[i] == Count(r, i)) && ScaledFrom(g, MAX_BITS, c + 1) <= 2 * n
    requires forall i :: 0 <= i < |r| && r[i] <= c ==> l[i] == r[i]
    ensures Beyond(l, r, c) <= 2 * n
  {
    hide Beyond, Shares, Free, FreeOf, ScaledFrom, Pow2, Count, Limited;
    FreeBackward(l, MAX_BITS, 32);
    FreeIsShares(l, MAX_BITS);
    FreeIsShares(r, MAX_BITS);
    FreeIsShares(r, c);
    BeyondSame(l, r, c);
    BeyondRest(r, c);
    FreeOfCounts(g, r, c);
    FreeOfCounts(g, r, MAX_BITS);
    ScaledFree(g, MAX_BITS, c + 1);
    Pow2Add(MAX_BITS - c, c);
    var p := Pow2(MAX_BITS - c);
    assert p * Shares(r, c) == p * Pow2(c) - p * Free(r, c);
  }

  // ---- The price

  /** Fibonacci numbers against powers of two: what makes the price small. */
  lemma PriceTable(l: nat)
    requires 1 <= l <= 14
    ensures 352 * (MAX_BITS - l) <= Pow2(MAX_BITS - l) * Fib(l)
  {
    Pow2Table();
    assert Fib(4) == 3 && Fib(5) == 5;
    assert Fib(7) == 13 && Fib(8) == 21;
    assert Fib(10) == 55 && Fib(11) == 89;
    assert Fib(13) == 233 && Fib(14) == 377;
  }

  /** A symbol that weighs `w` of `total`, whose length goes from `x` up to `y`. */
  lemma SymbolPrice(w: nat, x: nat, y: nat, total: nat)
    requires w * Fib(x) <= total && 1 <= x && y <= MAX_BITS
    ensures 352 * (w * y) <= 352 * (w * x) + total * Share(MAX_BITS, x)
  {
    hide Fib, Pow2;
    if x <= 14 {
      var e, p := MAX_BITS - x, Pow2(MAX_BITS - x);
      PriceTable(x);
      Smaller(352 * e, p * Fib(x), w);
      Smaller(w * Fib(x), total, p);
      Smaller(y, MAX_BITS, w);
      assert 352 * (w * MAX_BITS) == 352 * (w * x) + (352 * e) * w;
      assert (p * Fib(x)) * w == (w * Fib(x)) * p;
      assert y * w == w * y && MAX_BITS * w == w * MAX_BITS;
    } else {
      Smaller(y, x, w);
      assert y * w == w * y && x * w == w * x;
    }
  }

  lemma {:induction false} LimitPrice(w: seq<nat>, l: seq<nat>, r: seq<nat>, c: nat, total: nat)
    requires |w| == |l| == |r| && Limited(r, MAX_BITS)
    requires forall i :: 0 <= i < |l| ==> l[i] >= 1 && w[i] * Fib(l[i]) <= total
    requires forall i :: 0 <= i < |r| && r[i] <= c ==> l[i] == r[i]
    ensures 352 * Cost(w, r) <= 352 * Cost(w, l) + total * Beyond(l, r, c)
  {
    hide Fib, Share;
    if w != [] {
      LimitPrice(w[1..], l[1..], r[1..], c, total);
      if r[0] > c {
        SymbolPrice(w[0], l[0], r[0], total);
      }
      MulSum(total, if r[0] > c then Share(MAX_BITS, l[0]) else 0, Beyond(l[1..], r[1..], c));
    }
  }

  lemma {:induction false} CostShorter(w: seq<nat>, l: seq<nat>, r: seq<nat>)
    requires |w| == |l| == |r| && forall i :: 0 <= i < |r| ==> r[i] <= l[i]
    ensures Cost(w, r) <= Cost(w, l)
  {
    if w != [] {
      CostShorter(w[1..], l[1..], r[1..]);
      Smaller(r[0], l[0], w[0]);
    }
  }

  /** The lengths `r` of the limited code cost hardly more than the lengths `l` it was made from. */
  lemma LimitedCost(w: seq<nat>, l: seq<nat>, r: seq<nat>, h: seq<int>, g: seq<int>, c: nat)
    requires |w| == |l| == |r| && Descending(l) && Descending(r) && Limited(l, 32) && Limited(r, MAX_BITS)
    requires Free(l, 32) == 0 && Free(r, MAX_BITS) == 0 && Light(w, l, 0)
    requires |h| == |g| == MAX_SUPPORTED + 1 && Confined(g, h, c, |w|, MAX_BITS)
    requires forall i :: 1 <= i <= MAX_BITS ==> g[i] == Count(r, i)
    requires forall i :: 1 <= i <= MAX_BITS ==> h[i] == Count(l, i)
    ensures 352 * Cost(w, r) <= 352 * Cost(w, l) + 2 * |w| * Sum(w)
  {
    hide Cost, Sum, Free, Descending, Limited, Light, ScaledFrom, Count;
    if c == MAX_BITS {
      NoneLonger(l, r);
      CostShorter(w, l, r);
    } else {
      SameUpTo(l, r, c);
      BeyondFew(l, r, g, |w|, c);
      LightLengths(w, l);
      LimitPrice(w, l, r, c, Sum(w));
      Smaller(Beyond(l, r, c), 2 * |w|, Sum(w));
    }
  }

  lemma LightLengths(w: seq<nat>, l: seq<nat>)
    requires |w| == |l| && Light(w, l, 0) && Descending(l)
    ensures forall i :: 0 <= i < |l| ==> l[i] >= 1 && w[i] * Fib(l[i]) <= Sum(w)
  {
    hide Sum, Fib;
  }

  lemma SameUpTo(l: seq<nat>, r: seq<nat>, c: nat)
    requires Descending(l) && Descending(r) && |l| == |r|
    requires (forall k :: 1 <= k < c ==> Count(l, k) == Count(r, k)) && Count(l, c) >= Count(r, c)
    ensures forall i :: 0 <= i < |r| && r[i] <= c ==> l[i] == r[i]
  {
    hide Descending, Count;
    forall i | 0 <= i < |r| && r[i] <= c ensures l[i] == r[i] { SameRank(l, r, c, i); }
  }

  /** When only lengths above the limit have changed, none has grown. */
  lemma NoneLonger(l: seq<nat>, r: seq<nat>)
    requires Descending(l) && Descending(r) && |l| == |r| && Limited(r, MAX_BITS)
    requires forall k :: 1 <= k < MAX_BITS ==> Count(l, k) == Count(r, k)
    ensures forall i :: 0 <= i < |r| ==> r[i] <= l[i]
  {
    SameUpTo(l, r, MAX_BITS - 1);
    hide Descending, Count;
    forall i | 0 <= i < |r| && r[i] >= MAX_BITS ensures l[i] >= MAX_BITS { AtLimit(l, r, i); }
  }

  /** A symbol at the limit had at least that length before. */
  lemma AtLimit(l: seq<nat>, r: seq<nat>, i: nat)
    requires Descending(l) && Descending(r) && |l| == |r| && i < |r| && r[i] >= MAX_BITS
    requires forall k :: 1 <= k < MAX_BITS ==> Count(l, k) == Count(r, k)
    ensures l[i] >= MAX_BITS
  {
    UsedRank(r, i, MAX_BITS - 1);
    UsedRank(l, i, MAX_BITS - 1);
    UsedSame(l, r, MAX_BITS - 1);
  }
}
