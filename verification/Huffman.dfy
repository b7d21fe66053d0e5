/** What no prefix code can beat: the cost of merging the two least weights until one is left, and the
    proof that it bounds the total weighted length of every code from below. */
module Huffman {
  import opened Arrays
  import opened Bits
  import opened Canonical
  import opened Sums

  /** The total weighted length. */
  function Cost(w: seq<nat>, l: seq<nat>): nat
    requires |w| == |l|
  {
    if w == [] then 0 else w[0] * l[0] + Cost(w[1..], l[1..])
  }

  ghost predicate Ascending(w: seq<nat>) {
    forall i, j :: 0 <= i <= j < |w| ==> w[i] <= w[j]
  }

  /** Lengths that some prefix code has: they respect the Kraft inequality. */
  ghost predicate Codable(l: seq<nat>) {
    (forall i :: 0 <= i < |l| ==> l[i] >= 1) && exists m: nat :: Limited(l, m) && Free(l, m) >= 0
  }

  ghost predicate Optimal(w: seq<nat>, l: seq<nat>) {
    |l| == |w| && forall v: seq<nat> :: |v| == |w| && Codable(v) ==> Cost(w, l) <= Cost(w, v)
  }

  // ---- The cost of merging

  ghost predicate IsLeast(s: multiset<nat>, a: nat) {
    a in s && forall x :: x in s ==> a <= x
  }

  ghost function Least(s: multiset<nat>): (a: nat)
    requires |s| > 0
    ensures IsLeast(s, a)
  {
    LeastExists(s);
    var a :| IsLeast(s, a);
    a
  }

  lemma Removal(s: multiset<nat>, y: nat)
    requires y in s
    ensures |s - multiset{y}| == |s| - 1 && s == s - multiset{y} + multiset{y}
  {
    assert s == s - multiset{y} + multiset{y};
  }

  lemma LeastAdd(t: multiset<nat>, y: nat, b: nat)
    requires t == multiset{} || IsLeast(t, b)
    ensures IsLeast(t + multiset{y}, if t == multiset{} || y <= b then y else b)
  {
  }

  lemma {:induction false} LeastExists(s: multiset<nat>)
    requires |s| > 0
    ensures exists a :: IsLeast(s, a)
    decreases |s|
  {
    hide IsLeast;
    var y :| y in s;
    var t := s - multiset{y};
    Removal(s, y);
    if |t| == 0 {
      assert t == multiset{};
      LeastAdd(t, y, y);
    } else {
      LeastExists(t);
      var b :| IsLeast(t, b);
      LeastAdd(t, y, b);
    }
  }

  /** The two least weights, and what is left once they are merged. */
  ghost function LeastPair(s: multiset<nat>): nat
    requires |s| >= 2
  {
    Removal(s, Least(s));
    Least(s) + Least(s - multiset{Least(s)})
  }

  ghost function AfterMerge(s: multiset<nat>): (t: multiset<nat>)
    requires |s| >= 2
    ensures |t| == |s| - 1
  {
    var a := Least(s);
    Removal(s, a);
    var b := Least(s - multiset{a});
    Removal(s - multiset{a}, b);
    s - multiset{a} - multiset{b} + multiset{a + b}
  }

  /** Merge the two least weights, at the cost of their sum, until one is left. */
  ghost function Merged(s: multiset<nat>): nat
    decreases |s|
  {
    if |s| < 2 then 0 else LeastPair(s) + Merged(AfterMerge(s))
  }

  lemma LeastIs(s: multiset<nat>, a: nat)
    requires IsLeast(s, a)
    ensures |s| > 0 && Least(s) == a
  {
    Removal(s, a);
  }

  lemma PairIs(s: multiset<nat>, a: nat, b: nat)
    requires IsLeast(s, a) && IsLeast(s - multiset{a}, b)
    ensures |s| >= 2 && LeastPair(s) == a + b
    ensures AfterMerge(s) == s - multiset{a} - multiset{b} + multiset{a + b}
  {
    hide IsLeast, Least;
    LeastIn(s, a);
    LeastIs(s, a);
    Removal(s, a);
    LeastIs(s - multiset{a}, b);
  }

  /** Whichever two least weights are taken. */
  lemma MergedStep(s: multiset<nat>, a: nat, b: nat)
    requires IsLeast(s, a) && IsLeast(s - multiset{a}, b)
    ensures |s| >= 2 && Merged(s) == a + b + Merged(s - multiset{a} - multiset{b} + multiset{a + b})
  {
    hide LeastPair, AfterMerge, IsLeast;
    PairIs(s, a, b);
  }

  lemma LeastIn(s: multiset<nat>, a: nat)
    requires IsLeast(s, a)
    ensures a in s
  {
  }

  lemma MergedOne(s: multiset<nat>)
    requires |s| < 2
    ensures Merged(s) == 0
  {
  }

  // ---- Kraft sums of lists

  function Share(m: nat, x: nat): nat { if x <= m then Pow2(m - x) else 0 }

  function Shares(l: seq<nat>, m: nat): nat {
    if l == [] then 0 else Share(m, l[0]) + Shares(l[1..], m)
  }

  lemma {:induction false} SharesDouble(l: seq<nat>, m: nat)
    requires Limited(l, m)
    ensures Shares(l, m + 1) == 2 * Shares(l, m)
  {
    if l != [] {
      assert Limited(l[1..], m);
      SharesDouble(l[1..], m);
    }
  }

  ghost predicate Kraft(l: seq<nat>, m: nat) {
    Limited(l, m) && Shares(l, m) <= Pow2(m)
  }

  /** The Kraft inequality does not depend on the scale. */
  lemma {:induction false} KraftDown(l: seq<nat>, m: nat, k: nat)
    requires Kraft(l, m) && k <= m && Limited(l, k)
    ensures Kraft(l, k)
    decreases m
  {
    if k < m {
      assert Limited(l, m - 1);
      SharesDouble(l, m - 1);
      KraftDown(l, m - 1, k);
    }
  }

  lemma {:induction false} FreeFirst(l: seq<nat>, x: nat, m: nat)
    requires x >= 1
    ensures Free([x] + l, m) == Free(l, m) - Share(m, x)
  {
    if m > 0 {
      FreeFirst(l, x, m - 1);
      CountSplit([x], l, m);
      assert [x][..0] == [];
      assert Count([x], m) == if x == m then 1 else 0;
    }
  }

  lemma {:induction false} FreeNothing(m: nat)
    ensures Free([], m) == Pow2(m)
  {
    if m > 0 { FreeNothing(m - 1); }
  }

  /** The free words are what the shares leave over. */
  lemma {:induction false} FreeIsShares(l: seq<nat>, m: nat)
    requires forall i :: 0 <= i < |l| ==> l[i] >= 1
    ensures Free(l, m) == Pow2(m) - Shares(l, m)
  {
    if l == [] {
      FreeNothing(m);
    } else {
      FreeIsShares(l[1..], m);
      FreeFirst(l[1..], l[0], m);
      assert [l[0]] + l[1..] == l;
    }
  }

  // ---- Changing a list of lengths

  lemma {:induction false} CostSet(w: seq<nat>, l: seq<nat>, k: nat, v: nat)
    requires |w| == |l| && k < |l|
    ensures Cost(w, l[k := v]) == Cost(w, l) - w[k] * l[k] + w[k] * v
  {
    if k > 0 {
      CostSet(w[1..], l[1..], k - 1, v);
      assert l[k := v][1..] == l[1..][k - 1 := v];
    } else {
      assert l[0 := v][1..] == l[1..];
    }
  }

  lemma {:induction false} SharesSet(l: seq<nat>, k: nat, v: nat, m: nat)
    requires k < |l|
    ensures Shares(l[k := v], m) == Shares(l, m) - Share(m, l[k]) + Share(m, v)
  {
    hide Share;
    if k > 0 {
      SharesSet(l[1..], k - 1, v, m);
      assert l[k := v][1..] == l[1..][k - 1 := v];
    } else {
      assert l[0 := v][1..] == l[1..];
    }
  }

  /** Giving the lighter of two weights the longer length costs no more. */
  lemma SwapCost(w: seq<nat>, l: seq<nat>, i: nat, k: nat, m: nat)
    requires |w| == |l| && i < |l| && k < |l| && w[i] <= w[k] && l[i] <= l[k]
    ensures Cost(w, Swapped(l, i, k)) <= Cost(w, l)
    ensures Shares(Swapped(l, i, k), m) == Shares(l, m) && Sum(Swapped(l, i, k)) == Sum(l)
  {
    hide Cost, Shares, Share, Sum;
    var t := l[i := l[k]];
    CostSet(w, l, i, l[k]);
    CostSet(w, t, k, l[i]);
    SharesSet(l, i, l[k], m);
    SharesSet(t, k, l[i], m);
    SumChange(l, i, l[k]);
    SumChange(t, k, l[i]);
    if i != k {
      Exchange(w[i], w[k], l[i], l[k]);
    }
  }

  lemma Exchange(a: nat, b: nat, x: nat, y: nat)
    requires a <= b && x <= y
    ensures a * y + b * x <= a * x + b * y
  {
    assert (b - a) * (y - x) == b * y - b * x - a * y + a * x;
  }

  lemma {:induction false} Longest(l: seq<nat>, from: nat) returns (k: nat)
    requires from < |l|
    ensures from <= k < |l| && forall i :: from <= i < |l| ==> l[i] <= l[k]
    decreases |l| - from
  {
    k := from;
    if from + 1 < |l| {
      var j := Longest(l, from + 1);
      if l[j] > l[from] { k := j; }
    }
  }

  /** The two longest lengths go to the two least weights. */
  lemma Arrange(w: seq<nat>, l: seq<nat>, m: nat) returns (r: seq<nat>)
    requires |w| == |l| >= 2 && Ascending(w) && Kraft(l, m)
    ensures |r| == |l| && Cost(w, r) <= Cost(w, l) && Kraft(r, m) && Sum(r) == Sum(l)
    ensures r[0] >= r[1] && forall i :: 1 <= i < |r| ==> r[i] <= r[1]
  {
    hide Cost, Shares, Sum;
    var k := Longest(l, 0);
    SwapCost(w, l, 0, k, m);
    var t := Swapped(l, 0, k);
    var j := Longest(t, 1);
    SwapCost(w, t, 1, j, m);
    r := Swapped(t, 1, j);
  }

  // ---- Inserting a merged weight

  function Insert(w: seq<nat>, x: nat): (r: seq<nat>)
    ensures |r| == |w| + 1
  {
    if w == [] || x <= w[0] then [x] + w else [w[0]] + Insert(w[1..], x)
  }

  /** The same place in a parallel list. */
  function InsertBeside(w: seq<nat>, l: seq<nat>, x: nat, y: nat): (r: seq<nat>)
    requires |w| == |l|
    ensures |r| == |l| + 1
  {
    if w == [] || x <= w[0] then [y] + l else [l[0]] + InsertBeside(w[1..], l[1..], x, y)
  }

  lemma {:induction false} InsertKeeps(w: seq<nat>, x: nat)
    requires Ascending(w)
    ensures Ascending(Insert(w, x)) && multiset(Insert(w, x)) == multiset(w) + multiset{x}
    ensures forall y :: y in Insert(w, x) ==> y == x || y in w
  {
    if w != [] && x > w[0] {
      var u, r := w[1..], Insert(w[1..], x);
      InsertKeeps(u, x);
      assert w == [w[0]] + u;
      hide Insert;
      forall y | y in r ensures w[0] <= y {
        if y != x { assert y in u; }
      }
      AscendingPush(w[0], r);
    } else {
      AscendingPush(x, w);
    }
  }

  lemma AscendingPush(x: nat, w: seq<nat>)
    requires Ascending(w) && forall y :: y in w ==> x <= y
    ensures Ascending([x] + w) && multiset([x] + w) == multiset(w) + multiset{x}
  {
    forall i | 0 <= i < |w| ensures x <= w[i] {
      assert w[i] in w;
    }
  }

  lemma {:induction false} InsertCost(w: seq<nat>, l: seq<nat>, x: nat, y: nat, m: nat)
    requires |w| == |l| && Limited(l, m) && y <= m
    ensures Cost(Insert(w, x), InsertBeside(w, l, x, y)) == x * y + Cost(w, l)
    ensures Shares(InsertBeside(w, l, x, y), m) == Share(m, y) + Shares(l, m)
    ensures Limited(InsertBeside(w, l, x, y), m)
  {
    hide Share;
    if w == [] || x <= w[0] {
      assert ([x] + w)[1..] == w && ([y] + l)[1..] == l;
    } else {
      InsertCost(w[1..], l[1..], x, y, m);
      var a, b := Insert(w[1..], x), InsertBeside(w[1..], l[1..], x, y);
      assert ([w[0]] + a)[1..] == a && ([l[0]] + b)[1..] == b;
    }
  }

  // ---- The lower bound

  /** A length longer than all others can be shortened. */
  lemma Shorten(l: seq<nat>, m: nat)
    requires |l| >= 1 && Kraft(l, m) && l[0] >= 1 && forall i :: 1 <= i < |l| ==> l[i] < l[0]
    ensures Kraft(l[0 := l[0] - 1], l[0] - 1)
  {
    var k := l[0];
    KraftDown(l, m, k);
    var rest := l[1..];
    assert Limited(rest, k - 1);
    SharesDouble(rest, k - 1);
    var r := l[0 := k - 1];
    assert r[1..] == rest;
    assert Pow2(0) == 1;
  }

  /** Two equal longest lengths make room for one that is shorter by one. */
  lemma Sibling(l: seq<nat>, m: nat)
    requires |l| >= 2 && Kraft(l, m) && l[0] == l[1]
    ensures l[0] >= 1 && Limited(l[2..], m)
    ensures Share(m, l[0] - 1) + Shares(l[2..], m) == Shares(l, m)
  {
    assert l[1..][1..] == l[2..];
    assert Shares(l, m) == Share(m, l[0]) + (Share(m, l[1]) + Shares(l[2..], m));
    assert l[0] <= m;
  }

  lemma Distribute(a: nat, b: nat, x: nat)
    requires x >= 1
    ensures a * x + b * x == a + b + (a + b) * (x - 1)
  {
    assert a * x == a * (x - 1) + a && b * x == b * (x - 1) + b;
    assert (a + b) * (x - 1) == a * (x - 1) + b * (x - 1);
  }

  lemma CostTwo(w: seq<nat>, l: seq<nat>)
    requires |w| == |l| >= 2 && l[0] == l[1] >= 1
    ensures Cost(w, l) == w[0] + w[1] + ((w[0] + w[1]) * (l[0] - 1) + Cost(w[2..], l[2..]))
  {
    assert w[1..][1..] == w[2..] && l[1..][1..] == l[2..];
    assert Cost(w, l) == w[0] * l[0] + Cost(w[1..], l[1..]);
    assert Cost(w[1..], l[1..]) == w[1] * l[1] + Cost(w[2..], l[2..]);
    hide Cost;
    Distribute(w[0], w[1], l[0]);
  }

  lemma PlusMinus(t: multiset<nat>, a: nat)
    ensures t + multiset{a} - multiset{a} == t
  {
  }

  lemma MergedAdd(s: multiset<nat>, u: multiset<nat>, t: multiset<nat>, a: nat, b: nat, r: multiset<nat>)
    requires s == u + multiset{a} && u == t + multiset{b} && r == t + multiset{a + b}
    requires IsLeast(s, a) && IsLeast(u, b)
    ensures Merged(s) == a + b + Merged(r)
  {
    hide Merged, IsLeast;
    PlusMinus(u, a);
    PlusMinus(t, b);
    MergedStep(s, a, b);
  }

  lemma MergedInsert(s: multiset<nat>, v: multiset<nat>, u: seq<nat>, a: nat, b: nat)
    requires s == v + multiset{a} && v == multiset(u) + multiset{b} && Ascending(u)
    requires IsLeast(s, a) && IsLeast(v, b)
    ensures Merged(s) == a + b + Merged(multiset(Insert(u, a + b)))
  {
    hide Merged, Insert, IsLeast, Ascending;
    InsertKeeps(u, a + b);
    MergedAdd(s, v, multiset(u), a, b, multiset(Insert(u, a + b)));
  }

  lemma FirstTwo(w: seq<nat>)
    requires |w| >= 2 && Ascending(w)
    ensures Ascending(w[2..])
    ensures Merged(multiset(w)) == w[0] + w[1] + Merged(multiset(Insert(w[2..], w[0] + w[1])))
  {
    hide Merged, Insert, IsLeast, Ascending;
    LeastTwo(w);
    AscendingTail(w);
    MergedInsert(multiset(w), multiset(w[1..]), w[2..], w[0], w[1]);
  }

  lemma FrontTwo(w: seq<nat>)
    requires |w| >= 2
    ensures multiset(w[1..]) == multiset(w[2..]) + multiset{w[1]}
    ensures multiset(w) == multiset(w[1..]) + multiset{w[0]}
  {
    assert w == [w[0]] + w[1..] && w[1..] == [w[1]] + w[2..];
  }

  lemma LeastTwo(w: seq<nat>)
    requires |w| >= 2 && Ascending(w)
    ensures IsLeast(multiset(w), w[0]) && IsLeast(multiset(w[1..]), w[1])
    ensures multiset(w[1..]) == multiset(w[2..]) + multiset{w[1]}
    ensures multiset(w) == multiset(w[1..]) + multiset{w[0]}
  {
    hide IsLeast;
    FrontTwo(w);
    LeastFirst(w);
    LeastFirst(w[1..]);
  }

  lemma AscendingTail(w: seq<nat>)
    requires |w| >= 2 && Ascending(w)
    ensures Ascending(w[2..])
  {
  }

  lemma LeastFirst(w: seq<nat>)
    requires |w| >= 1 && Ascending(w)
    ensures IsLeast(multiset(w), w[0]) && Ascending(w[1..])
  {
    forall x | x in multiset(w) ensures w[0] <= x {
      assert x in w;
    }
  }

  lemma ShortenCost(w: seq<nat>, r: seq<nat>)
    requires |w| == |r| >= 1 && r[0] >= 1
    ensures Cost(w, r[0 := r[0] - 1]) <= Cost(w, r) && Sum(r[0 := r[0] - 1]) < Sum(r)
  {
    hide Cost, Sum;
    CostSet(w, r, 0, r[0] - 1);
    SumChange(r, 0, r[0] - 1);
    assert w[0] * (r[0] - 1) == w[0] * r[0] - w[0];
  }

  /** No code has a smaller total weighted length than merging costs. */
  lemma {:induction false} LowerBound(w: seq<nat>, l: seq<nat>, m: nat)
    requires |w| == |l| >= 1 && Ascending(w) && Kraft(l, m)
    ensures Merged(multiset(w)) <= Cost(w, l)
    decreases |w|, Sum(l)
  {
    hide Cost, Shares, Share, Sum, Merged, Insert, InsertBeside;
    if |w| == 1 {
      MergedOne(multiset(w));
    } else {
      var r := Arrange(w, l, m);
      if r[0] > r[1] {
        Shorten(r, m);
        ShortenCost(w, r);
        LowerBound(w, r[0 := r[0] - 1], r[0] - 1);
      } else {
        Sibling(r, m);
        CostTwo(w, r);
        FirstTwo(w);
        var x := w[0] + w[1];
        InsertKeeps(w[2..], x);
        InsertCost(w[2..], r[2..], x, r[0] - 1, m);
        LowerBound(Insert(w[2..], x), InsertBeside(w[2..], r[2..], x, r[0] - 1), m);
      }
    }
  }

  /** Lengths that cost no more than merging are optimal. */
  lemma OptimalIfMerged(w: seq<nat>, l: seq<nat>)
    requires |w| == |l| >= 1 && Ascending(w) && Cost(w, l) <= Merged(multiset(w))
    ensures Optimal(w, l)
  {
    forall v: seq<nat> | |v| == |w| && Codable(v) ensures Cost(w, l) <= Cost(w, v) {
      var m: nat :| Limited(v, m) && Free(v, m) >= 0;
      FreeIsShares(v, m);
      LowerBound(w, v, m);
    }
  }
}
