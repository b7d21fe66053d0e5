/** In-place minimum-redundancy code lengths (`tdefl_calculate_minimum_redundancy`, after Moffat and
    Katajainen): from sorted frequencies to code lengths, in the same array. */
module MinRedundancy {
  import opened Bits
  import opened Canonical
  import opened Sums
  import opened Huffman
  import opened MergeModel
  import opened MergeCost

  /** `tdefl_sym_freq`. */
  datatype SymFreq = SymFreq(key: nat, sym: nat)

  function Fib(n: nat): nat {
    if n < 2 then n else Fib(n - 1) + Fib(n - 2)
  }

  // ---- The merging phase in the array

  ghost predicate Holds(a: seq<SymFreq>, t: Merge, a0: seq<SymFreq>) {
    && |a| == |a0| == |t.w| && |t.p| <= |t.m| <= |t.w|
    && (forall i :: 0 <= i < |t.p| ==> a[i].key == t.p[i])
    && (forall i :: |t.p| <= i < |t.m| ==> a[i].key == t.m[i])
    && (forall i :: t.leaf <= i < |t.w| ==> a[i].key == t.w[i])
    && (forall i :: 0 <= i < |a| ==> a[i].sym == a0[i].sym)
  }

  function Keys(a: seq<SymFreq>): (ks: seq<nat>)
    ensures |ks| == |a|
  {
    seq(|a|, i requires 0 <= i < |a| => a[i].key)
  }

  function Syms(a: seq<SymFreq>): seq<nat> {
    seq(|a|, i requires 0 <= i < |a| => a[i].sym)
  }

  ghost predicate Frequencies(w: seq<nat>) {
    Ascending(w) && (forall i :: 0 <= i < |w| ==> w[i] >= 1) && Sum(w) <= 65535
  }

  /** Entry `n` receives `key`; if that consumed node `root`, its entry now holds its parent. */
  function Receive(s: seq<SymFreq>, n: nat, key: nat, node: bool, root: nat): seq<SymFreq>
    requires n < |s| && (node ==> root < |s|)
  {
    var r := s[n := s[n].(key := key)];
    if node then r[root := r[root].(key := n)] else r
  }

  lemma FirstReceive(s: seq<SymFreq>, t: Merge, a0: seq<SymFreq>)
    requires Holds(s, t, a0) && HasItem(t) && |t.p| < |t.m| < t.leaf <= |t.w|
    ensures |t.m| < |s| ==>
      var r := Receive(s, |t.m|, Taken(t), TakesNode(t, |t.m|), |t.p|);
      Holds(r, Take(t), a0) && r[|t.m|].key == Taken(t)
  {
  }

  lemma SecondReceive(s: seq<SymFreq>, u: Merge, x: nat, a0: seq<SymFreq>)
    requires Holds(s, u, a0) && HasItem(u) && |u.p| <= |u.m| < u.leaf <= |u.w| && |u.m| < |s|
    ensures
      var r := Receive(s, |u.m|, x + Taken(u), TakesNode(u, |u.m|), |u.p|);
      Holds(r, Take(u).(m := u.m + [x + Taken(u)]), a0)
  {
  }

  /** Copy the lighter front item into entry `next`. */
  method TakeFirst(a: array<SymFreq>, root0: nat, leaf0: nat, next: nat, ghost t: Merge, ghost a0: seq<SymFreq>)
    returns (root: nat, leaf: nat)
    requires Holds(a[..], t, a0) && root0 == |t.p| && leaf0 == t.leaf && next == |t.m| < a.Length
    requires HasItem(t) && |t.p| < |t.m| < t.leaf <= |t.w|
    modifies a
    ensures Holds(a[..], Take(t), a0) && root == |Take(t).p| && leaf == Take(t).leaf
    ensures a[next].key == Taken(t)
  {
    root, leaf := root0, leaf0;
    ghost var s := a[..];
    FirstReceive(s, t, a0);
    if leaf >= a.Length || a[root].key < a[leaf].key {
      a[next] := a[next].(key := a[root].key);
      a[root] := a[root].(key := next);
      assert a[..] == Receive(s, next, Taken(t), true, root);
      root := root + 1;
    } else {
      a[next] := a[next].(key := a[leaf].key);
      assert a[..] == Receive(s, next, Taken(t), false, root);
      leaf := leaf + 1;
    }
  }

  /** Add the lighter front item to entry `next`. */
  method TakeSecond(a: array<SymFreq>, root0: nat, leaf0: nat, next: nat, ghost u: Merge, ghost a0: seq<SymFreq>)
    returns (root: nat, leaf: nat)
    requires Holds(a[..], u, a0) && root0 == |u.p| && leaf0 == u.leaf && next == |u.m| < a.Length
    requires HasItem(u) && |u.p| <= |u.m| < u.leaf <= |u.w|
    requires a[next].key + Taken(u) <= 65535
    modifies a
    ensures Holds(a[..], Take(u).(m := u.m + [old(a[next].key) + Taken(u)]), a0)
    ensures root == |Take(u).p| && leaf == Take(u).leaf
  {
    root, leaf := root0, leaf0;
    ghost var s := a[..];
    SecondReceive(s, u, a[next].key, a0);
    if leaf >= a.Length || (root < next && a[root].key < a[leaf].key) {
      a[next] := a[next].(key := (a[next].key + a[root].key) % 65536);
      a[root] := a[root].(key := next);
      assert a[..] == Receive(s, next, s[next].key + Taken(u), true, root);
      root := root + 1;
    } else {
      a[next] := a[next].(key := (a[next].key + a[leaf].key) % 65536);
      assert a[..] == Receive(s, next, s[next].key + Taken(u), false, root);
      leaf := leaf + 1;
    }
  }

  /** One round of the merging loop. */
  method MergeTwo(a: array<SymFreq>, root0: nat, leaf0: nat, next: nat, ghost t: Merge, ghost hi: nat,
                  ghost a0: seq<SymFreq>)
    returns (root: nat, leaf: nat)
    requires Merging(t, hi) && |t.m| < |t.w| - 1 && Sum(t.w) <= 65535
    requires Holds(a[..], t, a0) && root0 == |t.p| && leaf0 == t.leaf && next == |t.m|
    modifies a
    ensures HasItem(t) && HasItem(Take(t))
    ensures Holds(a[..], Pair(t), a0) && root == |Pair(t).p| && leaf == Pair(t).leaf
  {
    PairMerging(t, hi);
    LastWeight(Pair(t));
    TakeParents(t);
    hide Merging, Weighed, Growing, Ordered, Shaped, Holds, Taken, TakesNode, HasItem;
    assert |t.p| < |t.m| < t.leaf <= |t.w| by { MergingIndices(t, hi); }
    root, leaf := TakeFirst(a, root0, leaf0, next, t, a0);
    root, leaf := TakeSecond(a, root, leaf, next, Take(t), a0);
  }

  lemma MergingIndices(t: Merge, hi: nat)
    requires Merging(t, hi)
    ensures |t.p| < |t.m| < t.leaf <= |t.w|
  {
  }

  lemma FirstHolds(s: seq<SymFreq>, w: seq<nat>)
    requires |s| >= 2 && w == Keys(s) && Frequencies(w)
    ensures (s[0].key + s[1].key) % 65536 == w[0] + w[1]
    ensures Holds(s[0 := s[0].(key := w[0] + w[1])], Merge(w, [w[0] + w[1]], [], 2), s)
  {
    hide Merging, Sum;
    FirstMerge(w);
  }

  lemma MergeStarts(s: seq<SymFreq>, w: seq<nat>)
    requires |s| >= 2 && w == Keys(s) && Frequencies(w)
    ensures (s[0].key + s[1].key) % 65536 == w[0] + w[1] && Sum(w) <= 65535
    ensures Holds(s[0 := s[0].(key := w[0] + w[1])], Merge(w, [w[0] + w[1]], [], 2), s)
    ensures Merging(Merge(w, [w[0] + w[1]], [], 2), w[1]) && Accounted(Merge(w, [w[0] + w[1]], [], 2))
  {
    hide Merging, Holds, Accounted, Sum, Keys;
    FirstHolds(s, w);
    FirstMerge(w);
    AccountStart(w);
  }

  /** The first loop: afterwards the array holds the parents of all nodes but the root. */
  method MergeAll(a: array<SymFreq>) returns (ghost t: Merge, ghost hi: nat)
    requires a.Length >= 2 && Frequencies(Keys(a[..]))
    modifies a
    ensures Merging(t, hi) && |t.m| == a.Length - 1 && t.w == Keys(old(a[..])) && Accounted(t)
    ensures Holds(a[..], t, old(a[..]))
  {
    hide Merging, Holds, Take, Taken, TakesNode, HasItem, Pair, Sum, Frequencies, Accounted;
    ghost var s, w := a[..], Keys(a[..]);
    MergeStarts(s, w);
    t, hi := Merge(w, [w[0] + w[1]], [], 2), w[1];
    a[0] := a[0].(key := (a[0].key + a[1].key) % 65536);
    assert a[..] == s[0 := s[0].(key := w[0] + w[1])];
    t, hi := MergeRest(a, t, hi, s);
  }

  method MergeRest(a: array<SymFreq>, ghost t0: Merge, ghost hi0: nat, ghost s: seq<SymFreq>)
    returns (ghost t: Merge, ghost hi: nat)
    requires Merging(t0, hi0) && Accounted(t0) && |t0.m| == 1 && t0.p == [] && t0.leaf == 2 && Sum(t0.w) <= 65535
    requires Holds(a[..], t0, s) && |t0.w| == a.Length >= 2
    modifies a
    ensures Merging(t, hi) && |t.m| == a.Length - 1 && t.w == t0.w && Accounted(t)
    ensures Holds(a[..], t, s)
  {
    hide Merging, Holds, Take, Taken, TakesNode, HasItem, Pair, Sum, Accounted;
    t, hi := t0, hi0;
    var root: nat, leaf: nat := 0, 2;
    var next := 1;
    while next < a.Length - 1
      invariant 1 <= next <= a.Length - 1
      invariant Merging(t, hi) && Accounted(t) && t.w == t0.w && |t.m| == next
      invariant root == |t.p| && leaf == t.leaf
      invariant Holds(a[..], t, s)
    {
      RoundKeeps(t, hi);
      root, leaf := MergeTwo(a, root, leaf, next, t, hi, s);
      hi, t := Taken(Take(t)), Pair(t);
      next := next + 1;
    }
  }

  // ---- Depths

  /** Distance from node `i` to the root, which is node `|p|`. */
  ghost function Depth(p: seq<nat>, i: nat): nat
    requires Shaped(p, |p| + 1) && i <= |p|
    decreases |p| - i
  {
    if i == |p| then 0 else 1 + Depth(p, p[i])
  }

  /** Later nodes are no deeper, and depths drop by at most one from node to node. */
  lemma {:induction false} DepthStep(p: seq<nat>, i: nat)
    requires Shaped(p, |p| + 1) && i < |p|
    ensures Depth(p, i + 1) <= Depth(p, i) <= Depth(p, i + 1) + 1
    decreases |p| - i, 0
  {
    if i + 1 < |p| {
      DepthMono(p, p[i], p[i + 1]);
    }
    DepthMono(p, i + 1, p[i]);
  }

  lemma {:induction false} DepthMono(p: seq<nat>, i: nat, j: nat)
    requires Shaped(p, |p| + 1) && i <= j <= |p|
    ensures Depth(p, i) >= Depth(p, j)
    decreases |p| - i, 1
  {
    if i < j {
      DepthMono(p, i + 1, j);
      DepthStep(p, i);
    }
  }

  /** The second loop: parents become depths. */
  method Depths(a: array<SymFreq>, ghost p: seq<nat>)
    requires |p| + 2 == a.Length && Shaped(p, |p| + 1)
    requires forall i :: 0 <= i < |p| ==> a[i].key == p[i]
    modifies a
    ensures forall i :: 0 <= i <= |p| ==> a[i].key == Depth(p, i)
    ensures Syms(a[..]) == Syms(old(a[..]))
  {
    var n := a.Length;
    a[n - 2] := a[n - 2].(key := 0);
    var next := n - 3;
    while next >= 0
      invariant -1 <= next <= n - 3
      invariant forall i :: 0 <= i <= next ==> a[i].key == p[i]
      invariant forall i :: next < i <= |p| ==> a[i].key == Depth(p, i)
      invariant Syms(a[..]) == Syms(old(a[..]))
    {
      a[next] := a[next].(key := a[a[next].key].key + 1);
      next := next - 1;
    }
  }

  /** Weights grow towards the root like Fibonacci numbers, from any unit `x`. */
  lemma {:induction false} FibPath(m: seq<nat>, p: seq<nat>, i: nat, k: nat, x: nat)
    requires |m| == |p| + 1 && Shaped(p, |p| + 1) && Growing(m, p) && i < |p|
    requires m[i] >= x * Fib(k) && m[p[i]] >= x * Fib(k + 1)
    ensures m[|p|] >= x * Fib(k + 1 + Depth(p, p[i]))
    decreases |p| - i
  {
    if p[i] < |p| {
      assert x * Fib(k + 2) == x * Fib(k + 1) + x * Fib(k);
      FibPath(m, p, p[i], k + 1, x);
    }
  }

  /** A node at depth `d` weighs at most one part in `Fib(d + 1)` of the whole. */
  lemma NodeShare(m: seq<nat>, p: seq<nat>, i: nat)
    requires |m| == |p| + 1 && Shaped(p, |p| + 1) && Growing(m, p) && i <= |p|
    ensures m[i] * Fib(Depth(p, i) + 1) <= m[|p|]
  {
    assert Fib(1) == 1 && Fib(2) == 1;
    if i < |p| { FibPath(m, p, i, 1, m[i]); }
  }

  /** The deepest node of a merge of total weight `s` lies at a depth with `Fib(depth + 3) <= s`. */
  lemma DepthFib(t: Merge, hi: nat)
    requires Merging(t, hi) && |t.m| == |t.p| + 1
    ensures Fib(Depth(t.p, 0) + 3) <= Sum(t.w)
  {
    LastWeight(t);
    if |t.p| > 0 {
      assert Fib(3) == 2 && Fib(4) == 3;
      FibPath(t.m, t.p, 0, 3, 1);
    }
  }

  lemma {:induction false} FibMono(a: nat, b: nat)
    requires a <= b
    ensures Fib(a) <= Fib(b)
    decreases b
  {
    if a < b { FibMono(a, b - 1); }
  }

  lemma FibLimit(d: nat)
    requires Fib(d) <= 65535
    ensures d <= 24
  {
    assert Fib(5) == 5;
    assert Fib(7) == 13;
    assert Fib(9) == 34;
    assert Fib(11) == 89;
    assert Fib(13) == 233;
    assert Fib(15) == 610;
    assert Fib(17) == 1597;
    assert Fib(19) == 4181;
    assert Fib(21) == 10946;
    assert Fib(23) == 28657;
    assert Fib(25) == 75025;
    if d > 24 { FibMono(25, d); }
  }

  // ---- From depths of inner nodes to depths of leaves

  /** The inner nodes at one depth, `(low, mid]`, are children of those one level up, `(mid, top]`,
      hence at most twice as many. */
  lemma {:induction false} LevelSize(p: seq<nat>, low: int, mid: int, top: int)
    requires Shaped(p, |p| + 1) && -1 <= low <= mid <= top <= |p| && mid < |p|
    requires forall i :: low < i <= mid ==> mid < p[i] <= top
    ensures mid - low <= 2 * (top - mid)
    decreases mid - low
  {
    if mid - low == 1 {
      assert mid < p[mid] <= top;
    } else if mid - low >= 2 {
      // the two earliest nodes of the level have parents below all others but one
      LevelPair(p, low, mid, top);
    }
  }

  lemma {:induction false} LevelPair(p: seq<nat>, low: int, mid: int, top: int)
    requires Shaped(p, |p| + 1) && -1 <= low && low + 2 <= mid <= top <= |p| && mid < |p|
    requires forall i :: low < i <= mid ==> mid < p[i] <= top
    ensures mid - low <= 2 * (top - mid)
    decreases mid - low
  {
    Spread(p, low + 1, (mid - low - 1) / 2);
    assert low + 1 + 2 * ((mid - low - 1) / 2) <= mid;
  }

  lemma {:induction false} Spread(p: seq<nat>, i: nat, k: nat)
    requires Shaped(p, |p| + 1) && i + 2 * k < |p|
    ensures p[i] + k <= p[i + 2 * k]
    decreases k
  {
    if k > 0 { Spread(p, i, k - 1); }
  }

  /** Leaves with the depths `ks`, all less than `d`, leave `slots` places at depth `d`. */
  ghost predicate Slots(ks: seq<nat>, d: nat, slots: nat) {
    && (forall i :: 0 <= i < |ks| ==> 1 <= ks[i] < d)
    && (forall i, j :: 0 <= i <= j < |ks| ==> ks[i] >= ks[j])
    && (if d == 0 then slots == 1 else slots == 2 * Free(ks, d - 1))
  }

  /** Filling `k` of the `slots` places at depth `d` with leaves, `used` with inner nodes. */
  lemma {:induction false} SlotsFill(ks: seq<nat>, d: nat, slots: nat, used: nat, k: nat)
    requires Slots(ks, d, slots) && slots == used + k && (d == 0 ==> k == 0)
    ensures Slots(seq(k, i => d) + ks, d + 1, 2 * used)
  {
    var all := seq(k, i => d) + ks;
    forall l: nat ensures Count(all, l) == Count(ks, l) + if l == d then k else 0 {
      CountSplit(seq(k, i => d), ks, l);
      CountConst(d, k, l);
    }
    CountAbsent(ks, d);
    if d == 0 {
      assert Free(all, 0) == 1;
    } else {
      FreeCongruent(all, ks, d - 1);
      assert Free(all, d) == 2 * Free(ks, d - 1) - k;
    }
  }

  /** Inner nodes up to `root` lie at depth `d` or deeper, those up to `top` at `d - 1`. */
  ghost predicate Levels(p: seq<nat>, d: nat, root: int, top: int)
    requires Shaped(p, |p| + 1)
  {
    && -1 <= root <= top <= |p|
    && (forall i :: 0 <= i <= root ==> Depth(p, i) >= d)
    && (forall i :: root < i <= top && d > 0 ==> Depth(p, i) == d - 1)
    && (forall i :: top < i <= |p| ==> Depth(p, i) + 1 < d)
    && (d == 0 ==> root == top == |p|)
  }

  lemma LevelNonempty(p: seq<nat>, d: nat, mid: int, top: int)
    requires Shaped(p, |p| + 1) && Levels(p, d, mid, top) && mid >= 0
    ensures Depth(p, mid) == d && d <= Depth(p, 0) && (d > 0 ==> mid < |p|)
  {
    DepthMono(p, 0, mid);
    if d > 0 {
      assert Depth(p, |p|) == 0;
      var q := p[mid];
      assert Depth(p, mid) == 1 + Depth(p, q);
    }
  }

  lemma InnerDepth(p: seq<nat>, i: nat)
    requires Shaped(p, |p| + 1) && i <= |p|
    ensures i < |p| ==> Depth(p, i) >= 1
  {
  }

  lemma LevelDown(p: seq<nat>, d: nat, low: int, mid: int, top: int)
    requires Shaped(p, |p| + 1) && Levels(p, d, mid, top) && -1 <= low <= mid
    requires forall i :: low < i <= mid ==> Depth(p, i) == d
    requires low >= 0 ==> Depth(p, low) != d
    ensures Levels(p, d + 1, low, mid)
    ensures mid >= 0 ==> low < mid && d <= Depth(p, 0)
    ensures mid - low <= if d == 0 then 1 else 2 * (top - mid)
    ensures d == 0 ==> mid - low == 1
  {
    if mid >= 0 {
      LevelNonempty(p, d, mid, top);
    }
    if low >= 0 {
      forall i | 0 <= i <= low ensures Depth(p, i) >= d + 1 {
        DepthMono(p, i, low);
      }
    }
    if mid >= 1 {
      InnerDepth(p, mid - 1);
    }
    if d > 0 && mid >= 0 {
      forall i | low < i <= mid ensures mid < p[i] <= top {
        assert Depth(p, i) == 1 + Depth(p, p[i]);
      }
      LevelSize(p, low, mid, top);
    }
  }

  /** Count the inner nodes at depth `dpth`, from `mid` downwards. */
  method CountLevel(a: array<SymFreq>, mid: int, dpth: nat, ghost p: seq<nat>) returns (root: int, used: nat)
    requires |p| + 2 == a.Length && Shaped(p, |p| + 1) && -1 <= mid <= |p|
    requires forall i :: 0 <= i <= mid ==> a[i].key == Depth(p, i)
    ensures -1 <= root <= mid && used == mid - root
    ensures forall i :: root < i <= mid ==> Depth(p, i) == dpth
    ensures root >= 0 ==> Depth(p, root) != dpth
  {
    root, used := mid, 0;
    while root >= 0 && a[root].key == dpth
      invariant -1 <= root <= mid && used == mid - root
      invariant forall i :: root < i <= mid ==> Depth(p, i) == dpth
    {
      used := used + 1;
      root := root - 1;
    }
  }

  /** The leaves from `after + 1` to `next` have received depth `d`. */
  ghost predicate Placed(s: seq<SymFreq>, r: seq<SymFreq>, after: int, next: int, d: nat) {
    && |r| == |s| && -1 <= after <= next < |s|
    && (forall i :: after < i <= next ==> r[i].key == d)
    && (forall i :: 0 <= i < |s| && !(after < i <= next) ==> r[i] == s[i])
  }

  lemma KeysPush(s: seq<SymFreq>, r: seq<SymFreq>, after: int, next: int, d: nat)
    requires Placed(s, r, after, next, d)
    ensures |r| == |s| && Keys(r[after + 1..]) == seq(next - after, i => d) + Keys(s[next + 1..])
  {
  }

  /** Give depth `dpth` to the `k` leaves that end at `next0`. */
  method FillLeaves(a: array<SymFreq>, next0: int, k: nat, dpth: nat) returns (next: int)
    requires k <= next0 + 1 && next0 < a.Length
    modifies a
    ensures next == next0 - k && Placed(old(a[..]), a[..], next, next0, dpth)
    ensures Syms(a[..]) == Syms(old(a[..]))
  {
    next := next0;
    var left := k;
    while left > 0
      invariant next == next0 - k + left
      invariant forall i :: next < i <= next0 ==> a[i].key == dpth
      invariant forall i :: 0 <= i < a.Length && !(next < i <= next0) ==> a[i] == old(a[i])
      invariant Syms(a[..]) == Syms(old(a[..]))
    {
      a[next] := a[next].(key := dpth);
      next := next - 1;
      left := left - 1;
    }
  }

  /** Inner nodes up to `root` still hold their depths. */
  ghost predicate InnerKeys(s: seq<SymFreq>, p: seq<nat>, root: int)
    requires Shaped(p, |p| + 1) && |s| == |p| + 2 && -1 <= root <= |p|
  {
    forall i :: 0 <= i <= root ==> s[i].key == Depth(p, i)
  }

  /** How many leaves and inner nodes are left for depth `d` and below. */
  ghost predicate Places(p: seq<nat>, d: nat, root: int, top: int, next: int, avbl: nat)
    requires Shaped(p, |p| + 1)
  {
    && -1 <= root <= top <= |p| && -1 <= next <= |p| + 1
    && avbl == next - root == (if d == 0 then 1 else 2 * (top - root))
    && d <= Depth(p, 0) + (if avbl > 0 then 1 else 2)
    && (avbl == 0 ==> next == -1 && d > 0)
  }

  /** What holds of the array `s` between two rounds of the third loop. */
  ghost predicate Filling(s: seq<SymFreq>, p: seq<nat>, d: nat, root: int, top: int, next: int, avbl: nat)
    requires Shaped(p, |p| + 1)
  {
    && |s| == |p| + 2 && Places(p, d, root, top, next, avbl) && InnerKeys(s, p, root)
    && Levels(p, d, root, top) && Slots(Keys(s[next + 1..]), d, avbl)
  }

  lemma FillingStarts(s: seq<SymFreq>, p: seq<nat>)
    requires Shaped(p, |p| + 1) && |s| == |p| + 2
    requires forall i :: 0 <= i <= |p| ==> s[i].key == Depth(p, i)
    ensures Filling(s, p, 0, |p|, |p|, |p| + 1, 1)
  {
    assert Keys(s[|p| + 2..]) == [];
  }

  lemma FillingKept(s: seq<SymFreq>, r: seq<SymFreq>, p: seq<nat>, d: nat,
                    root: int, mid: int, top: int, next: int, avbl: nat, after: int)
    requires Shaped(p, |p| + 1) && Filling(s, p, d, mid, top, next, avbl) && avbl > 0
    requires -1 <= root <= mid && (forall i :: root < i <= mid ==> Depth(p, i) == d)
    requires root >= 0 ==> Depth(p, root) != d
    requires mid - root <= avbl && after == next - (avbl - (mid - root)) && Placed(s, r, after, next, d)
    ensures Filling(r, p, d + 1, root, mid, after, 2 * (mid - root))
  {
    hide Slots, Shaped, Depth, Levels, Placed, Keys, Places, InnerKeys;
    LevelDown(p, d, root, mid, top);
    LevelTop(p, d, mid, top);
    PlacesKept(p, d, root, mid, top, next, avbl, after);
    FillingSlots(s, r, d, mid - root, next, avbl, after);
    FillingInner(s, r, p, root, mid, after, next, d);
  }

  /** The positions after one more level. */
  lemma PlacesKept(p: seq<nat>, d: nat, root: int, mid: int, top: int, next: int, avbl: nat, after: int)
    requires Shaped(p, |p| + 1) && Places(p, d, mid, top, next, avbl) && avbl > 0
    requires -1 <= root <= mid && mid - root <= avbl && after == next - (avbl - (mid - root))
    requires (mid >= 0 ==> root < mid && d <= Depth(p, 0)) && (d == 0 ==> mid - root == 1 && mid == |p|)
    ensures Places(p, d + 1, root, mid, after, 2 * (mid - root)) && root <= after
    ensures d == 0 ==> avbl == 1
  {
    hide Depth;
  }

  /** The leaves filled in use up their places. */
  lemma FillingSlots(s: seq<SymFreq>, r: seq<SymFreq>, d: nat, used: nat, next: int, avbl: nat, after: int)
    requires used <= avbl && after == next - (avbl - used) && Placed(s, r, after, next, d)
    requires Slots(Keys(s[next + 1..]), d, avbl) && (d == 0 ==> used == avbl)
    ensures Slots(Keys(r[after + 1..]), d + 1, 2 * used)
  {
    hide Slots, Keys;
    SlotsFill(Keys(s[next + 1..]), d, avbl, used, avbl - used);
    KeysPush(s, r, after, next, d);
  }

  lemma FillingInner(s: seq<SymFreq>, r: seq<SymFreq>, p: seq<nat>, root: int, mid: int, after: int, next: int, d: nat)
    requires Shaped(p, |p| + 1) && |s| == |p| + 2 && Placed(s, r, after, next, d)
    requires -1 <= root <= mid <= |p| && root <= after && InnerKeys(s, p, mid)
    ensures |r| == |s| && InnerKeys(r, p, root)
  {
    hide Depth;
  }

  lemma LevelTop(p: seq<nat>, d: nat, mid: int, top: int)
    requires Shaped(p, |p| + 1) && Levels(p, d, mid, top)
    ensures d == 0 ==> mid == top == |p|
    ensures mid <= |p|
  {
  }

  // ---- What the lengths cost

  lemma {:induction false} CostAppend(w: seq<nat>, l: seq<nat>, v: seq<nat>, k: seq<nat>)
    requires |w| == |l| && |v| == |k|
    ensures Cost(w + v, l + k) == Cost(w, l) + Cost(v, k)
  {
    if w == [] {
      assert w + v == v && l + k == k;
    } else {
      CostAppend(w[1..], l[1..], v, k);
      assert (w + v)[1..] == w[1..] + v && (l + k)[1..] == l[1..] + k;
    }
  }

  lemma {:induction false} CostSame(w: seq<nat>, d: nat)
    ensures Cost(w, seq(|w|, i => d)) == d * Sum(w)
  {
    if w != [] {
      CostSame(w[1..], d);
      assert seq(|w|, i => d)[1..] == seq(|w| - 1, i => d);
      assert d * (w[0] + Sum(w[1..])) == d * w[0] + d * Sum(w[1..]);
    }
  }

  /** The leaves placed so far, and depth `d` for all others, cost as much as the nodes above depth `d`
      weigh. */
  ghost predicate Paid(w: seq<nat>, m: seq<nat>, ks: seq<nat>, d: nat, root: int, next: int)
    requires -1 <= next < |w| && |ks| == |w| - (next + 1) && -1 <= root < |m|
  {
    Cost(w[next + 1..], ks) + d * Sum(w[..next + 1]) == Sum(m[root + 1..])
  }

  lemma PaidStep(w: seq<nat>, m: seq<nat>, ks: seq<nat>, d: nat, root: int, mid: int, next: int, after: int)
    requires -1 <= after <= next < |w| && |ks| == |w| - (next + 1) && -1 <= root <= mid < |m|
    requires Paid(w, m, ks, d, mid, next) && Sum(m[root + 1..mid + 1]) == Sum(w[..after + 1])
    ensures Paid(w, m, seq(next - after, i => d) + ks, d + 1, root, after)
  {
    hide Cost, Sum;
    var x, y, z := w[..after + 1], w[after + 1..next + 1], w[next + 1..];
    assert w[after + 1..] == y + z && w[..next + 1] == x + y;
    CostAppend(y, seq(next - after, i => d), z, ks);
    CostSame(y, d);
    SumAppend(x, y);
    assert m[root + 1..] == m[root + 1..mid + 1] + m[mid + 1..];
    SumAppend(m[root + 1..mid + 1], m[mid + 1..]);
    assert d * (Sum(x) + Sum(y)) == d * Sum(x) + d * Sum(y);
    assert (d + 1) * Sum(x) == d * Sum(x) + Sum(x);
  }

  /** The nodes of depth `d` are those made before node `mid + 1` and consumed later. */
  lemma LevelConsumed(p: seq<nat>, d: nat, low: int, mid: int, top: int)
    requires Shaped(p, |p| + 1) && Levels(p, d, mid, top) && Levels(p, d + 1, low, mid) && -1 <= low <= mid && mid >= 0
    ensures Consumed(p, mid + 1, low + 1)
  {
    assert Depth(p, |p|) == 0;
    if low >= 0 { assert Depth(p, low) >= d + 1; }
    forall i | 0 <= i < low + 1 ensures i < |p| && p[i] < mid + 1 {
      assert Depth(p, i) >= d + 1;
      assert Depth(p, i) == 1 + Depth(p, p[i]);
    }
    forall i | low + 1 <= i < |p| ensures p[i] >= mid + 1 {
      if i <= mid {
        assert Depth(p, i) == 1 + Depth(p, p[i]);
      }
    }
  }

  /** The leaves below depth `d` weigh as much as the nodes of depth `d`. */
  lemma LevelWeight(t: Merge, d: nat, low: int, mid: int, top: int, after: int)
    requires Shaped(t.p, |t.p| + 1) && |t.m| == |t.p| + 1 && History(t)
    requires Levels(t.p, d, mid, top) && Levels(t.p, d + 1, low, mid) && -1 <= low <= mid && after == 2 * mid - low
    ensures mid < |t.m| && after + 1 <= |t.w| && Sum(t.m[low + 1..mid + 1]) == Sum(t.w[..after + 1])
  {
    hide Levels, Shaped, Depth, Sum, Consumed, History;
    if mid >= 0 {
      LevelTop(t.p, d, mid, top);
      LevelConsumed(t.p, d, low, mid, top);
      HistoryAt(t, mid + 1, low + 1);
    } else {
      assert t.m[low + 1..mid + 1] == t.w[..after + 1];
    }
  }

  lemma PaidStart(t: Merge)
    requires |t.m| == |t.p| + 1 && |t.w| == |t.p| + 2
    ensures Paid(t.w, t.m, [], 0, |t.p|, |t.p| + 1)
  {
    assert t.w[|t.p| + 2..] == [] && t.m[|t.p| + 1..] == [];
  }

  /** One more level of leaves is paid for. */
  lemma LevelPaid(t: Merge, ks: seq<nat>, d: nat, root: int, mid: int, top: int, next: int, after: int)
    requires Shaped(t.p, |t.p| + 1) && |t.m| == |t.p| + 1 && |t.w| == |t.p| + 2 && History(t)
    requires Levels(t.p, d, mid, top) && Levels(t.p, d + 1, root, mid)
    requires -1 <= root <= mid < |t.m| && after == 2 * mid - root <= next < |t.w| && |ks| == |t.w| - (next + 1)
    requires Paid(t.w, t.m, ks, d, mid, next)
    ensures Paid(t.w, t.m, seq(next - after, i => d) + ks, d + 1, root, after)
  {
    hide Paid, Depth, Shaped, Levels, History, Sum;
    LevelWeight(t, d, root, mid, top, after);
    PaidStep(t.w, t.m, ks, d, root, mid, next, after);
  }

  lemma FillingPaid(s: seq<SymFreq>, r: seq<SymFreq>, t: Merge, d: nat, root: int, mid: int, top: int,
                    next: int, after: int)
    requires Shaped(t.p, |t.p| + 1) && |t.m| == |t.p| + 1 && |t.w| == |t.p| + 2 == |s| && History(t)
    requires Levels(t.p, d, mid, top) && Levels(t.p, d + 1, root, mid) && Placed(s, r, after, next, d)
    requires -1 <= root <= mid < |t.m| && after == 2 * mid - root <= next < |t.w|
    requires Paid(t.w, t.m, Keys(s[next + 1..]), d, mid, next)
    ensures |r| == |s| && Paid(t.w, t.m, Keys(r[after + 1..]), d + 1, root, after)
  {
    hide Paid, Shaped, Levels, History, Keys, Placed;
    KeysPush(s, r, after, next, d);
    LevelPaid(t, Keys(s[next + 1..]), d, root, mid, top, next, after);
  }

  // ---- How deep a heavy leaf can lie

  ghost predicate Grown(t: Merge) {
    && |t.m| == |t.p| + 1 && |t.w| == |t.p| + 2 && Shaped(t.p, |t.p| + 1)
    && Growing(t.m, t.p) && t.m[|t.p|] <= Sum(t.w) && Ascending(t.w)
  }

  /** A leaf at depth `d` weighs at most one part in `Fib(d)` of the whole; the leaves from `from` on have
      the depths `ks`. */
  ghost predicate Light(w: seq<nat>, ks: seq<nat>, from: nat) {
    from + |ks| == |w| && forall i :: 0 <= i < |ks| ==> w[from + i] * Fib(ks[i]) <= Sum(w)
  }

  /** The nodes of depth `d - 1` or more are those made before node `top + 1`, those of depth `d` or more
      the ones of them consumed by then. */
  lemma LevelMade(p: seq<nat>, d: nat, mid: int, top: int)
    requires Shaped(p, |p| + 1) && Levels(p, d, mid, top) && d > 0 && top >= 0
    ensures mid < |p| && Consumed(p, top + 1, mid + 1)
  {
    assert Depth(p, |p|) == 0;
    forall i | 0 <= i < mid + 1 ensures i < |p| && p[i] < top + 1 {
      assert Depth(p, i) == 1 + Depth(p, p[i]);
    }
    forall i | mid + 1 <= i < |p| ensures p[i] >= top + 1 {
      if i <= top {
        assert Depth(p, i) == 1 + Depth(p, p[i]);
      }
    }
  }

  /** The heaviest leaf at depth `d`. */
  lemma LeafShare(t: Merge, d: nat, mid: int, top: int, next: int)
    requires Grown(t) && History(t) && Levels(t.p, d, mid, top) && d > 0 && mid < top && next == 2 * top - mid
    ensures 0 <= next < |t.w| && t.w[next] * Fib(d) <= Sum(t.w)
  {
    hide Growing, Ascending, Sum, History, Fib;
    LevelMade(t.p, d, mid, top);
    HistoryAt(t, top + 1, mid + 1);
    NodeShare(t.m, t.p, top);
    assert Depth(t.p, top) == d - 1;
    assert t.w[next] * Fib(d) <= t.m[top] * Fib(d) by { Smaller(t.w[next], t.m[top], Fib(d)); }
  }

  lemma Smaller(a: nat, b: nat, c: nat)
    requires a <= b
    ensures a * c <= b * c
  {
    assert b * c == a * c + (b - a) * c;
  }

  /** Leaves up to `next`, given depth `d`. */
  lemma LightPush(w: seq<nat>, ks: seq<nat>, d: nat, after: int, next: int)
    requires -1 <= after <= next < |w| && Ascending(w) && Light(w, ks, next + 1)
    requires after < next ==> w[next] * Fib(d) <= Sum(w)
    ensures Light(w, seq(next - after, i => d) + ks, after + 1)
  {
    hide Fib, Sum;
    var r := seq(next - after, i => d) + ks;
    forall i | 0 <= i < |r| ensures w[after + 1 + i] * Fib(r[i]) <= Sum(w) {
      if i < next - after {
        Smaller(w[after + 1 + i], w[next], Fib(d));
      } else {
        assert r[i] == ks[i - (next - after)];
      }
    }
  }

  lemma FillingLight(s: seq<SymFreq>, r: seq<SymFreq>, t: Merge, d: nat, mid: int, top: int, next: int, after: int)
    requires Grown(t) && History(t) && Levels(t.p, d, mid, top) && Placed(s, r, after, next, d)
    requires |s| == |t.w| && (d == 0 ==> after == next) && (d > 0 && after < next ==> mid < top)
    requires d > 0 ==> next == 2 * top - mid
    requires -1 <= next && Light(t.w, Keys(s[next + 1..]), next + 1)
    ensures |r| == |s| && -1 <= after && Light(t.w, Keys(r[after + 1..]), after + 1)
  {
    hide Light, Shaped, Levels, History, Keys, Growing;
    KeysPush(s, r, after, next, d);
    if after < next {
      LeafShare(t, d, mid, top, next);
    }
    PlacedBounds(s, r, after, next, d);
    LightPush(t.w, Keys(s[next + 1..]), d, after, next);
  }

  lemma PlacedBounds(s: seq<SymFreq>, r: seq<SymFreq>, after: int, next: int, d: nat)
    requires Placed(s, r, after, next, d)
    ensures |r| == |s| && -1 <= after <= next < |s|
  {
  }

  /** Where the third loop stands, without what it has written. */
  lemma FillingLevels(s: seq<SymFreq>, p: seq<nat>, d: nat, root: int, top: int, next: int, avbl: nat)
    requires Shaped(p, |p| + 1) && Filling(s, p, d, root, top, next, avbl)
    ensures Levels(p, d, root, top) && avbl == next - root && -1 <= root <= top <= |p| && -1 <= next <= |p| + 1
    ensures avbl == (if d == 0 then 1 else 2 * (top - root))
    ensures |s| == |p| + 2
  {
  }

  /** The third loop between two rounds: what is written, and what it costs. */
  ghost predicate Settling(s: seq<SymFreq>, t: Merge, d: nat, root: int, top: int, next: int, avbl: nat)
    requires Shaped(t.p, |t.p| + 1)
  {
    && Grown(t) && History(t)
    && Filling(s, t.p, d, root, top, next, avbl) && Paid(t.w, t.m, Keys(s[next + 1..]), d, root, next)
    && Light(t.w, Keys(s[next + 1..]), next + 1)
  }

  lemma SettlingStarts(s: seq<SymFreq>, t: Merge)
    requires Grown(t) && |s| == |t.w| && History(t)
    requires forall i :: 0 <= i <= |t.p| ==> s[i].key == Depth(t.p, i)
    ensures Settling(s, t, 0, |t.p|, |t.p|, |t.p| + 1, 1)
  {
    hide Paid, History, Filling, Depth;
    FillingStarts(s, t.p);
    NoKeys(s);
    PaidStart(t);
  }

  lemma SettlingFacts(s: seq<SymFreq>, t: Merge, d: nat, root: int, top: int, next: int, avbl: nat)
    requires Shaped(t.p, |t.p| + 1) && Settling(s, t, d, root, top, next, avbl)
    ensures -1 <= root <= |t.p| && -1 <= next < |s| == |t.p| + 2
    ensures forall i :: 0 <= i <= root ==> s[i].key == Depth(t.p, i)
    ensures avbl == 0 ==> next == root == -1
  {
    hide Paid, History, Levels, Slots, Depth, Keys;
  }

  lemma SettlingCounted(s: seq<SymFreq>, t: Merge, d: nat, root: int, mid: int, top: int, next: int, avbl: nat)
    requires Shaped(t.p, |t.p| + 1) && Settling(s, t, d, mid, top, next, avbl) && avbl > 0
    requires -1 <= root <= mid && (forall i :: root < i <= mid ==> Depth(t.p, i) == d)
    requires root >= 0 ==> Depth(t.p, root) != d
    ensures mid - root <= avbl && avbl - (mid - root) <= next + 1 && (mid >= 0 ==> root < mid)
  {
    hide Paid, History, Filling, Depth;
    FillingUsed(s, t.p, d, root, mid, top, next, avbl);
    if mid >= 0 { FillingProgress(s, t.p, d, root, mid, top, next, avbl); }
  }

  lemma SettlingKept(s: seq<SymFreq>, r: seq<SymFreq>, t: Merge, d: nat, root: int, mid: int, top: int,
                     next: int, avbl: nat, after: int)
    requires Shaped(t.p, |t.p| + 1) && Settling(s, t, d, mid, top, next, avbl) && avbl > 0
    requires -1 <= root <= mid && (forall i :: root < i <= mid ==> Depth(t.p, i) == d)
    requires root >= 0 ==> Depth(t.p, root) != d
    requires mid - root <= avbl && after == next - (avbl - (mid - root)) && Placed(s, r, after, next, d)
    ensures Settling(r, t, d + 1, root, mid, after, 2 * (mid - root))
  {
    hide Paid, History, Filling, Depth, Shaped, Keys, Placed, Levels, Light, Growing;
    FillingLevels(s, t.p, d, mid, top, next, avbl);
    SettlingCounted(s, t, d, root, mid, top, next, avbl);
    FillingLight(s, r, t, d, mid, top, next, after);
    FillingKept(s, r, t.p, d, root, mid, top, next, avbl, after);
    FillingLevels(r, t.p, d + 1, root, mid, after, 2 * (mid - root));
    FillingPaid(s, r, t, d, root, mid, top, next, after);
  }

  /** The third loop: leaf depths, written over the inner nodes' depths from the right end. */
  method LeafDepths(a: array<SymFreq>, ghost t: Merge) returns (ghost d: nat)
    requires a.Length == |t.w| && Grown(t) && History(t)
    requires forall i :: 0 <= i <= |t.p| ==> a[i].key == Depth(t.p, i)
    modifies a
    ensures Slots(Keys(a[..]), d, 0) && 1 <= d <= Depth(t.p, 0) + 2 && Light(t.w, Keys(a[..]), 0)
    ensures |Keys(a[..])| == |t.w| && Cost(t.w, Keys(a[..])) == Sum(t.m)
    ensures Syms(a[..]) == Syms(old(a[..]))
  {
    hide Slots, Shaped, Depth, Keys, Syms, Settling, History, Cost, Sum, Placed;
    var avbl: nat, used: nat, dpth: nat := 1, 0, 0;
    var root, next := a.Length - 2, a.Length - 1;
    ghost var top := root;
    SettlingStarts(a[..], t);
    while avbl > 0
      invariant -1 <= root
      invariant Settling(a[..], t, dpth, root, top, next, avbl)
      invariant Syms(a[..]) == Syms(old(a[..]))
      decreases root + 1, avbl
    {
      ghost var mid, s, before, slots := root, a[..], next, avbl;
      SettlingFacts(s, t, dpth, mid, top, next, avbl);
      root, used := CountLevel(a, root, dpth, t.p);
      SettlingCounted(s, t, dpth, root, mid, top, next, avbl);
      next := FillLeaves(a, next, avbl - used, dpth);
      SettlingKept(s, a[..], t, dpth, root, mid, top, before, slots, next);
      avbl := 2 * used;
      dpth := dpth + 1;
      top := mid;
    }
    d := dpth;
    SettlingFacts(a[..], t, d, root, top, next, 0);
    SettlingEnds(a[..], t, d, root, top, next);
  }

  lemma NoKeys(s: seq<SymFreq>)
    ensures Keys(s[|s|..]) == []
  {
  }

  lemma FillingEnds(s: seq<SymFreq>, t: Merge, d: nat, root: int, top: int, next: int)
    requires Shaped(t.p, |t.p| + 1) && Filling(s, t.p, d, root, top, next, 0)
    requires |t.m| == |t.p| + 1 && |t.w| == |t.p| + 2 && |Keys(s[next + 1..])| == |t.w| - (next + 1)
    requires Paid(t.w, t.m, Keys(s[next + 1..]), d, root, next) && next >= -1
    requires Light(t.w, Keys(s[next + 1..]), next + 1)
    ensures Slots(Keys(s), d, 0) && 1 <= d <= Depth(t.p, 0) + 2 && Light(t.w, Keys(s), 0)
    ensures |Keys(s)| == |t.w| && Cost(t.w, Keys(s)) == Sum(t.m)
  {
    assert s[0..] == s && t.w[0..] == t.w && t.m[0..] == t.m && t.w[..0] == [];
    assert Sum([]) == 0;
    hide Light;
  }

  lemma SettlingEnds(s: seq<SymFreq>, t: Merge, d: nat, root: int, top: int, next: int)
    requires Shaped(t.p, |t.p| + 1) && Settling(s, t, d, root, top, next, 0)
    ensures Slots(Keys(s), d, 0) && 1 <= d <= Depth(t.p, 0) + 2 && Light(t.w, Keys(s), 0)
    ensures |Keys(s)| == |t.w| && Cost(t.w, Keys(s)) == Sum(t.m)
  {
    hide Slots, Depth, History, Light;
    FillingEnds(s, t, d, root, top, next);
  }

  lemma FillingUsed(s: seq<SymFreq>, p: seq<nat>, d: nat, root: int, mid: int, top: int, next: int, avbl: nat)
    requires Shaped(p, |p| + 1) && Filling(s, p, d, mid, top, next, avbl) && avbl > 0
    requires -1 <= root <= mid && (forall i :: root < i <= mid ==> Depth(p, i) == d)
    requires root >= 0 ==> Depth(p, root) != d
    ensures mid - root <= avbl && avbl - (mid - root) <= next + 1 && next < |s|
  {
    LevelDown(p, d, root, mid, top);
  }

  lemma FillingProgress(s: seq<SymFreq>, p: seq<nat>, d: nat, root: int, mid: int, top: int, next: int, avbl: nat)
    requires Shaped(p, |p| + 1) && Filling(s, p, d, mid, top, next, avbl) && avbl > 0 && mid >= 0
    requires -1 <= root <= mid && (root >= 0 ==> Depth(p, root) != d)
    ensures root < mid
  {
    LevelNonempty(p, d, mid, top);
  }

  // ---- The whole algorithm

  /** What the array holds afterwards: for two or more symbols, lengths that never increase with
      frequency, use up all code words, and grow at most like the inverse of Fibonacci. */
  ghost predicate GoodLengths(ks: seq<nat>, total: nat) {
    && (forall i, j :: 0 <= i <= j < |ks| ==> ks[i] >= ks[j])
    && (forall i :: 0 <= i < |ks| ==> ks[i] >= 1)
    && (|ks| == 1 ==> ks[0] == 1)
    && (|ks| >= 2 ==>
        && Free(ks, 32) == 0
        && forall i :: 0 <= i < |ks| ==> ks[i] <= 32 && Fib(ks[i] + 2) <= total)
  }

  lemma SlotsComplete(ks: seq<nat>, d: nat, e: nat, total: nat)
    requires Slots(ks, d, 0) && 1 <= d <= e + 2 && |ks| >= 2
    requires Fib(e + 3) <= total <= 65535
    ensures GoodLengths(ks, total)
  {
    FibLimit(e + 3);
    forall l | d - 1 < l <= 32 ensures Count(ks, l) == 0 {
      CountAbsent(ks, l);
    }
    FreeAfterLast(ks, d - 1, 32);
    forall i | 0 <= i < |ks| ensures ks[i] <= 32 && Fib(ks[i] + 2) <= total {
      FibMono(ks[i] + 2, e + 3);
    }
  }

  /** The three loops, for two or more symbols. */
  method TwoOrMore(a: array<SymFreq>)
    requires a.Length >= 2 && Frequencies(Keys(a[..]))
    modifies a
    ensures GoodLengths(Keys(a[..]), Sum(Keys(old(a[..])))) && Optimal(Keys(old(a[..])), Keys(a[..]))
    ensures Light(Keys(old(a[..])), Keys(a[..]), 0) && Syms(a[..]) == Syms(old(a[..]))
  {
    hide Merging, Holds, Frequencies, Slots, GoodLengths, Sum, Fib, Shaped, Depth, Syms, Keys, Accounted, Optimal;
    hide History, Light, Grown;
    ghost var s := a[..];
    ghost var t, hi := MergeAll(a);
    MergedRoot(a[..], t, hi, s);
    AllGrown(t, hi);
    Depths(a, t.p);
    ghost var d := LeafDepths(a, t);
    LengthsGood(Keys(s), Keys(a[..]), t, hi, d);
  }

  lemma AllGrown(t: Merge, hi: nat)
    requires Merging(t, hi) && |t.m| == |t.w| - 1 && |t.p| == |t.m| - 1
    ensures Grown(t)
  {
    hide Shaped, Growing, Weighed;
    LastWeight(t);
  }

  /** What the three loops have established. */
  lemma LengthsGood(w: seq<nat>, ks: seq<nat>, t: Merge, hi: nat, d: nat)
    requires Frequencies(w) && |w| >= 2 && t.w == w && Merging(t, hi) && Accounted(t)
    requires |t.m| == |w| - 1 && |t.p| == |t.m| - 1
    requires Slots(ks, d, 0) && 1 <= d <= Depth(t.p, 0) + 2 && |ks| == |w| && Cost(w, ks) == Sum(t.m)
    ensures GoodLengths(ks, Sum(w)) && Optimal(w, ks)
  {
    hide Slots, GoodLengths, Sum, Fib, Depth, Optimal, History, Merged, Cost;
    DepthFib(t, hi);
    SlotsComplete(ks, d, Depth(t.p, 0), Sum(w));
    PricedEnd(t, hi);
    OptimalIfMerged(w, ks);
  }

  /** `tdefl_calculate_minimum_redundancy`. */
  method CalculateMinimumRedundancy(a: array<SymFreq>)
    requires Frequencies(Keys(a[..]))
    modifies a
    ensures GoodLengths(Keys(a[..]), Sum(Keys(old(a[..])))) && Optimal(Keys(old(a[..])), Keys(a[..]))
    ensures Light(Keys(old(a[..])), Keys(a[..]), 0) && Syms(a[..]) == Syms(old(a[..]))
  {
    hide Cost, Codable;
    FewOptimal(Keys(a[..]));
    if a.Length == 0 {
      return;
    } else if a.Length == 1 {
      a[0] := a[0].(key := 1);
      assert Keys(a[..]) == [1];
      SumElement(Keys(old(a[..])), 0);
      assert Fib(1) == 1;
    } else {
      TwoOrMore(a);
    }
  }

  /** A code of one symbol needs one bit. */
  lemma FewOptimal(w: seq<nat>)
    ensures |w| == 0 ==> Optimal(w, w)
    ensures |w| == 1 ==> Optimal(w, [1])
  {
    if |w| == 1 {
      forall v: seq<nat> | |v| == 1 && Codable(v) ensures Cost(w, [1]) <= Cost(w, v) {
        assert Cost(w[1..], v[1..]) == 0 && Cost(w[1..], [1][1..]) == 0;
        assert w[0] * v[0] == w[0] + w[0] * (v[0] - 1);
      }
    }
  }

  lemma MergedRoot(s: seq<SymFreq>, t: Merge, hi: nat, a0: seq<SymFreq>)
    requires Merging(t, hi) && |t.m| == |t.w| - 1 && Holds(s, t, a0) && Accounted(t)
    ensures Shaped(t.p, |t.p| + 1) && |t.m| == |t.p| + 1 && History(t)
    ensures |t.w| == |s| && forall i :: 0 <= i < |t.p| ==> s[i].key == t.p[i]
    ensures Syms(s) == Syms(a0)
  {
    hide Priced, Growing, Ordered, Weighed, History;
  }
}
