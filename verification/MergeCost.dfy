/** What the merging phase adds up to: at every moment the nodes made and the leaves consumed balance, and
    the weights of the nodes are the cost of merging. */
module MergeCost {
  import opened Sums
  import opened Huffman
  import opened MergeModel

  /** Of the nodes consumed, exactly the first `r` were consumed before node `k` was made. */
  ghost predicate Consumed(p: seq<nat>, k: nat, r: nat) {
    && r <= |p| && r <= k
    && (forall i :: 0 <= i < r ==> p[i] < k)
    && (forall i :: r <= i < |p| ==> p[i] >= k)
  }

  /** When the first `k` nodes had been made and `r` of them consumed, the others weighed as much as the
      leaves consumed until then, none of which outweighed the last node. */
  ghost predicate BalancedAt(t: Merge, k: nat, r: nat)
    requires r <= k <= |t.m|
  {
    && 1 <= 2 * k - r <= |t.w| && Sum(t.m[r..k]) == Sum(t.w[..2 * k - r])
    && t.w[2 * k - r - 1] <= t.m[k - 1]
  }

  ghost predicate History(t: Merge) {
    forall k: nat, r: nat :: 1 <= k <= |t.m| && Consumed(t.p, k, r) ==> BalancedAt(t, k, r)
  }

  lemma HistoryAt(t: Merge, k: nat, r: nat)
    requires History(t) && 1 <= k <= |t.m| && Consumed(t.p, k, r)
    ensures r <= k && 1 <= 2 * k - r <= |t.w| && Sum(t.m[r..k]) == Sum(t.w[..2 * k - r])
    ensures t.w[2 * k - r - 1] <= t.m[k - 1]
  {
    hide Sum;
    assert BalancedAt(t, k, r);
  }

  lemma HistoryStart(w: seq<nat>)
    requires |w| >= 2 && Ascending(w)
    ensures History(Merge(w, [w[0] + w[1]], [], 2))
  {
    var t := Merge(w, [w[0] + w[1]], [], 2);
    assert t.m[0..1] == [w[0] + w[1]] && w[..2] == [w[0]] + [w[1]];
    SumOne(w[0] + w[1]);
    SumOne(w[0]);
    SumOne(w[1]);
    SumAppend([w[0]], [w[1]]);
  }

  /** The last leaf consumed does not outweigh the last node made. */
  ghost predicate LeafBelow(t: Merge) {
    |t.m| >= 1 && 1 <= t.leaf <= |t.w| && t.w[t.leaf - 1] <= t.m[|t.m| - 1]
  }

  lemma MergingLeaf(t: Merge, hi: nat)
    requires Merging(t, hi)
    ensures LeafBelow(t)
  {
    hide Shaped, Growing, Weighed, Ascending;
  }

  lemma BalancedNow(t: Merge)
    requires Weighed(t) && |t.p| + t.leaf == 2 * |t.m| && |t.p| <= |t.m| && LeafBelow(t)
    ensures BalancedAt(t, |t.m|, |t.p|)
  {
    SumSplit(t.w, t.leaf);
    assert t.m[|t.p|..|t.m|] == t.m[|t.p|..];
  }

  lemma LaterParent(p: seq<nat>, k: nat, r: nat)
    requires Consumed(p, k, r) && r < |p|
    ensures exists i :: 0 <= i < |p| && p[i] >= k
  {
    assert p[r] >= k;
  }

  /** Parents that come later do not matter. */
  lemma ConsumedBefore(p: seq<nat>, q: seq<nat>, n: nat, k: nat, r: nat)
    requires |p| <= |q| && q[..|p|] == p && k <= n && (forall i :: |p| <= i < |q| ==> q[i] == n)
    requires Consumed(q, k, r)
    ensures Consumed(p, k, r)
  {
    assert forall i :: 0 <= i < |p| ==> q[i] == p[i];
    assert |p| < |q| ==> q[|p|] == n;
  }

  lemma ParentsUpTo(p: seq<nat>, q: seq<nat>, n: nat)
    requires |p| <= |q| && q[..|p|] == p && (forall i :: |p| <= i < |q| ==> q[i] == n)
    requires forall i :: 0 <= i < |p| ==> p[i] < n
    ensures forall i :: 0 <= i < |q| ==> q[i] <= n
  {
    assert forall i :: 0 <= i < |p| ==> q[i] == p[i];
  }

  /** One more pair leaves the past as it was. */
  lemma HistoryPair(t: Merge, v: Merge)
    requires History(t) && Weighed(v) && |v.p| + v.leaf == 2 * |v.m| && |v.p| <= |t.m|
    requires v.w == t.w && |v.m| == |t.m| + 1 && v.m[..|t.m|] == t.m && LeafBelow(v)
    requires |t.p| <= |v.p| && v.p[..|t.p|] == t.p && forall i :: |t.p| <= i < |v.p| ==> v.p[i] == |t.m|
    requires forall i :: 0 <= i < |t.p| ==> t.p[i] < |t.m|
    ensures History(v)
  {
    ParentsUpTo(t.p, v.p, |t.m|);
    hide Weighed, LeafBelow;
    forall k: nat, r: nat | 1 <= k <= |v.m| && Consumed(v.p, k, r) ensures BalancedAt(v, k, r) {
      if k <= |t.m| {
        ConsumedBefore(t.p, v.p, |t.m|, k, r);
        assert v.m[r..k] == t.m[r..k];
      } else {
        if r < |v.p| { LaterParent(v.p, k, r); }
        BalancedNow(v);
      }
    }
  }

  // ---- The cost of merging

  /** The items not yet consumed. */
  ghost function Rest(t: Merge): multiset<nat>
    requires |t.p| <= |t.m| && t.leaf <= |t.w|
  {
    multiset(t.m[|t.p|..]) + multiset(t.w[t.leaf..])
  }

  ghost predicate Priced(t: Merge)
    requires |t.p| <= |t.m| && t.leaf <= |t.w|
  {
    Sum(t.m) + Merged(Rest(t)) == Merged(multiset(t.w))
  }

  lemma DropFirst(s: seq<nat>, i: nat)
    requires i < |s|
    ensures multiset(s[i..]) == multiset(s[i + 1..]) + multiset{s[i]}
  {
    assert s[i..] == [s[i]] + s[i + 1..];
  }

  /** The item taken leaves the rest. */
  lemma TakeRest(t: Merge)
    requires HasItem(t) && |t.p| <= |t.m| && t.leaf <= |t.w|
    ensures |Take(t).p| <= |t.m| && Take(t).leaf <= |t.w| && Take(t).m == t.m && Take(t).w == t.w
    ensures Rest(t) == Rest(Take(t)) + multiset{Taken(t)}
  {
    if TakesNode(t, |t.m|) {
      DropFirst(t.m, |t.p|);
    } else {
      DropFirst(t.w, t.leaf);
    }
  }

  /** The item taken is a least one. */
  lemma TakeLeast(t: Merge, hi: nat)
    requires HasItem(t) && Ordered(t, hi) && |t.p| <= |t.m| && t.leaf <= |t.w|
    ensures IsLeast(Rest(t), Taken(t))
  {
    TakeOrdered(t, hi);
    TakeRest(t);
    var u, a := Take(t), Taken(t);
    hide Taken, Take, TakesNode;
    forall x | x in Rest(t) ensures a <= x {
      if x != a {
        RestAtLeast(u, a, x);
      }
    }
  }

  /** What has not been consumed weighs at least as much as what has. */
  lemma RestAtLeast(u: Merge, hi: nat, x: nat)
    requires Ordered(u, hi) && |u.p| <= |u.m| && u.leaf <= |u.w| && x in Rest(u)
    ensures hi <= x
  {
    if x in u.m[|u.p|..] {
      NodeAtLeast(u.m, |u.p|, hi, x);
    } else {
      NodeAtLeast(u.w, u.leaf, hi, x);
    }
  }

  lemma NodeAtLeast(m: seq<nat>, from: nat, hi: nat, x: nat)
    requires from <= |m| && x in m[from..] && forall i :: from <= i < |m| ==> hi <= m[i]
    ensures hi <= x
  {
    var i :| 0 <= i < |m[from..]| && m[from..][i] == x;
    assert x == m[from + i];
  }

  lemma RestGrows(v: Merge, x: nat)
    requires |v.p| <= |v.m| && v.leaf <= |v.w|
    ensures Rest(v.(m := v.m + [x])) == Rest(v) + multiset{x}
    ensures Sum(v.m + [x]) == Sum(v.m) + x
  {
    assert (v.m + [x])[|v.p|..] == v.m[|v.p|..] + [x];
    SumAppend(v.m, [x]);
    SumOne(x);
  }

  lemma PricedPair(t: Merge, hi: nat)
    requires Merging(t, hi) && HasItem(t) && HasItem(Take(t)) && Priced(t)
    ensures |Pair(t).p| <= |Pair(t).m| && Pair(t).leaf <= |t.w| && Pair(t).w == t.w && Priced(Pair(t))
  {
    hide Sum, Merged, IsLeast, Rest, Take, Taken, HasItem, Ordered, Shaped, Growing, Weighed;
    var u := Take(t);
    TakeOrdered(t, hi);
    TakeRest(t);
    TakeLeast(t, hi);
    TakeRest(u);
    TakeLeast(u, Taken(t));
    var v, a, b := Take(u), Taken(t), Taken(u);
    RestGrows(v, a + b);
    MergedAdd(Rest(t), Rest(u), Rest(v), a, b, Rest(v.(m := v.m + [a + b])));
  }

  lemma PricedStart(w: seq<nat>)
    requires |w| >= 2 && Ascending(w)
    ensures Priced(Merge(w, [w[0] + w[1]], [], 2))
  {
    hide Merged, IsLeast, Rest, Priced, Sum, Ascending;
    LeastTwo(w);
    StartRest(w, w[0] + w[1]);
    StartPriced(multiset(w), multiset(w[1..]), multiset(w[2..]), w);
  }

  lemma StartPriced(s: multiset<nat>, u: multiset<nat>, v: multiset<nat>, w: seq<nat>)
    requires |w| >= 2 && s == u + multiset{w[0]} && u == v + multiset{w[1]} && s == multiset(w)
    requires IsLeast(s, w[0]) && IsLeast(u, w[1])
    requires Rest(Merge(w, [w[0] + w[1]], [], 2)) == v + multiset{w[0] + w[1]}
    ensures Priced(Merge(w, [w[0] + w[1]], [], 2))
  {
    hide Merged, IsLeast, Rest;
    SumOne(w[0] + w[1]);
    MergedAdd(s, u, v, w[0], w[1], Rest(Merge(w, [w[0] + w[1]], [], 2)));
  }

  lemma StartRest(w: seq<nat>, x: nat)
    requires |w| >= 2
    ensures Rest(Merge(w, [x], [], 2)) == multiset(w[2..]) + multiset{x}
  {
    assert [x][0..] == [x];
  }

  /** When everything is merged, the nodes' weights are the cost. */
  lemma PricedEnd(t: Merge, hi: nat)
    requires Merging(t, hi) && |t.m| == |t.w| - 1 && Priced(t) && |t.p| == |t.m| - 1
    ensures Sum(t.m) == Merged(multiset(t.w))
  {
    hide Sum, Merged;
    assert t.leaf == |t.w|;
    assert t.m[|t.p|..] == [t.m[|t.p|]] && t.w[t.leaf..] == [];
    assert |Rest(t)| == 1;
    MergedOne(Rest(t));
  }

  /** The accounts of a merge in progress. */
  ghost predicate Accounted(t: Merge) {
    |t.p| <= |t.m| && t.leaf <= |t.w| && History(t) && Priced(t)
  }

  lemma AccountStart(w: seq<nat>)
    requires |w| >= 2 && Ascending(w)
    ensures Accounted(Merge(w, [w[0] + w[1]], [], 2))
  {
    hide History, Priced;
    HistoryStart(w);
    PricedStart(w);
  }

  lemma PairParents(t: Merge)
    requires HasItem(t) && HasItem(Take(t)) && |t.p| <= |t.m| && t.leaf <= |t.w|
    ensures Pair(t).w == t.w && |Pair(t).m| == |t.m| + 1 && Pair(t).m[..|t.m|] == t.m
    ensures |t.p| <= |Pair(t).p| && Pair(t).p[..|t.p|] == t.p
    ensures forall i :: |t.p| <= i < |Pair(t).p| ==> Pair(t).p[i] == |t.m|
  {
  }

  lemma AccountPair(t: Merge, hi: nat)
    requires Merging(t, hi) && HasItem(t) && HasItem(Take(t)) && Accounted(t)
    requires Merging(Pair(t), Taken(Take(t))) && |Pair(t).p| <= |t.m|
    ensures Accounted(Pair(t))
  {
    hide History, Priced, Pair, Take, Taken, HasItem, Ordered, Growing, Sum;
    PairParents(t);
    PricedPair(t, hi);
    MergingLeaf(Pair(t), Taken(Take(t)));
    HistoryPair(t, Pair(t));
  }

  /** One round of the merge keeps all accounts. */
  lemma RoundKeeps(t: Merge, hi: nat)
    requires Merging(t, hi) && |t.m| < |t.w| - 1 && Accounted(t)
    ensures HasItem(t) && HasItem(Take(t)) && Merging(Pair(t), Taken(Take(t))) && Accounted(Pair(t))
    ensures Pair(t).w == t.w && |Pair(t).m| == |t.m| + 1
  {
    PairMerging(t, hi);
    PairGrowing(t, hi);
    PairParents(t);
    AccountPair(t, hi);
  }
}
