/** The merging phase of `tdefl_calculate_minimum_redundancy` as a function on values. */
module MergeModel {
  import opened Sums
  import opened Huffman

  /** The state of the merge: leaf weights `w` (sorted), weights `m` of the nodes made so far, parents
      `p` of the nodes consumed so far, and the first leaf not yet consumed. The next node to consume
      is number `|p|`, the next to be made is number `|m|`. */
  datatype Merge = Merge(w: seq<nat>, m: seq<nat>, p: seq<nat>, leaf: nat)

  /** Take the lighter of the two front items; `limit` is the first node number not available. */
  ghost predicate TakesNode(t: Merge, limit: nat)
    requires |t.m| >= limit
  {
    t.leaf >= |t.w| || (|t.p| < limit && t.m[|t.p|] < t.w[t.leaf])
  }

  ghost predicate HasItem(t: Merge) {
    |t.p| < |t.m| || t.leaf < |t.w|
  }

  ghost function Taken(t: Merge): nat
    requires HasItem(t)
  {
    if TakesNode(t, |t.m|) then t.m[|t.p|] else t.w[t.leaf]
  }

  ghost function Take(t: Merge): Merge
    requires HasItem(t)
  {
    if TakesNode(t, |t.m|) then t.(p := t.p + [|t.m|]) else t.(leaf := t.leaf + 1)
  }

  /** The pairing of the two lightest items. */
  ghost function Pair(t: Merge): Merge
    requires HasItem(t) && HasItem(Take(t))
  {
    var u := Take(t);
    Take(u).(m := t.m + [Taken(t) + Taken(u)])
  }

  /** Weights: whatever has been consumed weighs at most `hi`, whatever has not at least `hi`. */
  ghost predicate Ordered(t: Merge, hi: nat) {
    && Ascending(t.w) && (forall i :: 0 <= i < |t.w| ==> t.w[i] >= 1)
    && Ascending(t.m) && (forall i :: 0 <= i < |t.m| ==> t.m[i] >= 2)
    && (forall i :: 0 <= i < |t.p| && i < |t.m| ==> t.m[i] <= hi)
    && (forall i :: |t.p| <= i < |t.m| ==> hi <= t.m[i])
    && (forall i :: 0 <= i < t.leaf && i < |t.w| ==> t.w[i] <= hi)
    && (forall i :: t.leaf <= i < |t.w| ==> hi <= t.w[i])
    && hi >= 1
  }

  /** Parents come later than their children, in the same order, and have at most two of them. */
  ghost predicate Shaped(p: seq<nat>, limit: nat) {
    && (forall i :: 0 <= i < |p| ==> i < p[i] < limit)
    && (forall i, j :: 0 <= i <= j < |p| ==> p[i] <= p[j])
    && (forall i :: 0 <= i && i + 2 < |p| ==> p[i] < p[i + 2])
  }

  /** Along a path to the root the weights grow at least like Fibonacci numbers. */
  ghost predicate Growing(m: seq<nat>, p: seq<nat>)
    requires |p| <= |m|
  {
    && (forall i :: 0 <= i < |p| && p[i] < |m| ==> m[i] < m[p[i]])
    && (forall i :: 0 <= i < |p| && p[i] < |p| && p[p[i]] < |m| ==> m[i] + m[p[i]] <= m[p[p[i]]])
  }

  ghost predicate Weighed(t: Merge) {
    && |t.p| <= |t.m| && t.leaf <= |t.w|
    && Sum(t.m[|t.p|..]) + Sum(t.w[t.leaf..]) == Sum(t.w)
  }

  ghost predicate Merging(t: Merge, hi: nat) {
    && |t.w| >= 2 && 1 <= |t.m| <= |t.w| - 1
    && |t.p| < |t.m| && |t.p| + t.leaf == 2 * |t.m| && t.leaf <= |t.w|
    && Ordered(t, hi) && t.m[|t.m| - 1] <= 2 * hi
    && Shaped(t.p, |t.m|) && Growing(t.m, t.p) && Weighed(t)
  }

  lemma TakeOrdered(t: Merge, hi: nat)
    requires HasItem(t) && Ordered(t, hi) && |t.p| <= |t.m| && t.leaf <= |t.w|
    ensures hi <= Taken(t) && Ordered(Take(t), Taken(t)) && |Take(t).p| <= |t.m| && Take(t).leaf <= |t.w|
  {
  }

  lemma TakeWeighed(t: Merge)
    requires HasItem(t) && |t.p| <= |t.m| && t.leaf <= |t.w|
    ensures Sum(t.m[|t.p|..]) + Sum(t.w[t.leaf..])
         == Taken(t) + Sum(t.m[|Take(t).p|..]) + Sum(t.w[Take(t).leaf..])
  {
    if TakesNode(t, |t.m|) {
      SumDrop(t.m, |t.p|);
    } else {
      SumDrop(t.w, t.leaf);
    }
  }

  lemma TakeParents(t: Merge)
    requires HasItem(t) && |t.p| <= |t.m| && t.leaf <= |t.w|
    ensures Take(t).m == t.m && Take(t).w == t.w && |Take(t).p| <= |t.m| && Take(t).leaf <= |t.w|
    ensures Take(t).p == t.p
         || (Take(t).p == t.p + [|t.m|] && |t.p| < |t.m| && t.m[|t.p|] == Taken(t))
  {
  }

  lemma PairWeighed(t: Merge)
    requires HasItem(t) && HasItem(Take(t)) && Weighed(t)
    ensures Weighed(Pair(t))
  {
    hide TakesNode, Taken, Take, HasItem, Sum;
    var u := Take(t);
    TakeParents(t);
    TakeParents(u);
    TakeWeighed(t);
    TakeWeighed(u);
    SumTail(t.m, Taken(t) + Taken(u), |Take(u).p|);
  }

  lemma PairOrdered(t: Merge, hi: nat)
    requires HasItem(t) && HasItem(Take(t)) && Merging(t, hi)
    ensures hi <= Taken(t) <= Taken(Take(t)) && Ordered(Pair(t), Taken(Take(t)))
    ensures Pair(t).m[|t.m|] <= 2 * Taken(Take(t))
  {
    hide Ordered, Ascending;
    hide Shaped, Growing, Weighed, TakesNode, Taken, Take, HasItem;
    var u := Take(t);
    TakeOrdered(t, hi);
    TakeParents(t);
    TakeOrdered(u, Taken(t));
    TakeParents(u);
    var v := Take(u);
    AppendOrdered(v, Taken(u), Taken(t) + Taken(u));
  }

  lemma AppendOrdered(v: Merge, hi: nat, x: nat)
    requires Ordered(v, hi) && x >= 2 && x >= hi && |v.p| <= |v.m|
    requires v.m != [] ==> v.m[|v.m| - 1] <= x
    ensures Ordered(v.(m := v.m + [x]), hi)
  {
  }

  lemma PairShaped(t: Merge)
    requires HasItem(t) && HasItem(Take(t)) && |t.p| < |t.m| && t.leaf <= |t.w| && Shaped(t.p, |t.m|)
    requires |t.p| + 2 <= |t.m| || t.leaf < |t.w|
    ensures Shaped(Pair(t).p, |t.m| + 1)
  {
    hide TakesNode, Taken, Take, HasItem, Shaped;
    TakeParents(t);
    TakeParents(Take(t));
    ParentsAppend(t.p, Pair(t).p, |t.m|);
  }

  lemma ParentsAppend(p: seq<nat>, q: seq<nat>, n: nat)
    requires Shaped(p, n) && |p| <= |q| <= |p| + 2 && |q| <= n && p == q[..|p|]
    requires forall i :: |p| <= i < |q| ==> q[i] == n
    ensures Shaped(q, n + 1)
  {
    forall i, j | 0 <= i <= j < |q| ensures q[i] <= q[j] {
      if i < |p| { assert q[i] == p[i]; }
    }
    forall i | 0 <= i && i + 2 < |q| ensures q[i] < q[i + 2] {
      assert q[i] == p[i];
    }
  }

  /** Consuming up to two nodes for a new one of weight `x`, each leaving room for a partner of
      weight at least `hi`. */
  lemma GrowStep(m: seq<nat>, p: seq<nat>, q: seq<nat>, hi: nat, x: nat)
    requires |p| <= |q| <= |m| && Growing(m, p) && p == q[..|p|]
    requires forall i :: 0 <= i < |p| ==> p[i] < |m| && m[i] <= hi
    requires forall i :: |p| <= i < |q| ==> q[i] == |m| && m[i] + hi <= x
    requires hi >= 1
    ensures Growing(m + [x], q)
  {
    var n := m + [x];
    forall i | 0 <= i < |q| && q[i] < |n| ensures n[i] < n[q[i]] {
      if i < |p| { assert q[i] == p[i]; }
    }
    forall i | 0 <= i < |q| && q[i] < |q| && q[q[i]] < |n| ensures n[i] + n[q[i]] <= n[q[q[i]]] {
      assert q[i] == p[i];
      if p[i] < |p| { assert q[p[i]] == p[p[i]]; }
    }
  }

  lemma PairGrowing(t: Merge, hi: nat)
    requires HasItem(t) && HasItem(Take(t)) && Merging(t, hi)
    ensures |Pair(t).p| <= |t.m| && Growing(Pair(t).m, Pair(t).p)
  {
    hide Growing, Weighed, Ascending, TakesNode, Taken, Take, HasItem;
    var u := Take(t);
    TakeOrdered(t, hi);
    TakeParents(t);
    TakeOrdered(u, Taken(t));
    TakeParents(u);
    GrowStep(t.m, t.p, Take(u).p, hi, Taken(t) + Taken(u));
  }

  /** One round of the merge keeps everything. */
  lemma PairMerging(t: Merge, hi: nat)
    requires Merging(t, hi) && |t.m| < |t.w| - 1
    ensures HasItem(t) && HasItem(Take(t)) && Merging(Pair(t), Taken(Take(t)))
  {
    hide Ordered, Shaped, Growing, Weighed;
    TakeParents(t);
    TakeParents(Take(t));
    PairOrdered(t, hi);
    PairShaped(t);
    PairGrowing(t, hi);
    PairWeighed(t);
  }

  lemma FirstWeighed(w: seq<nat>)
    requires |w| >= 2
    ensures Weighed(Merge(w, [w[0] + w[1]], [], 2)) && w[0] + w[1] <= Sum(w)
  {
    assert w[0..] == w;
    SumDrop(w, 0);
    SumDrop(w, 1);
    hide Sum;
    assert [w[0] + w[1]][0..] == [w[0] + w[1]];
    SumOne(w[0] + w[1]);
  }

  lemma FirstMerge(w: seq<nat>)
    requires |w| >= 2 && Ascending(w) && forall i :: 0 <= i < |w| ==> w[i] >= 1
    ensures Merging(Merge(w, [w[0] + w[1]], [], 2), w[1])
    ensures w[0] + w[1] <= Sum(w)
  {
    hide Weighed, Sum;
    FirstWeighed(w);
  }

  lemma LastWeight(t: Merge)
    requires Weighed(t) && |t.p| < |t.m|
    ensures t.m[|t.m| - 1] <= Sum(t.w)
  {
    SumElement(t.m[|t.p|..], |t.m| - 1 - |t.p|);
  }
}
