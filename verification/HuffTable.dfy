/** From symbol counts to Huffman codes (`tdefl_optimize_huffman_table`). */
module HuffTable {
  import opened Bits
  import opened Canonical
  import opened LengthLimit
  import opened Sums
  import opened MinRedundancy
  import opened RadixSort
  import opened SymbolList
  import opened Huffman
  import opened LimitCost

  const MAX_SYMBOLS: nat := 288

  /** One row of `m_huff_count`, `m_huff_codes` and `m_huff_code_sizes`. */
  class Table {
    const count: array<nat>
    const codes: array<nat>
    const sizes: array<nat>

    constructor ()
      ensures count.Length == codes.Length == sizes.Length == MAX_SYMBOLS
      ensures fresh(count) && fresh(codes) && fresh(sizes)
      ensures count != codes && count != sizes && codes != sizes
      ensures forall i :: 0 <= i < MAX_SYMBOLS ==> count[i] == 0
    {
      count := new nat[MAX_SYMBOLS](i => 0);
      codes := new nat[MAX_SYMBOLS](i => 0);
      sizes := new nat[MAX_SYMBOLS](i => 0);
    }

    ghost predicate Separate() {
      && count.Length == codes.Length == sizes.Length == MAX_SYMBOLS
      && count != codes && count != sizes && codes != sizes
    }
  }

  /** The first codes hold, bit-reversed, the canonical codes of `lens`. */
  ghost predicate CodesFor(codes: seq<nat>, lens: seq<nat>) {
    && |lens| <= |codes|
    && forall s :: 0 <= s < |lens| && lens[s] > 0 ==> codes[s] == Val(CodeBits(lens, s))
  }

  /** The lengths suit the counts: exactly the symbols that occur have a code. */
  ghost predicate LengthsFor(lens: seq<nat>, count: seq<nat>, limit: nat) {
    && |lens| == |count| && Limited(lens, limit) && Usable(lens)
    && forall s :: 0 <= s < |lens| ==> (lens[s] > 0 <==> count[s] > 0)
  }

  // ---- Collecting and counting

  method Collect(count: array<nat>, len: nat) returns (syms: seq<SymFreq>)
    requires len <= count.Length
    ensures syms == Collected(count[..len])
  {
    syms := [];
    assert count[..0] == [];
    for i := 0 to len
      invariant syms == Collected(count[..i])
    {
      assert count[..i + 1][..i] == count[..i];
      if count[i] != 0 {
        syms := syms + [SymFreq(count[i], i)];
      }
    }
  }

  /** `num[l]` entries of `ks` have the value `l`. */
  ghost predicate HistogramOf(num: seq<int>, ks: seq<nat>) {
    |num| == MAX_SUPPORTED + 1 && forall l :: 1 <= l < |num| ==> num[l] == Count(ks, l)
  }

  lemma HistogramReady(num: seq<int>, ks: seq<nat>, total: nat, limit: nat)
    requires HistogramOf(num, ks) && num[0] >= 0 && GoodLengths(ks, total) && 1 <= limit <= MAX_SUPPORTED
    ensures |ks| >= 2 ==> CompleteHistogram(num, |ks|, MAX_SUPPORTED)
    ensures |ks| <= 1 ==> (forall i :: 0 <= i <= limit ==> num[i] >= 0) && SumTo(num, limit) == |ks|
  {
    if |ks| >= 2 {
      FreeOfCounts(num, ks, MAX_SUPPORTED);
      UsedAll(ks, MAX_SUPPORTED);
    } else {
      FreeOfCounts(num, ks, limit);
      UsedAll(ks, limit);
    }
  }

  method CountSizes(a: array<SymFreq>) returns (num: array<int>)
    requires forall i :: 0 <= i < a.Length ==> a[i].key <= MAX_SUPPORTED
    ensures fresh(num) && num.Length == MAX_SUPPORTED + 1
    ensures HistogramOf(num[..], Keys(a[..])) && num[0] >= 0
  {
    num := new int[MAX_SUPPORTED + 1](i => 0);
    ghost var ks := Keys(a[..]);
    for i := 0 to a.Length
      invariant num[0] >= 0
      invariant forall l :: 1 <= l < num.Length ==> num[l] == Count(ks[..i], l)
    {
      assert ks[..i + 1][..i] == ks[..i];
      num[a[i].key] := num[a[i].key] + 1;
    }
    assert ks[..a.Length] == ks;
  }

  // ---- Histogram to lengths

  /** Entries `j..` of `syms` have received the lengths up to `i`, `left` of length `i` being due. */
  ghost predicate Assigned(sizes: seq<nat>, syms: seq<SymFreq>, num: seq<int>, j: nat, i: nat, left: nat, len: nat)
  {
    && |sizes| == MAX_SYMBOLS && len <= MAX_SYMBOLS && j <= |syms| && 1 <= i < |num|
    && (forall k :: 0 <= k < |syms| ==> syms[k].sym < len)
    && (forall k :: 0 <= k < j ==> sizes[syms[k].sym] == 0)
    && (forall k :: j <= k < |syms| ==> 1 <= sizes[syms[k].sym] <= i)
    && (forall x :: 0 <= x < MAX_SYMBOLS && sizes[x] > 0 ==> exists k :: j <= k < |syms| && syms[k].sym == x)
    && (forall l :: 1 <= l < i ==> Count(sizes[..len], l) == num[l])
    && Count(sizes[..len], i) + left == num[i]
    && (forall l :: l > i ==> Count(sizes[..len], l) == 0)
    && SumTo(num, i - 1) + num[i] - left == |syms| - j
  }

  /** The symbols from `j` on have, in this order, descending lengths up to `i`, as many of each as `num`
      says but for `left` of length `i`. */
  ghost predicate Handed(sizes: seq<nat>, syms: seq<SymFreq>, num: seq<int>, j: nat, i: nat, left: nat) {
    && j <= |syms| && 1 <= i < |num| && (forall k :: 0 <= k < |syms| ==> syms[k].sym < |sizes|)
    && HandedOut(Picked(syms[j..], sizes), num, i, left)
  }

  ghost predicate HandedOut(r: seq<nat>, num: seq<int>, i: nat, left: nat)
    requires 1 <= i < |num|
  {
    && Descending(r) && Limited(r, i) && Count(r, i) + left == num[i]
    && forall l :: 1 <= l < i ==> Count(r, l) == num[l]
  }

  lemma HandedOutPush(r: seq<nat>, num: seq<int>, i: nat, left: nat)
    requires 1 <= i < |num| && HandedOut(r, num, i, left) && left > 0
    ensures HandedOut([i] + r, num, i, left - 1)
  {
    forall l ensures Count([i] + r, l) == Count(r, l) + if l == i then 1 else 0 {
      CountSplit([i], r, l);
      assert [i][..0] == [];
    }
  }

  lemma HandedStep(sizes: seq<nat>, syms: seq<SymFreq>, num: seq<int>, j: nat, i: nat, left: nat)
    requires Handed(sizes, syms, num, j, i, left) && j > 0 && left > 0 && DistinctSyms(syms)
    ensures Handed(sizes[syms[j - 1].sym := i], syms, num, j - 1, i, left - 1)
  {
    var r := sizes[syms[j - 1].sym := i];
    assert Picked(syms[j - 1..], r) == [i] + Picked(syms[j..], sizes);
    HandedOutPush(Picked(syms[j..], sizes), num, i, left);
  }

  lemma HandedNext(sizes: seq<nat>, syms: seq<SymFreq>, num: seq<int>, j: nat, i: nat)
    requires Handed(sizes, syms, num, j, i, 0) && i + 1 < |num| && num[i + 1] >= 0
    ensures Handed(sizes, syms, num, j, i + 1, num[i + 1])
  {
    CountAbsent(Picked(syms[j..], sizes), i + 1);
  }

  lemma HandedStart(sizes: seq<nat>, syms: seq<SymFreq>, num: seq<int>)
    requires |num| > 1 && num[1] >= 0 && forall k :: 0 <= k < |syms| ==> syms[k].sym < |sizes|
    ensures Handed(sizes, syms, num, |syms|, 1, num[1])
  {
    assert Picked(syms[|syms|..], sizes) == [];
  }

  lemma AssignedStep(sizes: seq<nat>, syms: seq<SymFreq>, num: seq<int>, j: nat, i: nat, left: nat, len: nat)
    requires Assigned(sizes, syms, num, j, i, left, len) && j > 0 && left > 0 && DistinctSyms(syms)
    ensures Assigned(sizes[syms[j - 1].sym := i], syms, num, j - 1, i, left - 1, len)
  {
    var x := syms[j - 1].sym;
    var r := sizes[x := i];
    assert r[..len] == sizes[..len][x := i];
    forall l: nat ensures Count(r[..len], l)
      == Count(sizes[..len], l) - (if l == 0 then 1 else 0) + (if l == i then 1 else 0) {
      CountUpdate(sizes[..len], x, i, l);
    }
    forall y | 0 <= y < MAX_SYMBOLS && r[y] > 0 ensures exists k :: j - 1 <= k < |syms| && syms[k].sym == y {
      if y != x {
        var k :| j <= k < |syms| && syms[k].sym == y;
      }
    }
  }

  lemma AssignedNext(sizes: seq<nat>, syms: seq<SymFreq>, num: seq<int>, j: nat, i: nat, len: nat)
    requires Assigned(sizes, syms, num, j, i, 0, len) && i + 1 < |num| && num[i + 1] >= 0
    ensures Assigned(sizes, syms, num, j, i + 1, num[i + 1], len)
  {
  }

  lemma AssignedStart(sizes: seq<nat>, syms: seq<SymFreq>, num: seq<int>, len: nat)
    requires |sizes| == MAX_SYMBOLS && len <= MAX_SYMBOLS && |num| > 1 && num[1] >= 0
    requires forall k :: 0 <= k < |syms| ==> syms[k].sym < len
    requires forall x :: 0 <= x < MAX_SYMBOLS ==> sizes[x] == 0
    ensures Assigned(sizes, syms, num, |syms|, 1, num[1], len)
  {
    forall l: nat | l > 0 ensures Count(sizes[..len], l) == 0 { CountAbsent(sizes[..len], l); }
  }

  lemma AssignedRoom(sizes: seq<nat>, syms: seq<SymFreq>, num: seq<int>, j: nat, i: nat, left: nat, limit: nat,
                     len: nat)
    requires Assigned(sizes, syms, num, j, i, left, len) && left > 0 && i <= limit < |num|
    requires (forall i :: 0 <= i <= limit ==> num[i] >= 0) && SumTo(num, limit) == |syms|
    ensures 0 < j <= |syms| && syms[j - 1].sym < len <= MAX_SYMBOLS
  {
    SumGrows(num, i, limit);
  }

  /** Shortest lengths go to the most frequent symbols, which come last. */
  method AssignSizes(sizes: array<nat>, sorted: array<SymFreq>, num: array<int>, limit: nat, len: nat)
    requires sizes.Length == MAX_SYMBOLS && len <= MAX_SYMBOLS
    requires 1 <= limit < num.Length && DistinctSyms(sorted[..])
    requires forall k :: 0 <= k < sorted.Length ==> sorted[k].sym < len
    requires (forall i :: 0 <= i <= limit ==> num[i] >= 0) && SumTo(num[..], limit) == sorted.Length
    modifies sizes
    ensures Assigned(sizes[..], sorted[..], num[..], 0, limit, 0, len)
    ensures Handed(sizes[..], sorted[..], num[..], 0, limit, 0)
  {
    hide Assigned, Handed, SumTo;
    for k := 0 to MAX_SYMBOLS
      invariant forall x :: 0 <= x < k ==> sizes[x] == 0
    {
      sizes[k] := 0;
    }
    ghost var h, syms := num[..], sorted[..];
    var j: nat := sorted.Length;
    AssignedStart(sizes[..], syms, h, len);
    HandedStart(sizes[..], syms, h);
    var i: nat := 1;
    while true
      invariant 1 <= i <= limit && num[..] == h
      invariant Assigned(sizes[..], syms, h, j, i, num[i], len) && Handed(sizes[..], syms, h, j, i, num[i])
      decreases limit - i
    {
      var l := num[i];
      while l > 0
        invariant l >= 0
        invariant Assigned(sizes[..], syms, h, j, i, l, len) && Handed(sizes[..], syms, h, j, i, l)
      {
        ghost var s := sizes[..];
        AssignedRoom(s, syms, h, j, i, l, limit, len);
        AssignedStep(s, syms, h, j, i, l, len);
        HandedStep(s, syms, h, j, i, l);
        j := j - 1;
        sizes[sorted[j].sym] := i;
        assert sizes[..] == s[syms[j].sym := i];
        l := l - 1;
      }
      if i == limit {
        break;
      }
      AssignedNext(sizes[..], syms, h, j, i, len);
      HandedNext(sizes[..], syms, h, j, i);
      i := i + 1;
    }
    AssignedDone(sizes[..], syms, h, j, limit, len);
  }

  lemma AssignedDone(sizes: seq<nat>, syms: seq<SymFreq>, num: seq<int>, j: nat, limit: nat, len: nat)
    requires 1 <= limit < |num| && Assigned(sizes, syms, num, j, limit, 0, len) && SumTo(num, limit) == |syms|
    ensures j == 0
  {
  }

  // ---- Codes

  /** `next_code` once the first `i` symbols have been given codes. */
  ghost predicate NextOk(next: seq<nat>, lens: seq<nat>, limit: nat, i: nat) {
    && |next| == MAX_SUPPORTED + 1 && limit <= MAX_BITS && i <= |lens|
    && forall l :: 1 <= l <= limit ==> next[l] == FirstCode(lens, l) + Count(lens[..i], l)
  }

  lemma NextStep(next: seq<nat>, lens: seq<nat>, limit: nat, i: nat)
    requires NextOk(next, lens, limit, i) && i < |lens| && Limited(lens, limit)
    ensures lens[i] == 0 ==> NextOk(next, lens, limit, i + 1)
    ensures lens[i] > 0 ==> next[lens[i]] == Code(lens, i)
    ensures lens[i] > 0 ==> NextOk(next[lens[i] := next[lens[i]] + 1], lens, limit, i + 1)
  {
    assert lens[..i + 1][..i] == lens[..i];
  }

  method FirstCodes(num: array<int>, limit: nat, ghost lens: seq<nat>) returns (nextCode: array<nat>)
    requires num.Length == MAX_SUPPORTED + 1 && 1 <= limit <= MAX_BITS
    requires forall l :: 1 <= l <= limit ==> num[l] == Count(lens, l)
    ensures fresh(nextCode) && nextCode.Length == MAX_SUPPORTED + 1 && NextOk(nextCode[..], lens, limit, 0)
  {
    hide FirstCode, Count;
    nextCode := new nat[MAX_SUPPORTED + 1](i => 0);
    CodesStart(lens);
    for i := 2 to limit + 1
      invariant forall l :: 1 <= l < i ==> nextCode[l] == FirstCode(lens, l)
    {
      CodesStep(lens, i - 1);
      nextCode[i] := (nextCode[i - 1] + num[i - 1]) * 2;
    }
    assert lens[..0] == [];
    NothingCounted();
  }

  /** The part of the code table that depends on the sizes only (both branches end with it). */
  method AssignCodes(codes: array<nat>, sizes: array<nat>, num: array<int>, limit: nat, len: nat)
    requires codes != sizes && codes.Length == sizes.Length == MAX_SYMBOLS && len <= MAX_SYMBOLS
    requires num.Length == MAX_SUPPORTED + 1 && 1 <= limit <= MAX_BITS
    requires Limited(sizes[..len], limit)
    requires forall l :: 1 <= l <= limit ==> num[l] == Count(sizes[..len], l)
    modifies codes
    ensures CodesFor(codes[..], sizes[..len])
  {
    hide NextOk, Code, MsbBits, Val;
    ghost var lens := sizes[..len];
    var nextCode := FirstCodes(num, limit, lens);
    for i := 0 to len
      invariant sizes[..len] == lens && NextOk(nextCode[..], lens, limit, i)
      invariant forall s :: 0 <= s < i && lens[s] > 0 ==> codes[s] == Val(CodeBits(lens, s))
    {
      ghost var next := nextCode[..];
      NextStep(next, lens, limit, i);
      var size := sizes[i];
      if size != 0 {
        var code := nextCode[size];
        nextCode[size] := nextCode[size] + 1;
        assert nextCode[..] == next[size := next[size] + 1];
        var rev := ReverseCode(code, size);
        codes[i] := rev;
      }
    }
  }

  // ---- The whole routine

  lemma {:induction false} SumZeroTail(lens: seq<nat>, l: nat, m: nat)
    requires l <= m && forall i :: l < i <= m ==> Count(lens, i) == 0
    ensures Used(lens, m) == Used(lens, l)
    decreases m
  {
    if l < m { SumZeroTail(lens, l, m - 1); }
  }

  lemma AssignedUsable(sizes: seq<nat>, syms: seq<SymFreq>, num: seq<int>, limit: nat, len: nat, count: seq<nat>)
    requires Assigned(sizes, syms, num, 0, limit, 0, len) && |count| == len
    requires 1 <= limit <= MAX_BITS && |num| > MAX_BITS && SumTo(num, limit) == |syms|
    requires |syms| >= 2 ==> FreeOf(num, limit) == 0
    requires Naming(syms, count)
    ensures LengthsFor(sizes[..len], count, limit)
  {
    var lens := sizes[..len];
    FreeOfCounts(num, lens, limit);
    SumZeroTail(lens, limit, MAX_BITS);
    if |syms| >= 2 {
      FreeAfterLast(lens, limit, MAX_BITS);
    }
    forall x | 0 <= x < len ensures lens[x] <= limit && (lens[x] > 0 <==> count[x] > 0) {
      if lens[x] > 0 { var k :| 0 <= k < |syms| && syms[k].sym == x; }
    }
  }

  /** The branch for measured counts: sort, compute lengths, limit them, hand them out. */
  method LengthsFromCounts(t: Table, len: nat, limit: nat) returns (num: array<int>)
    requires t.Separate() && len <= MAX_SYMBOLS && 1 <= limit <= MAX_BITS && len <= Pow2(limit)
    requires Sum(t.count[..len]) <= 65535
    modifies t.sizes
    ensures LengthsFor(t.sizes[..len], t.count[..len], limit)
    ensures forall i :: len <= i < MAX_SYMBOLS ==> t.sizes[i] == 0
    ensures fresh(num) && num.Length == MAX_SUPPORTED + 1
    ensures forall l :: 1 <= l <= limit ==> num[l] == Count(t.sizes[..len], l)
    ensures limit == MAX_BITS ==> NearOptimal(t.sizes[..len], t.count[..len])
  {
    hide NearOptimal;
    ghost var count := t.count[..len];
    var used := Collect(t.count, len);
    CollectedIs(count);
    var syms0 := new SymFreq[|used|](i requires 0 <= i < |used| => used[i]);
    assert syms0[..] == used;
    var syms1 := new SymFreq[|used|](i => SymFreq(0, 0));
    forall x | x in syms0[..] ensures x.key < 65536 { SumElement(count, x.sym); }
    var sorted := RadixSortSyms(syms0, syms1);
    num := LengthsOfSorted(t, sorted, len, limit);
  }

  /** `n` codes of the lengths 1 to `limit`, complete if there are two or more. */
  ghost predicate Allotment(num: seq<int>, n: nat, limit: nat) {
    && limit < |num|
    && (forall i :: 0 <= i <= limit ==> num[i] >= 0)
    && SumTo(num, limit) == n
    && (n >= 2 ==> FreeOf(num, limit) == 0)
  }

  /** The histogram `num` was made by limiting optimal lengths `l` of the weights `w`. */
  ghost predicate LimitOf(num: seq<int>, w: seq<nat>, l: seq<nat>, cut: nat, limit: nat) {
    && |num| == MAX_SUPPORTED + 1 && 1 <= limit <= MAX_BITS && |l| == |w| && Optimal(w, l)
    && (|w| >= 2 ==>
         && Descending(l) && Limited(l, 32) && Free(l, 32) == 0 && Light(w, l, 0)
         && exists h :: HistogramOf(h, l) && Confined(num, h, cut, |w|, limit))
    && (|w| == 1 ==> num[1] == 1)
  }

  lemma LimitOfReady(num: seq<int>, h: seq<int>, w: seq<nat>, l: seq<nat>, cut: nat, limit: nat, total: nat)
    requires |num| == MAX_SUPPORTED + 1 && 1 <= limit <= MAX_BITS && |l| == |w| && Optimal(w, l)
    requires GoodLengths(l, total) && Light(w, l, 0) && HistogramOf(h, l)
    requires |w| >= 2 ==> Confined(num, h, cut, |w|, limit)
    requires |w| <= 1 ==> num == h
    ensures LimitOf(num, w, l, cut, limit)
  {
    hide Optimal, Light, Confined;
    if |w| == 1 {
      assert l == [1] && l[..0] == [];
    }
  }

  /** Minimum-redundancy lengths of sorted frequencies, as a histogram, limited. */
  method LimitedLengths(sorted: array<SymFreq>, limit: nat) returns (num: array<int>, ghost l: seq<nat>, ghost cut: nat)
    requires Frequencies(Keys(sorted[..])) && 1 <= limit <= MAX_BITS && sorted.Length <= Pow2(limit)
    modifies sorted
    ensures Syms(sorted[..]) == Syms(old(sorted[..]))
    ensures fresh(num) && num.Length == MAX_SUPPORTED + 1 && Allotment(num[..], sorted.Length, limit)
    ensures LimitOf(num[..], Keys(old(sorted[..])), l, cut, limit)
  {
    hide Frequencies, GoodLengths, HistogramOf, Sum, Keys, Syms, Light, Optimal, Confined, LimitOf;
    ghost var w := Keys(sorted[..]);
    ghost var total := Sum(Keys(sorted[..]));
    CalculateMinimumRedundancy(sorted);
    KeyLimits(sorted[..], total);
    num := CountSizes(sorted);
    HistogramReady(num[..], Keys(sorted[..]), total, limit);
    l := Keys(sorted[..]);
    ghost var h := num[..];
    cut := EnforceMaxCodeSize(num, sorted.Length, limit);
    LimitOfReady(num[..], h, w, l, cut, limit, total);
  }

  /** Lengths that cost at most two bits in 352 per symbol more than those of any prefix code. */
  ghost predicate NearOptimal(lens: seq<nat>, count: seq<nat>) {
    && |lens| == |count|
    && forall ref: seq<nat> :: |ref| == |count| && Codable(ref) ==>
         352 * Cost(count, lens) <= 352 * Cost(count, ref) + 2 * |count| * Sum(count)
  }

  /** A code for all symbols is one for those listed. */
  lemma PickedCodable(b: seq<SymFreq>, count: seq<nat>, ref: seq<nat>)
    requires multiset(b) == multiset(Collected(count)) && |ref| == |count| && Codable(ref)
    requires forall k :: 0 <= k < |b| ==> b[k].sym < |ref|
    ensures Codable(Picked(b, ref))
  {
    hide Free, Shares, Total;
    var m: nat :| Limited(ref, m) && Free(ref, m) >= 0;
    PickedTotal(b, ref, m);
    TotalPermuted(b, Collected(count), Portions(ref, m));
    CollectedTotal(count, ref, m);
    assert ref[..|count|] == ref;
    FreeIsShares(ref, m);
    FreeIsShares(Picked(b, ref), m);
    assert Limited(Picked(b, ref), m);
  }

  /** The cost of a list is the cost of the table. */
  lemma PickedCost(b: seq<SymFreq>, count: seq<nat>, lens: seq<nat>)
    requires multiset(b) == multiset(Collected(count)) && |lens| == |count|
    requires forall k :: 0 <= k < |b| ==> b[k].sym < |lens|
    ensures Cost(Keys(b), Picked(b, lens)) == Cost(count, lens)
  {
    hide Cost, Total;
    PickedTotal(b, lens, 0);
    TotalPermuted(b, Collected(count), Prices(lens));
    CollectedTotal(count, lens, 0);
    assert lens[..|count|] == lens;
  }

  /** The lengths handed out cost hardly more than the optimal ones. */
  lemma HandedCost(w: seq<nat>, l: seq<nat>, r: seq<nat>, num: seq<int>, cut: nat)
    requires |r| == |w| && LimitOf(num, w, l, cut, MAX_BITS) && HandedOut(r, num, MAX_BITS, 0)
    requires Allotment(num, |w|, MAX_BITS)
    ensures |l| == |w|
    ensures if |w| >= 2 then 352 * Cost(w, r) <= 352 * Cost(w, l) + 2 * |w| * Sum(w) else r == seq(|w|, i => 1)
  {
    hide Cost, Sum, Light, Optimal, Descending, Confined;
    if |w| >= 2 {
      var h :| HistogramOf(h, l) && Confined(num, h, cut, |w|, MAX_BITS);
      FreeOfCounts(num, r, MAX_BITS);
      hide Free, FreeOf, Count;
      LimitedCost(w, l, r, h, num, cut);
    } else if |w| == 1 {
      assert r[..0] == [] && Count(r, 1) == 1;
    }
  }

  lemma OnesCheapest(w: seq<nat>, v: seq<nat>)
    requires |v| == |w| <= 1 && forall i :: 0 <= i < |v| ==> v[i] >= 1
    ensures Cost(w, seq(|w|, i => 1)) <= Cost(w, v)
  {
    CostShorter(w, v, seq(|w|, i => 1));
  }

  lemma NearReady(b: seq<SymFreq>, count: seq<nat>, sizes: seq<nat>, l: seq<nat>, num: seq<int>, cut: nat)
    requires multiset(b) == multiset(Collected(count)) && |count| <= |sizes|
    requires forall k :: 0 <= k < |b| ==> b[k].sym < |count|
    requires LimitOf(num, Keys(b), l, cut, MAX_BITS) && HandedOut(Picked(b, sizes), num, MAX_BITS, 0)
    requires Allotment(num, |b|, MAX_BITS)
    ensures NearOptimal(sizes[..|count|], count)
  {
    hide Cost, Sum, Picked, Codable, LimitOf, HandedOut, Allotment, Collected, Total;
    var lens, w, n := sizes[..|count|], Keys(b), |count|;
    SamePicked(b, sizes, n);
    PickedCost(b, count, lens);
    KeysTotal(b);
    TotalPermuted(b, Collected(count), Weights());
    CollectedTotal(count, count, 0);
    CollectedIs(count);
    assert |multiset(b)| == |multiset(Collected(count))|;
    HandedCost(w, l, Picked(b, sizes), num, cut);
    LimitOfOptimal(w, l, num, cut);
    forall ref: seq<nat> | |ref| == n && Codable(ref)
      ensures 352 * Cost(count, lens) <= 352 * Cost(count, ref) + 2 * n * Sum(count)
    {
      PickedCost(b, count, ref);
      PickedCodable(b, count, ref);
      CodablePositive(Picked(b, ref));
      if |w| <= 1 { OnesCheapest(w, Picked(b, ref)); }
      Smaller(2 * |w|, 2 * n, Sum(count));
    }
  }

  lemma CodablePositive(v: seq<nat>)
    requires Codable(v)
    ensures forall i :: 0 <= i < |v| ==> v[i] >= 1
  {
  }

  lemma LimitOfOptimal(w: seq<nat>, l: seq<nat>, num: seq<int>, cut: nat)
    requires LimitOf(num, w, l, cut, MAX_BITS)
    ensures |l| == |w| && Optimal(w, l)
  {
  }

  lemma SamePicked(b: seq<SymFreq>, sizes: seq<nat>, n: nat)
    requires n <= |sizes| && forall k :: 0 <= k < |b| ==> b[k].sym < n
    ensures Picked(b, sizes[..n]) == Picked(b, sizes)
  {
  }

  method LengthsOfSorted(t: Table, sorted: array<SymFreq>, len: nat, limit: nat) returns (num: array<int>)
    requires t.Separate() && len <= MAX_SYMBOLS && 1 <= limit <= MAX_BITS && len <= Pow2(limit)
    requires Sum(t.count[..len]) <= 65535
    requires SortedKeys(sorted[..]) && multiset(sorted[..]) == multiset(Collected(t.count[..len]))
    modifies t.sizes, sorted
    ensures LengthsFor(t.sizes[..len], t.count[..len], limit)
    ensures forall i :: len <= i < MAX_SYMBOLS ==> t.sizes[i] == 0
    ensures fresh(num) && num.Length == MAX_SUPPORTED + 1
    ensures forall l :: 1 <= l <= limit ==> num[l] == Count(t.sizes[..len], l)
    ensures limit == MAX_BITS ==> NearOptimal(t.sizes[..len], t.count[..len])
  {
    hide Handed, LimitOf, Allotment, NearOptimal, Naming, Count;
    hide Frequencies, Assigned, Usable, Sum, Keys, Syms, Collected, SortedKeys, SumTo, FreeOf, LengthsFor;
    ghost var count, b := t.count[..len], sorted[..];
    SortedNaming(b, count);
    ghost var l, cut;
    num, l, cut := LimitedLengths(sorted, limit);
    AllotmentFacts(num[..], sorted.Length, limit);
    SameSyms(b, sorted[..], count);
    NamingParts(sorted[..], count);
    AssignSizes(t.sizes, sorted, num, limit, len);
    SizesReady(t.sizes[..], b, sorted[..], num[..], limit, count, l, cut);
  }

  /** The entries name exactly the symbols that occur, each once. */
  ghost predicate Naming(syms: seq<SymFreq>, count: seq<nat>) {
    && DistinctSyms(syms)
    && (forall k :: 0 <= k < |syms| ==> syms[k].sym < |count| && count[syms[k].sym] > 0)
    && (forall x :: 0 <= x < |count| && count[x] > 0 ==> exists k :: 0 <= k < |syms| && syms[k].sym == x)
  }

  lemma NamingParts(syms: seq<SymFreq>, count: seq<nat>)
    requires Naming(syms, count)
    ensures DistinctSyms(syms) && forall k :: 0 <= k < |syms| ==> syms[k].sym < |count|
  {
  }

  lemma SortedNaming(b: seq<SymFreq>, count: seq<nat>)
    requires SortedKeys(b) && multiset(b) == multiset(Collected(count)) && Sum(count) <= 65535
    ensures Frequencies(Keys(b)) && |b| <= |count| && Naming(b, count)
  {
    hide Naming, Collected, Frequencies, Keys, SortedKeys, Sum;
    FrequenciesOf(b, count);
    PermutedNaming(b, count);
  }

  lemma PermutedNaming(b: seq<SymFreq>, count: seq<nat>)
    requires multiset(b) == multiset(Collected(count))
    ensures |b| <= |count| && Naming(b, count)
  {
    hide Collected, DistinctSyms;
    CollectedIs(count);
    DistinctPermuted(Collected(count), b, count);
    assert |multiset(b)| == |multiset(Collected(count))|;
    forall k | 0 <= k < |b| ensures b[k].sym < |count| && count[b[k].sym] > 0 {
      assert b[k] in multiset(b);
    }
    forall x | 0 <= x < |count| && count[x] > 0 ensures exists k :: 0 <= k < |b| && b[k].sym == x {
      assert SymFreq(count[x], x) in multiset(b);
    }
  }

  /** What the sizes handed out are worth. */
  lemma SizesReady(sizes: seq<nat>, b: seq<SymFreq>, syms: seq<SymFreq>, num: seq<int>, limit: nat, count: seq<nat>,
                   l: seq<nat>, cut: nat)
    requires Assigned(sizes, syms, num, 0, limit, 0, |count|) && Handed(sizes, syms, num, 0, limit, 0)
    requires Naming(syms, count) && Syms(syms) == Syms(b) && |b| == |syms| && |count| <= |sizes| == MAX_SYMBOLS
    requires 1 <= limit <= MAX_BITS && |num| == MAX_SUPPORTED + 1 && Allotment(num, |b|, limit)
    requires multiset(b) == multiset(Collected(count)) && LimitOf(num, Keys(b), l, cut, limit)
    ensures LengthsFor(sizes[..|count|], count, limit)
    ensures forall i :: |count| <= i < MAX_SYMBOLS ==> sizes[i] == 0
    ensures forall k :: 1 <= k <= limit ==> num[k] == Count(sizes[..|count|], k)
    ensures limit == MAX_BITS ==> NearOptimal(sizes[..|count|], count)
  {
    hide Handed, LimitOf, Allotment, NearOptimal, Assigned, Usable, Keys, Syms, Collected, SumTo, FreeOf, LengthsFor;
    AllotmentFacts(num, |b|, limit);
    NamingParts(syms, count);
    AssignedUsable(sizes, syms, num, limit, |count|, count);
    AssignedCounts(sizes, syms, num, limit, |count|);
    if limit == MAX_BITS {
      NearFromHanded(sizes, b, syms, num, count, l, cut);
    }
  }

  lemma NearFromHanded(sizes: seq<nat>, b: seq<SymFreq>, syms: seq<SymFreq>, num: seq<int>, count: seq<nat>,
                       l: seq<nat>, cut: nat)
    requires Syms(syms) == Syms(b) && Handed(sizes, syms, num, 0, MAX_BITS, 0) && |count| <= |sizes|
    requires forall k :: 0 <= k < |syms| ==> syms[k].sym < |count|
    requires multiset(b) == multiset(Collected(count)) && Allotment(num, |b|, MAX_BITS)
    requires LimitOf(num, Keys(b), l, cut, MAX_BITS)
    ensures NearOptimal(sizes[..|count|], count)
  {
    hide LimitOf, Allotment, NearOptimal, Handed, HandedOut, Syms, Keys, Collected;
    HandedLengths(sizes, b, syms, num, count);
    NearReady(b, count, sizes, l, num, cut);
  }

  lemma AllotmentFacts(num: seq<int>, n: nat, limit: nat)
    requires Allotment(num, n, limit)
    ensures limit < |num| && (forall i :: 0 <= i <= limit ==> num[i] >= 0) && SumTo(num, limit) == n
    ensures n >= 2 ==> FreeOf(num, limit) == 0
  {
  }

  lemma HandedLengths(sizes: seq<nat>, b: seq<SymFreq>, syms: seq<SymFreq>, num: seq<int>, count: seq<nat>)
    requires Syms(syms) == Syms(b) && Handed(sizes, syms, num, 0, MAX_BITS, 0) && |count| <= |sizes|
    requires forall k :: 0 <= k < |syms| ==> syms[k].sym < |count|
    ensures forall k :: 0 <= k < |b| ==> b[k].sym < |count|
    ensures MAX_BITS < |num| && HandedOut(Picked(b, sizes), num, MAX_BITS, 0)
  {
    assert |Syms(syms)| == |Syms(b)|;
    forall k | 0 <= k < |b| ensures b[k].sym == syms[k].sym {
      assert Syms(b)[k] == Syms(syms)[k];
    }
    assert syms[0..] == syms;
    assert Picked(b, sizes) == Picked(syms, sizes);
  }

  lemma KeyLimits(a: seq<SymFreq>, total: nat)
    requires GoodLengths(Keys(a), total)
    ensures |Keys(a)| == |a| && forall i :: 0 <= i < |a| ==> a[i].key <= MAX_SUPPORTED
  {
    assert forall i :: 0 <= i < |a| ==> Keys(a)[i] == a[i].key;
  }

  lemma AssignedCounts(sizes: seq<nat>, syms: seq<SymFreq>, num: seq<int>, limit: nat, len: nat)
    requires 1 <= limit < |num| && Assigned(sizes, syms, num, 0, limit, 0, len)
    ensures forall l :: 1 <= l <= limit ==> num[l] == Count(sizes[..len], l)
    ensures forall x :: len <= x < MAX_SYMBOLS ==> sizes[x] == 0
  {
  }

  lemma SameSyms(b: seq<SymFreq>, a: seq<SymFreq>, count: seq<nat>)
    requires Syms(a) == Syms(b) && Naming(b, count)
    ensures |a| == |b| && Naming(a, count)
  {
    assert |Syms(a)| == |Syms(b)|;
    forall k | 0 <= k < |a| ensures a[k].sym == b[k].sym {
      assert Syms(a)[k] == Syms(b)[k];
    }
    forall x | 0 <= x < |count| && count[x] > 0 ensures exists k :: 0 <= k < |a| && a[k].sym == x {
      var k :| 0 <= k < |b| && b[k].sym == x;
      assert a[k].sym == x;
    }
  }

  /** The branch for given sizes: count them. */
  method CountGiven(t: Table, len: nat) returns (num: array<int>)
    requires t.Separate() && len <= MAX_SYMBOLS && Limited(t.sizes[..len], MAX_SUPPORTED)
    ensures fresh(num) && num.Length == MAX_SUPPORTED + 1
    ensures forall l :: 1 <= l <= MAX_SUPPORTED ==> num[l] == Count(t.sizes[..len], l)
  {
    num := new int[MAX_SUPPORTED + 1](i => 0);
    ghost var lens := t.sizes[..len];
    assert lens[..0] == [];
    for i := 0 to len
      invariant forall l :: 0 <= l <= MAX_SUPPORTED ==> num[l] == Count(lens[..i], l)
    {
      assert lens[..i + 1][..i] == lens[..i];
      num[t.sizes[i]] := num[t.sizes[i]] + 1;
    }
    assert lens[..len] == lens;
  }

  /** `tdefl_optimize_huffman_table`. With measured counts: exactly the symbols that occur receive a
      length, the lengths respect the limit and form a usable code. Always: the codes are the
      canonical ones of the lengths, bit-reversed. */
  method OptimizeHuffmanTable(t: Table, len: nat, limit: nat, staticTable: bool)
    requires t.Separate() && len <= MAX_SYMBOLS && 1 <= limit <= MAX_BITS
    requires staticTable ==> Limited(t.sizes[..len], limit)
    requires !staticTable ==> len <= Pow2(limit) && Sum(t.count[..len]) <= 65535
    modifies t.sizes, t.codes
    ensures staticTable ==> t.sizes[..] == old(t.sizes[..])
    ensures !staticTable ==> LengthsFor(t.sizes[..len], t.count[..len], limit)
    ensures !staticTable ==> forall i :: len <= i < MAX_SYMBOLS ==> t.sizes[i] == 0
    ensures !staticTable && limit == MAX_BITS ==> NearOptimal(t.sizes[..len], t.count[..len])
    ensures CodesFor(t.codes[..], t.sizes[..len])
  {
    hide LengthsFor, CodesFor, Sum, Usable, NearOptimal;
    var num: array<int>;
    if staticTable {
      num := CountGiven(t, len);
    } else {
      num := LengthsFromCounts(t, len, limit);
      LengthsForLimited(t.sizes[..len], t.count[..len], limit);
    }
    ghost var sizes := t.sizes[..];
    AssignCodes(t.codes, t.sizes, num, limit, len);
    assert t.sizes[..] == sizes;
  }

  lemma LengthsForLimited(lens: seq<nat>, count: seq<nat>, limit: nat)
    requires LengthsFor(lens, count, limit)
    ensures Limited(lens, limit)
  {
  }
}
