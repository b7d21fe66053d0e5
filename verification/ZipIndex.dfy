/** The name index of a ZIP archive: heap sort of the entries by case-folded name, binary search in the
    result, and the linear scan it stands in for. */
module ZipIndex {
  import opened Arrays
  import opened Bits
  import opened Canonical

  datatype Entry = Entry(name: seq<byte>, comment: seq<byte>)

  // ---- The order of names

  /** `MZ_TOLOWER` */
  function Lower(c: byte): byte {
    if 65 <= c <= 90 then c + 32 else c
  }

  function Fold(s: seq<byte>): (r: seq<byte>)
    ensures |r| == |s|
  {
    seq(|s|, i requires 0 <= i < |s| => Lower(s[i]))
  }

  /** Lexicographic comparison: negative, zero or positive. */
  function Compare(a: seq<byte>, b: seq<byte>): int {
    if a == [] || b == [] then |a| - |b|
    else if a[0] != b[0] then a[0] as int - b[0] as int
    else Compare(a[1..], b[1..])
  }

  /** The same letter, capital or small, or the same byte. */
  ghost predicate SameLetter(x: byte, y: byte) {
    x == y || (65 <= x <= 90 && y == x + 32) || (65 <= y <= 90 && x == y + 32)
  }

  /** Names that differ in case only. */
  ghost predicate SameName(a: seq<byte>, b: seq<byte>) {
    |a| == |b| && forall i :: 0 <= i < |a| ==> SameLetter(a[i], b[i])
  }

  ghost predicate Agree(a: seq<byte>, b: seq<byte>, k: nat) {
    k <= |a| && k <= |b| && forall i :: 0 <= i < k ==> SameLetter(a[i], b[i])
  }

  /** The names part at `k`: there `a` has ended, or has the smaller byte, capitals counting as small letters. */
  ghost predicate Parts(a: seq<byte>, b: seq<byte>, k: nat) {
    && Agree(a, b, k) && k < |b|
    && (k < |a| ==> (if 65 <= a[k] <= 90 then a[k] + 32 else a[k]) < if 65 <= b[k] <= 90 then b[k] + 32 else b[k])
  }

  /** The strict order of names. */
  ghost predicate Sooner(a: seq<byte>, b: seq<byte>) { exists k: nat :: Parts(a, b, k) }

  ghost predicate AtMost(a: seq<byte>, b: seq<byte>) { !Sooner(b, a) }

  lemma LowerSame(x: byte, y: byte)
    ensures Lower(x) == Lower(y) <==> SameLetter(x, y)
  {
  }

  lemma FoldAgrees(a: seq<byte>, b: seq<byte>, k: nat)
    requires k <= |a| && k <= |b|
    ensures Fold(a)[..k] == Fold(b)[..k] <==> Agree(a, b, k)
  {
    if Agree(a, b, k) {
      forall i | 0 <= i < k ensures Fold(a)[..k][i] == Fold(b)[..k][i] { LowerSame(a[i], b[i]); }
    }
    if Fold(a)[..k] == Fold(b)[..k] {
      forall i | 0 <= i < k ensures SameLetter(a[i], b[i]) {
        assert Fold(a)[..k][i] == Fold(b)[..k][i];
        LowerSame(a[i], b[i]);
      }
    }
  }

  /** Folding identifies the names that differ in case only. */
  lemma FoldSame(a: seq<byte>, b: seq<byte>)
    ensures Fold(a) == Fold(b) <==> SameName(a, b)
  {
    assert |Fold(a)| == |a| && |Fold(b)| == |b|;
    if |a| == |b| {
      FoldAgrees(a, b, |a|);
      assert Fold(a)[..|a|] == Fold(a) && Fold(b)[..|a|] == Fold(b);
    }
  }

  lemma PartsCompare(a: seq<byte>, b: seq<byte>, k: nat)
    requires Parts(a, b, k)
    ensures Compare(Fold(a), Fold(b)) < 0
  {
    FoldAgrees(a, b, k);
    CompareSkip(Fold(a), Fold(b), k);
  }

  /** Where two different folded names part. */
  lemma {:induction false} CompareParts(a: seq<byte>, b: seq<byte>, k: nat)
    requires Agree(a, b, k) && Compare(Fold(a), Fold(b)) < 0
    ensures Sooner(a, b)
    decreases |a| - k
  {
    FoldAgrees(a, b, k);
    CompareSkip(Fold(a), Fold(b), k);
    if k < |a| && k < |b| && Lower(a[k]) == Lower(b[k]) {
      LowerSame(a[k], b[k]);
      CompareParts(a, b, k + 1);
    } else {
      assert Parts(a, b, k);
    }
  }

  /** The comparison of folded names decides their order. */
  lemma CompareSooner(a: seq<byte>, b: seq<byte>)
    ensures Compare(Fold(a), Fold(b)) < 0 <==> Sooner(a, b)
    ensures Compare(Fold(b), Fold(a)) <= 0 <==> AtMost(b, a)
  {
    hide Fold, Compare;
    if Compare(Fold(a), Fold(b)) < 0 { CompareParts(a, b, 0); }
    if Sooner(a, b) {
      var k: nat :| Parts(a, b, k);
      PartsCompare(a, b, k);
    }
    CompareSign(Fold(a), Fold(b));
  }

  lemma {:induction false} CompareZero(a: seq<byte>, b: seq<byte>)
    ensures Compare(a, b) == 0 <==> a == b
  {
    if a != [] && b != [] {
      CompareZero(a[1..], b[1..]);
      assert a == [a[0]] + a[1..] && b == [b[0]] + b[1..];
    }
  }

  lemma {:induction false} CompareSign(a: seq<byte>, b: seq<byte>)
    ensures Compare(a, b) == -Compare(b, a)
  {
    if a != [] && b != [] { CompareSign(a[1..], b[1..]); }
  }

  lemma {:induction false} CompareTrans(a: seq<byte>, b: seq<byte>, c: seq<byte>)
    requires Compare(a, b) <= 0 && Compare(b, c) <= 0
    ensures Compare(a, c) <= 0
  {
    if a != [] && b != [] && c != [] && a[0] == b[0] == c[0] { CompareTrans(a[1..], b[1..], c[1..]); }
  }

  /** Once two sequences agree up to `k`, their comparison is that of the rests. */
  lemma {:induction false} CompareSkip(a: seq<byte>, b: seq<byte>, k: nat)
    requires k <= |a| && k <= |b| && a[..k] == b[..k]
    ensures Compare(a, b) == Compare(a[k..], b[k..])
  {
    if k == 0 {
      assert a[0..] == a && b[0..] == b;
    } else {
      assert a[0] == a[..k][0] && b[0] == b[..k][0];
      assert a[1..][..k - 1] == a[..k][1..] && b[1..][..k - 1] == b[..k][1..];
      CompareSkip(a[1..], b[1..], k - 1);
      assert a[1..][k - 1..] == a[k..] && b[1..][k - 1..] == b[k..];
    }
  }

  /** `mz_zip_reader_filename_compare` */
  method FilenameCompare(a: seq<byte>, b: seq<byte>) returns (r: int)
    ensures r == Compare(Fold(a), Fold(b))
    ensures (r < 0 <==> Sooner(a, b)) && (r == 0 <==> SameName(a, b)) && (r > 0 <==> Sooner(b, a))
  {
    CompareSooner(a, b);
    CompareSooner(b, a);
    CompareSign(Fold(a), Fold(b));
    CompareZero(Fold(a), Fold(b));
    FoldSame(a, b);
    hide Sooner, SameName;
    var n := if |a| < |b| then |a| else |b|;
    var k := 0;
    while k < n
      invariant 0 <= k <= n && Fold(a)[..k] == Fold(b)[..k]
    {
      if Lower(a[k]) != Lower(b[k]) {
        CompareSkip(Fold(a), Fold(b), k);
        return Lower(a[k]) as int - Lower(b[k]) as int;
      }
      k := k + 1;
    }
    CompareSkip(Fold(a), Fold(b), k);
    r := |a| - |b|;
  }

  /** `mz_zip_reader_filename_less` */
  method FilenameLess(a: seq<byte>, b: seq<byte>) returns (r: bool)
    ensures r <==> Sooner(a, b)
  {
    CompareSooner(a, b);
    hide Sooner;
    var n := if |a| < |b| then |a| else |b|;
    var k := 0;
    while k < n
      invariant 0 <= k <= n && Fold(a)[..k] == Fold(b)[..k]
    {
      if Lower(a[k]) != Lower(b[k]) {
        CompareSkip(Fold(a), Fold(b), k);
        return Lower(a[k]) < Lower(b[k]);
      }
      k := k + 1;
    }
    CompareSkip(Fold(a), Fold(b), k);
    r := |a| < |b|;
  }

  // ---- Heaps of entry numbers

  /** Entry `x` may stand before entry `y`. */
  ghost predicate Le(names: seq<seq<byte>>, x: nat, y: nat)
    requires x < |names| && y < |names|
  {
    AtMost(names[x], names[y])
  }

  lemma LeTrans(names: seq<seq<byte>>, x: nat, y: nat, z: nat)
    requires x < |names| && y < |names| && z < |names| && Le(names, x, y) && Le(names, y, z)
    ensures Le(names, x, z)
  {
    hide Fold, Compare, AtMost;
    CompareSooner(names[y], names[x]);
    CompareSooner(names[z], names[y]);
    CompareSooner(names[z], names[x]);
    CompareTrans(Fold(names[x]), Fold(names[y]), Fold(names[z]));
  }

  lemma LeTotal(names: seq<seq<byte>>, x: nat, y: nat)
    requires x < |names| && y < |names| && !Le(names, x, y)
    ensures Le(names, y, x)
  {
    hide Fold, Compare, AtMost;
    CompareSooner(names[y], names[x]);
    CompareSooner(names[x], names[y]);
    CompareSign(Fold(names[x]), Fold(names[y]));
  }

  lemma LeSelf(names: seq<seq<byte>>, x: nat)
    requires x < |names|
    ensures Le(names, x, x)
  {
    hide Fold, Compare, AtMost;
    CompareSooner(names[x], names[x]);
    CompareZero(Fold(names[x]), Fold(names[x]));
  }

  ghost predicate Valid(names: seq<seq<byte>>, s: seq<nat>) {
    forall i :: 0 <= i < |s| ==> s[i] < |names|
  }

  /** The parent of place `c` in the heap. */
  function Parent(c: nat): nat
    requires c > 0
  {
    (c - 1) / 2
  }

  /** Every element from the children of `from` on to `n` is at most its parent, except below `hole`. */
  ghost predicate HeapBut(names: seq<seq<byte>>, s: seq<nat>, from: nat, n: nat, hole: nat)
    requires Valid(names, s) && n <= |s|
  {
    forall c :: 0 < c < n && from <= Parent(c) && Parent(c) != hole ==> Le(names, s[c], s[Parent(c)])
  }

  /** What is below the hole is at most what is above it. */
  ghost predicate Bridged(names: seq<seq<byte>>, s: seq<nat>, from: nat, n: nat, hole: nat)
    requires Valid(names, s) && n <= |s| && hole < n
  {
    hole > from && hole > 0 && from <= Parent(hole) ==>
      forall c :: 0 < c < n && Parent(c) == hole ==> Le(names, s[c], s[Parent(hole)])
  }

  ghost predicate Heap(names: seq<seq<byte>>, s: seq<nat>, from: nat, n: nat)
    requires Valid(names, s) && n <= |s|
  {
    forall c :: 0 < c < n && from <= Parent(c) ==> Le(names, s[c], s[Parent(c)])
  }

  lemma SwapKeeps(s: seq<nat>, i: nat, j: nat)
    requires i < |s| && j < |s|
    ensures multiset(Swapped(s, i, j)) == multiset(s)
  {
  }

  /** Moving the greater child up moves the hole down. */
  lemma SiftStep(names: seq<seq<byte>>, s: seq<nat>, from: nat, n: nat, root: nat, child: nat)
    requires Valid(names, s) && n <= |s| && from <= root < n && child < n && child > 0 && Parent(child) == root
    requires HeapBut(names, s, from, n, root) && Bridged(names, s, from, n, root)
    requires Le(names, s[root], s[child])
    requires forall c :: 0 < c < n && Parent(c) == root ==> Le(names, s[c], s[child])
    ensures Valid(names, Swapped(s, root, child))
    ensures HeapBut(names, Swapped(s, root, child), from, n, child)
    ensures Bridged(names, Swapped(s, root, child), from, n, child)
  {
    hide AtMost;
    var r := Swapped(s, root, child);
    forall c | 0 < c < n && from <= Parent(c) && Parent(c) != child ensures Le(names, r[c], r[Parent(c)]) {
      if Parent(c) == root {
        LeSelf(names, s[child]);
      } else if c == root {
        assert Le(names, s[child], s[Parent(root)]);
      } else {
        assert Le(names, s[c], s[Parent(c)]);
      }
    }
    forall c | 0 < c < n && Parent(c) == child ensures Le(names, r[c], r[Parent(child)]) {
      assert Le(names, s[c], s[Parent(c)]);
    }
  }

  /** Where the hole's element is at least its children, there is no hole. */
  lemma SiftDone(names: seq<seq<byte>>, s: seq<nat>, from: nat, n: nat, root: nat)
    requires Valid(names, s) && n <= |s| && HeapBut(names, s, from, n, root)
    requires forall c :: 0 < c < n && Parent(c) == root ==> Le(names, s[c], s[root])
    ensures Heap(names, s, from, n)
  {
  }

  /** The greater of the children of `root`. */
  method GreaterChild(names: seq<seq<byte>>, a: array<nat>, root: nat, n: nat) returns (child: nat)
    requires Valid(names, a[..]) && 2 * root + 1 < n <= a.Length
    ensures 0 < child < n && Parent(child) == root
    ensures forall c :: 0 < c < n && Parent(c) == root ==> Le(names, a[c], a[child])
  {
    hide Sooner;
    child := 2 * root + 1;
    LeSelf(names, a[..][child]);
    if child + 1 < n {
      var less := FilenameLess(names[a[child]], names[a[child + 1]]);
      LeSelf(names, a[..][child + 1]);
      if less {
        LeTotal(names, a[child + 1], a[child]);
        child := child + 1;
      }
    }
  }

  /** The sift-down loop of the heap sort. */
  method SiftDown(names: seq<seq<byte>>, a: array<nat>, from: nat, n: nat)
    requires Valid(names, a[..]) && from < n <= a.Length && HeapBut(names, a[..], from, n, from)
    modifies a
    ensures Valid(names, a[..]) && Heap(names, a[..], from, n)
    ensures multiset(a[..n]) == multiset(old(a[..n])) && a[n..] == old(a[n..])
  {
    hide HeapBut, Heap, Le, Bridged;
    var root := from;
    BridgedStart(names, a[..], from, n);
    while 2 * root + 1 < n
      invariant from <= root < n && Valid(names, a[..])
      invariant HeapBut(names, a[..], from, n, root) && Bridged(names, a[..], from, n, root)
      invariant multiset(a[..n]) == multiset(old(a[..n])) && a[n..] == old(a[n..])
      decreases n - root
    {
      ghost var s := a[..];
      var child := GreaterChild(names, a, root, n);
      var less := FilenameLess(names[a[root]], names[a[child]]);
      LessIs(names, s, root, child);
      if !less {
        RootGreatest(names, s, root, child, n);
        SiftDone(names, s, from, n, root);
        return;
      }
      SiftStep(names, s, from, n, root, child);
      a[root], a[child] := a[child], a[root];
      assert a[..] == Swapped(s, root, child);
      assert a[..n] == Swapped(s[..n], root, child) && a[n..] == s[n..];
      SwapKeeps(s[..n], root, child);
      root := child;
    }
    NoChildren(names, a[..], from, n, root);
  }

  lemma BridgedStart(names: seq<seq<byte>>, s: seq<nat>, from: nat, n: nat)
    requires Valid(names, s) && from < n <= |s|
    ensures Bridged(names, s, from, n, from)
  {
  }

  lemma LessIs(names: seq<seq<byte>>, s: seq<nat>, root: nat, child: nat)
    requires Valid(names, s) && root < |s| && child < |s|
    ensures AtMost(names[s[child]], names[s[root]]) <==> Le(names, s[child], s[root])
    ensures !Le(names, s[child], s[root]) ==> Le(names, s[root], s[child])
  {
    hide AtMost;
    if !Le(names, s[child], s[root]) { LeTotal(names, s[child], s[root]); }
  }

  lemma RootGreatest(names: seq<seq<byte>>, s: seq<nat>, root: nat, child: nat, n: nat)
    requires Valid(names, s) && root < n <= |s| && child < n && Le(names, s[child], s[root])
    requires forall c :: 0 < c < n && Parent(c) == root ==> Le(names, s[c], s[child])
    ensures forall c :: 0 < c < n && Parent(c) == root ==> Le(names, s[c], s[root])
  {
    hide Le;
    forall c | 0 < c < n && Parent(c) == root ensures Le(names, s[c], s[root]) {
      LeTrans(names, s[c], s[child], s[root]);
    }
  }

  lemma NoChildren(names: seq<seq<byte>>, s: seq<nat>, from: nat, n: nat, root: nat)
    requires Valid(names, s) && n <= |s| && HeapBut(names, s, from, n, root) && 2 * root + 1 >= n
    ensures Heap(names, s, from, n)
  {
  }

  // ---- Sorting

  /** Entry numbers in the order of their folded names. */
  ghost predicate Sorted(names: seq<seq<byte>>, s: seq<nat>, from: nat)
    requires Valid(names, s)
  {
    forall i, j :: from <= i < j < |s| ==> Le(names, s[i], s[j])
  }

  /** No element before `n` comes after one from `n` on. */
  ghost predicate Below(names: seq<seq<byte>>, s: seq<nat>, n: nat)
    requires Valid(names, s)
  {
    forall i, j :: 0 <= i < n <= j < |s| ==> Le(names, s[i], s[j])
  }

  lemma {:induction false} HeapTop(names: seq<seq<byte>>, s: seq<nat>, n: nat, i: nat)
    requires Valid(names, s) && n <= |s| && Heap(names, s, 0, n) && i < n
    ensures Le(names, s[i], s[0])
    decreases i
  {
    hide Le;
    if i == 0 {
      LeSelf(names, s[0]);
    } else {
      HeapTop(names, s, n, Parent(i));
      LeTrans(names, s[i], s[Parent(i)], s[0]);
    }
  }

  /** The greatest element goes to the end. */
  lemma TopToEnd(names: seq<seq<byte>>, s: seq<nat>, end: nat)
    requires Valid(names, s) && 0 < end < |s| && Heap(names, s, 0, end + 1)
    requires Sorted(names, s, end + 1) && Below(names, s, end + 1)
    ensures
      var r := Swapped(s, end, 0);
      Valid(names, r) && HeapBut(names, r, 0, end, 0) && Sorted(names, r, end) && Below(names, r, end)
  {
    hide Le;
    var r := Swapped(s, end, 0);
    forall i | 0 <= i < end ensures Le(names, r[i], r[end]) {
      HeapTop(names, s, end + 1, if i == 0 then end else i);
    }
  }

  lemma InPrefix(s: seq<nat>, t: seq<nat>, i: nat)
    requires i < |s| && multiset(s) == multiset(t)
    ensures s[i] in t
  {
    assert s[i] in multiset(s);
  }

  /** Reordering the front changes nothing about the sorted end. */
  lemma FrontMoves(names: seq<seq<byte>>, s: seq<nat>, r: seq<nat>, n: nat)
    requires Valid(names, s) && Valid(names, r) && n <= |s| == |r|
    requires multiset(r[..n]) == multiset(s[..n]) && r[n..] == s[n..]
    requires Sorted(names, s, n) && Below(names, s, n)
    ensures Sorted(names, r, n) && Below(names, r, n)
  {
    hide Le;
    forall j | n <= j < |s| ensures r[j] == s[j] {
      assert r[j] == r[n..][j - n] && s[j] == s[n..][j - n];
    }
    forall i, j | 0 <= i < n <= j < |r| ensures Le(names, r[i], r[j]) {
      InPrefix(r[..n], s[..n], i);
      var k :| 0 <= k < n && s[..n][k] == r[..n][i];
      assert Le(names, s[k], s[j]);
    }
  }

  /** `mz_zip_reader_sort_central_dir_offsets_by_filename` */
  method SortByName(names: seq<seq<byte>>, a: array<nat>)
    requires Valid(names, a[..])
    modifies a
    ensures Valid(names, a[..]) && Sorted(names, a[..], 0) && multiset(a[..]) == multiset(old(a[..]))
  {
    hide Valid, HeapBut, Heap, Le, Sorted, Below;
    var size := a.Length;
    ghost var all := multiset(a[..]);
    BuildHeap(names, a);
    var end := size - 1;
    SortedEnd(names, a[..]);
    while end > 0
      invariant -1 <= end < size && (size > 0 ==> end >= 0) && Valid(names, a[..]) && multiset(a[..]) == all
      invariant Heap(names, a[..], 0, end + 1) && Sorted(names, a[..], end + 1) && Below(names, a[..], end + 1)
    {
      ghost var s := a[..];
      TopToEnd(names, s, end);
      a[end], a[0] := a[0], a[end];
      assert a[..] == Swapped(s, end, 0);
      SwapKeeps(s, end, 0);
      ghost var t := a[..];
      assert t[..end] == a[..end] && t[end..] == a[end..];
      SiftDown(names, a, 0, end);
      ghost var u := a[..];
      assert u[..end] == a[..end] && u[end..] == a[end..];
      FrontMoves(names, t, u, end);
      SameElements(u, t, end);
      end := end - 1;
    }
    SortedWhole(names, a[..], end);
  }

  lemma SameElements(r: seq<nat>, t: seq<nat>, n: nat)
    requires n <= |r| == |t| && multiset(r[..n]) == multiset(t[..n]) && r[n..] == t[n..]
    ensures multiset(r) == multiset(t)
  {
    assert r == r[..n] + r[n..] && t == t[..n] + t[n..];
  }

  /** The first phase: every subtree becomes a heap, the last ones first. */
  method BuildHeap(names: seq<seq<byte>>, a: array<nat>)
    requires Valid(names, a[..])
    modifies a
    ensures Valid(names, a[..]) && Heap(names, a[..], 0, a.Length) && multiset(a[..]) == multiset(old(a[..]))
  {
    hide HeapBut, Heap, Le;
    var size := a.Length;
    var start := if size >= 2 then (size - 2) / 2 else -1;
    LeavesHeap(names, a[..], start + 1);
    while start >= 0
      invariant -1 <= start && 2 * start + 2 <= size && Valid(names, a[..])
      invariant Heap(names, a[..], start + 1, size) && multiset(a[..]) == multiset(old(a[..]))
    {
      HeapHole(names, a[..], start, size);
      assert a[..size] == a[..];
      SiftDown(names, a, start, size);
      assert a[..size] == a[..];
      start := start - 1;
    }
  }

  lemma LeavesHeap(names: seq<seq<byte>>, s: seq<nat>, from: nat)
    requires Valid(names, s) && 2 * from + 1 >= |s|
    ensures Heap(names, s, from, |s|)
  {
  }

  lemma HeapHole(names: seq<seq<byte>>, s: seq<nat>, from: nat, n: nat)
    requires Valid(names, s) && n <= |s| && Heap(names, s, from + 1, n)
    ensures HeapBut(names, s, from, n, from)
  {
  }

  lemma SortedEnd(names: seq<seq<byte>>, s: seq<nat>)
    requires Valid(names, s)
    ensures Sorted(names, s, |s|) && Below(names, s, |s|)
  {
  }

  lemma SortedWhole(names: seq<seq<byte>>, s: seq<nat>, end: int)
    requires Valid(names, s) && -1 <= end <= 0 && Sorted(names, s, end + 1) && Below(names, s, end + 1)
    ensures Sorted(names, s, 0)
  {
  }

  // ---- Searching

  /** The index lists every entry. */
  ghost predicate Lists(names: seq<seq<byte>>, s: seq<nat>) {
    Valid(names, s) && forall x: nat :: x < |names| ==> x in s
  }

  lemma NotBefore(names: seq<seq<byte>>, s: seq<nat>, m: nat, name: seq<byte>)
    requires Valid(names, s) && Sorted(names, s, 0) && m < |s| && Compare(Fold(names[s[m]]), Fold(name)) < 0
    ensures forall i :: 0 <= i <= m ==> !SameName(names[s[i]], name)
  {
    hide Fold, Compare, SameName, AtMost;
    forall i | 0 <= i <= m ensures !SameName(names[s[i]], name) {
      if i < m { assert Le(names, s[i], s[m]); }
      CompareSooner(names[s[m]], names[s[i]]);
      FoldSame(names[s[i]], name);
      var a, b, c := Fold(names[s[i]]), Fold(names[s[m]]), Fold(name);
      CompareZero(a, c);
      CompareZero(a, b);
      CompareSign(b, c);
      if a == c && i < m { CompareSign(a, b); }
    }
  }

  lemma NotAfter(names: seq<seq<byte>>, s: seq<nat>, m: nat, name: seq<byte>)
    requires Valid(names, s) && Sorted(names, s, 0) && m < |s| && Compare(Fold(names[s[m]]), Fold(name)) > 0
    ensures forall i :: m <= i < |s| ==> !SameName(names[s[i]], name)
  {
    hide Fold, Compare, SameName, AtMost;
    forall i | m <= i < |s| ensures !SameName(names[s[i]], name) {
      if m < i { assert Le(names, s[m], s[i]); }
      CompareSooner(names[s[i]], names[s[m]]);
      FoldSame(names[s[i]], name);
      var a, b, c := Fold(names[s[i]]), Fold(names[s[m]]), Fold(name);
      CompareZero(a, c);
      CompareZero(a, b);
      CompareSign(b, a);
    }
  }

  /** `mz_zip_reader_locate_file_binary_search`: an entry of that name if there is one, otherwise -1. */
  method BinarySearch(names: seq<seq<byte>>, a: array<nat>, name: seq<byte>) returns (r: int)
    requires Valid(names, a[..]) && Sorted(names, a[..], 0)
    ensures r == -1 || (0 <= r < |names| && r in a[..] && SameName(names[r], name))
    ensures r == -1 <==> forall i :: 0 <= i < a.Length ==> !SameName(names[a[i]], name)
  {
    hide Sorted, Fold, Compare, SameName, Sooner;
    var l, h := 0, a.Length - 1;
    while l <= h
      invariant 0 <= l <= h + 1 <= a.Length
      invariant forall i :: 0 <= i < l ==> !SameName(names[a[i]], name)
      invariant forall i :: h < i < a.Length ==> !SameName(names[a[i]], name)
      decreases h - l
    {
      var m := (l + h) / 2;
      var comp := FilenameCompare(names[a[m]], name);
      if comp == 0 {
        assert a[m] == a[..][m];
        return a[m];
      } else if comp < 0 {
        NotBefore(names, a[..], m, name);
        l := m + 1;
      } else {
        NotAfter(names, a[..], m, name);
        h := m - 1;
      }
    }
    r := -1;
  }

  /** `mz_zip_reader_string_equal` on strings of equal length */
  method StringEqual(a: seq<byte>, b: seq<byte>, caseSensitive: bool) returns (r: bool)
    requires |a| == |b|
    ensures r <==> if caseSensitive then a == b else SameName(a, b)
  {
    var i := 0;
    while i < |a|
      invariant 0 <= i <= |a|
      invariant if caseSensitive then a[..i] == b[..i] else Agree(a, b, i)
    {
      LowerSame(a[i], b[i]);
      if (if caseSensitive then a[i] != b[i] else Lower(a[i]) != Lower(b[i])) {
        return false;
      }
      i := i + 1;
    }
    assert a[..|a|] == a && b[..|b|] == b;
    r := true;
  }

  predicate Separator(c: byte) { c == 47 || c == 92 || c == 58 }

  /** What follows the last path separator. */
  function BaseName(s: seq<byte>): (r: seq<byte>)
    ensures |r| <= |s| && r == s[|s| - |r|..] && (|r| < |s| ==> s[|s| - |r| - 1] in {47, 58, 92})
    ensures forall i :: 0 <= i < |r| ==> r[i] !in {47, 58, 92}
  {
    if s == [] || Separator(s[|s| - 1]) then [] else BaseName(s[..|s| - 1]) + [s[|s| - 1]]
  }

  lemma {:induction false} BaseNameAt(s: seq<byte>, k: nat)
    requires k <= |s| && (k == 0 || Separator(s[k - 1])) && forall i :: k <= i < |s| ==> !Separator(s[i])
    ensures BaseName(s) == s[k..]
  {
    if k < |s| {
      BaseNameAt(s[..|s| - 1], k);
      assert s[k..] == s[..|s| - 1][k..] + [s[|s| - 1]];
    }
  }

  method StripPath(s: seq<byte>) returns (r: seq<byte>)
    requires s != []
    ensures r == BaseName(s)
  {
    var ofs := |s| - 1;
    while ofs >= 0 && !Separator(s[ofs])
      invariant -1 <= ofs < |s| && forall i :: ofs < i < |s| ==> !Separator(s[i])
      decreases ofs + 1
    {
      ofs := ofs - 1;
    }
    BaseNameAt(s, ofs + 1);
    r := s[ofs + 1..];
  }

  /** What the scan looks for. */
  ghost predicate Wanted(e: Entry, name: seq<byte>, comment: seq<byte>, ignorePath: bool, caseSensitive: bool) {
    var base := if ignorePath then BaseName(e.name) else e.name;
    && (comment != [] ==> |e.comment| == |comment|
                          && if caseSensitive then comment == e.comment else SameName(comment, e.comment))
    && |base| == |name| && if caseSensitive then name == base else SameName(name, base)
  }

  ghost predicate NoneWanted(entries: seq<Entry>, name: seq<byte>, comment: seq<byte>, ignorePath: bool,
                             caseSensitive: bool) {
    forall i :: 0 <= i < |entries| ==> !Wanted(entries[i], name, comment, ignorePath, caseSensitive)
  }

  /** The linear scan of `mz_zip_reader_locate_file`: the first entry wanted. */
  method Scan(entries: seq<Entry>, name: seq<byte>, comment: seq<byte>, ignorePath: bool, caseSensitive: bool)
    returns (r: int)
    ensures -1 <= r < |entries|
    ensures r >= 0 ==> Wanted(entries[r], name, comment, ignorePath, caseSensitive)
    ensures r >= 0 ==> NoneWanted(entries[..r], name, comment, ignorePath, caseSensitive)
    ensures r == -1 && |name| <= 0xFFFF && |comment| <= 0xFFFF ==>
      NoneWanted(entries, name, comment, ignorePath, caseSensitive)
  {
    hide Wanted;
    if |name| > 0xFFFF || |comment| > 0xFFFF {
      return -1;
    }
    for i := 0 to |entries|
      invariant forall k :: 0 <= k < i ==> !Wanted(entries[k], name, comment, ignorePath, caseSensitive)
    {
      var found := IsWanted(entries[i], name, comment, ignorePath, caseSensitive);
      if found {
        return i;
      }
    }
    r := -1;
  }

  /** The tests for one entry, cheap ones first. */
  method IsWanted(e: Entry, name: seq<byte>, comment: seq<byte>, ignorePath: bool, caseSensitive: bool)
    returns (r: bool)
    ensures r <==> Wanted(e, name, comment, ignorePath, caseSensitive)
  {
    hide SameName, BaseName;
    if |e.name| < |name| {
      return false;
    }
    if comment != [] {
      if |e.comment| != |comment| {
        return false;
      }
      var same := StringEqual(comment, e.comment, caseSensitive);
      if !same {
        return false;
      }
    }
    var base := e.name;
    if ignorePath && base != [] {
      base := StripPath(base);
    }
    BaseNameNone();
    if |base| != |name| {
      return false;
    }
    r := StringEqual(name, base, caseSensitive);
  }

  lemma BaseNameNone()
    ensures BaseName([]) == []
  {
  }

  function NamesOf(entries: seq<Entry>): (r: seq<seq<byte>>)
    ensures |r| == |entries|
  {
    seq(|entries|, i requires 0 <= i < |entries| => entries[i].name)
  }

  ghost function Text(comment: Option<seq<byte>>): seq<byte> { if comment.Some? then comment.value else [] }

  /** The archive as the reader keeps it: its entries and, if asked for, the sorted index. */
  class Archive {
    const entries: seq<Entry>
    const index: array<nat>

    ghost predicate Ready()
      reads index
    {
      index.Length > 0 ==> Lists(NamesOf(entries), index[..]) && Sorted(NamesOf(entries), index[..], 0)
    }

    /** Reading the central directory: entry numbers in file order, then sorted by name. */
    constructor (entries: seq<Entry>, sort: bool)
      ensures Ready() && this.entries == entries && fresh(index)
    {
      hide Sorted, Le;
      this.entries := entries;
      index := new nat[if sort then |entries| else 0](i => i);
      new;
      if sort {
        ghost var start := index[..];
        SortByName(NamesOf(entries), index);
        StillLists(NamesOf(entries), start, index[..]);
      }
    }

    /** `mz_zip_reader_locate_file`; `comment` is `None` where the caller passes no comment. */
    method Locate(name: seq<byte>, comment: Option<seq<byte>>, ignorePath: bool, caseSensitive: bool) returns (r: int)
      requires Ready() && forall i :: 0 <= i < |entries| ==> |entries[i].name| <= 0xFFFF
      ensures -1 <= r < |entries|
      ensures r >= 0 ==> Wanted(entries[r], name, Text(comment), ignorePath, caseSensitive)
      ensures r == -1 && |Text(comment)| <= 0xFFFF ==>
        NoneWanted(entries, name, Text(comment), ignorePath, caseSensitive)
    {
      hide Sorted, Le, SameName;
      if !ignorePath && !caseSensitive && comment.None? && index.Length > 0 {
        r := BinarySearch(NamesOf(entries), index, name);
        SearchIsScan(entries, index[..], name);
        return;
      }
      r := Scan(entries, name, if comment.Some? then comment.value else [], ignorePath, caseSensitive);
      TooLong(entries, name, ignorePath);
    }
  }

  /** Sorting loses no entry. */
  lemma StillLists(names: seq<seq<byte>>, s: seq<nat>, t: seq<nat>)
    requires |s| == |names| && (forall i :: 0 <= i < |s| ==> s[i] == i) && multiset(s) == multiset(t) && Valid(names, t)
    ensures Lists(names, t)
  {
    forall x: nat | x < |names| ensures x in t {
      assert s[x] in multiset(s);
    }
  }

  /** For a plain search, the entries the index offers are the entries the scan looks at. */
  lemma SearchIsScan(entries: seq<Entry>, s: seq<nat>, name: seq<byte>)
    requires Lists(NamesOf(entries), s)
    ensures forall i :: 0 <= i < |entries| ==>
      (SameName(NamesOf(entries)[i], name) <==> Wanted(entries[i], name, [], false, false))
    ensures (forall i :: 0 <= i < |s| ==> !SameName(NamesOf(entries)[s[i]], name)) <==>
      NoneWanted(entries, name, [], false, false)
  {
    var names := NamesOf(entries);
    forall i | 0 <= i < |entries| ensures SameName(names[i], name) <==> Wanted(entries[i], name, [], false, false) {
    }
    hide SameName, Wanted;
    if forall i :: 0 <= i < |s| ==> !SameName(names[s[i]], name) {
      forall x | 0 <= x < |entries| ensures !Wanted(entries[x], name, [], false, false) {
        assert x in s;
      }
    }
  }

  /** No entry can have a name longer than the format allows. */
  lemma TooLong(entries: seq<Entry>, name: seq<byte>, ignorePath: bool)
    requires forall i :: 0 <= i < |entries| ==> |entries[i].name| <= 0xFFFF
    ensures |name| > 0xFFFF ==>
      forall comment, caseSensitive :: NoneWanted(entries, name, comment, ignorePath, caseSensitive)
  {
    forall i | 0 <= i < |entries| ensures |BaseName(entries[i].name)| <= 0xFFFF {
    }
    hide BaseName;
  }
}
