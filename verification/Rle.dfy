/** Run-length packing of code lengths (the first half of `tdefl_start_dynamic_block`). */
module Rle {
  import opened Bits
  import opened Canonical
  import opened Sums
  import opened MinRedundancy
  import opened InflateSpec
  import opened Encoding

  const MAX_PACKED: nat := 320

  /** An item as it lies in `packed_code_sizes`: its symbol, and its repeat count if it has one. */
  function ItemBytes(it: Item): seq<nat> {
    if it.sym < 16 then [it.sym] else [it.sym, it.extra]
  }

  function Flatten(items: seq<Item>): seq<nat> {
    if items == [] then [] else Flatten(items[..|items| - 1]) + ItemBytes(items[|items| - 1])
  }

  /** How often symbol `s` is emitted. */
  function Emitted(items: seq<Item>, s: nat): nat {
    if items == [] then 0
    else Emitted(items[..|items| - 1], s) + if items[|items| - 1].sym == s then 1 else 0
  }

  ghost predicate ItemShape(it: Item) {
    it.sym <= 18 && (it.sym >= 16 ==> it.extra < Pow2(RepeatBits(it.sym)))
  }

  ghost predicate ItemShapes(items: seq<Item>) {
    forall i :: 0 <= i < |items| ==> ItemShape(items[i])
  }

  lemma PushItem(items: seq<Item>, it: Item)
    ensures Flatten(items + [it]) == Flatten(items) + ItemBytes(it)
    ensures forall s :: Emitted(items + [it], s) == Emitted(items, s) + if it.sym == s then 1 else 0
    ensures Unpack(items).Some? ==> Unpack(items + [it]) == UnpackOne(Unpack(items).value, it)
  {
    assert (items + [it])[..|items|] == items;
  }

  /** Counts and emitted symbols agree. */
  ghost predicate Counted(count: seq<nat>, items: seq<Item>) {
    |count| >= 19 && forall s :: 0 <= s < 19 ==> count[s] == Emitted(items, s)
  }

  lemma {:induction false} CountedSum(count: seq<nat>, items: seq<Item>)
    requires |count| == 19 && Counted(count, items) && ItemShapes(items)
    ensures Sum(count) == |items|
    decreases |items|
  {
    if items == [] {
      SumZeros(count);
    } else {
      var n := |items| - 1;
      var s := items[n].sym;
      var c := count[s := count[s] - 1];
      CountedSum(c, items[..n]);
      SumChange(c, s, count[s]);
      assert c[s := count[s]] == count;
    }
  }

  lemma {:induction false} EmittedPositive(items: seq<Item>, i: nat)
    requires i < |items|
    ensures Emitted(items, items[i].sym) >= 1
  {
    if i < |items| - 1 { EmittedPositive(items[..|items| - 1], i); }
  }

  // ---- Which items code lengths are packed into

  /** How many times the last length is repeated at the end. */
  function LastRun(lens: seq<nat>): (k: nat)
    ensures k <= |lens| && (k == 0 <==> lens == [])
  {
    if |lens| <= 1 then |lens|
    else if lens[|lens| - 1] == lens[|lens| - 2] then LastRun(lens[..|lens| - 1]) + 1
    else 1
  }

  function Times(n: nat, it: Item): seq<Item> { seq(n, i => it) }

  /** What is left of a run of zeros: one or two are written out. */
  function RestZeros(n: nat): seq<Item> {
    if n < 3 then Times(n, Item(0, 0)) else if n <= 10 then [Item(17, n - 3)] else [Item(18, n - 11)]
  }

  /** What is left of the repetitions of `v`: one or two are written out. */
  function RestRepeats(v: nat, n: nat): seq<Item> {
    if n < 3 then Times(n, Item(v, 0)) else [Item(16, n - 3)]
  }

  /** A run: zeros by 138, other lengths once and then repeated by six. */
  function RunItems(v: nat, n: nat): seq<Item>
    requires n > 0
  {
    if v == 0 then Times(n / 138, Item(18, 127)) + RestZeros(n % 138)
    else [Item(v, 0)] + Times((n - 1) / 6, Item(16, 3)) + RestRepeats(v, (n - 1) % 6)
  }

  function Front(lens: seq<nat>): (f: seq<nat>)
    ensures lens != [] ==> |f| < |lens|
  {
    lens[..|lens| - LastRun(lens)]
  }

  /** Run by run. */
  function PackedItems(lens: seq<nat>): seq<Item> {
    if lens == [] then [] else PackedItems(Front(lens)) + RunItems(lens[|lens| - 1], LastRun(lens))
  }

  /** Of the last run, `zeros` zeros or `repeats` repetitions are not in `items` yet. */
  ghost predicate Pended(lens: seq<nat>, items: seq<Item>, zeros: nat, repeats: nat) {
    if lens == [] then items == [] && zeros == repeats == 0
    else
      var k, v, front := LastRun(lens), lens[|lens| - 1], PackedItems(Front(lens));
      if v == 0 then
        && repeats == 0 && zeros <= k && (k - zeros) % 138 == 0
        && items == front + Times((k - zeros) / 138, Item(18, 127))
      else
        && zeros == 0 && repeats <= k - 1 && (k - 1 - repeats) % 6 == 0
        && items == front + [Item(v, 0)] + Times((k - 1 - repeats) / 6, Item(16, 3))
  }

  /** What closes the last run. */
  function Rest(lens: seq<nat>, zeros: nat, repeats: nat): seq<Item> {
    if lens == [] then [] else if lens[|lens| - 1] == 0 then RestZeros(zeros)
    else RestRepeats(lens[|lens| - 1], repeats)
  }

  lemma RunEnds(lens: seq<nat>, items: seq<Item>, zeros: nat, repeats: nat)
    requires Pended(lens, items, zeros, repeats) && zeros < 138 && repeats < 6
    ensures PackedItems(lens) == items + Rest(lens, zeros, repeats)
  {
    hide RestZeros, RestRepeats, Front, LastRun, Times, RunItems;
    if lens != [] {
      var k, v, front := LastRun(lens), lens[|lens| - 1], PackedItems(Front(lens));
      hide PackedItems;
      UnfoldItems(lens);
      if v == 0 { ZerosEnd(front, k, zeros); } else { RepeatsEnd(front, v, k, repeats); }
    }
  }

  lemma UnfoldItems(lens: seq<nat>)
    requires lens != []
    ensures PackedItems(lens) == PackedItems(Front(lens)) + RunItems(lens[|lens| - 1], LastRun(lens))
  {
  }

  lemma ZerosEnd(front: seq<Item>, k: nat, zeros: nat)
    requires 0 < k && zeros <= k && zeros < 138 && (k - zeros) % 138 == 0
    ensures front + RunItems(0, k) == front + Times((k - zeros) / 138, Item(18, 127)) + RestZeros(zeros)
  {
    hide RestZeros, Times;
    assert k / 138 == (k - zeros) / 138 && k % 138 == zeros;
    Regroup([], front, Times(k / 138, Item(18, 127)), RestZeros(zeros));
  }

  lemma RepeatsEnd(front: seq<Item>, v: nat, k: nat, repeats: nat)
    requires v > 0 && repeats <= k - 1 && repeats < 6 && (k - 1 - repeats) % 6 == 0
    ensures front + RunItems(v, k)
         == front + [Item(v, 0)] + Times((k - 1 - repeats) / 6, Item(16, 3)) + RestRepeats(v, repeats)
  {
    hide RestRepeats, Times;
    assert (k - 1) / 6 == (k - 1 - repeats) / 6 && (k - 1) % 6 == repeats;
    Regroup([Item(v, 0)], front, Times((k - 1) / 6, Item(16, 3)), RestRepeats(v, repeats));
  }

  lemma Regroup(v: seq<Item>, front: seq<Item>, full: seq<Item>, rest: seq<Item>)
    ensures front + (v + full + rest) == (front + v + full) + rest
    ensures front + (full + rest) == (front + full) + rest
  {
  }

  lemma RunGrows(lens: seq<nat>, items: seq<Item>, zeros: nat, repeats: nat)
    requires Pended(lens, items, zeros, repeats) && lens != []
    ensures
      var x := lens[|lens| - 1];
      if x == 0 then Pended(lens + [x], items, zeros + 1, 0) else Pended(lens + [x], items, 0, repeats + 1)
  {
    hide PackedItems, LastRun, Front, Times;
    FrontGrows(lens);
  }

  lemma FrontGrows(lens: seq<nat>)
    requires lens != []
    ensures
      var next := lens + [lens[|lens| - 1]];
      LastRun(next) == LastRun(lens) + 1 && Front(next) == Front(lens)
  {
    var next := lens + [lens[|lens| - 1]];
    assert next[..|lens|] == lens;
    assert LastRun(next) == LastRun(lens) + 1;
  }

  lemma RunFull(lens: seq<nat>, items: seq<Item>, zeros: nat, repeats: nat)
    requires Pended(lens, items, zeros, repeats) && lens != [] && (zeros == 138 || repeats == 6)
    ensures
      if zeros == 138 then Pended(lens, items + RestZeros(138), 0, 0)
      else Pended(lens, items + RestRepeats(lens[|lens| - 1], 6), 0, 0)
  {
    hide PackedItems, LastRun, Front, Times;
    var k := LastRun(lens);
    if zeros == 138 {
      assert k / 138 == (k - 138) / 138 + 1;
      OneMore((k - 138) / 138, Item(18, 127));
    } else {
      assert (k - 1) / 6 == (k - 7) / 6 + 1;
      OneMore((k - 7) / 6, Item(16, 3));
    }
  }

  lemma OneMore(n: nat, it: Item)
    ensures Times(n, it) + [it] == Times(n + 1, it)
  {
  }

  lemma RunBegins(lens: seq<nat>, x: nat)
    requires lens == [] || lens[|lens| - 1] != x
    ensures Pended(lens + [x], PackedItems(lens) + if x == 0 then [] else [Item(x, 0)], if x == 0 then 1 else 0, 0)
  {
    hide PackedItems, LastRun, Front, Times;
    FrontBegins(lens, x);
    var front, first := PackedItems(lens), if x == 0 then [] else [Item(x, 0)];
    NoneFull(front + first);
  }

  lemma NoneFull(s: seq<Item>)
    ensures s + Times(0, Item(18, 127)) == s && s + Times(0, Item(16, 3)) == s
    ensures s + [] == s
  {
  }

  lemma FrontBegins(lens: seq<nat>, x: nat)
    requires lens == [] || lens[|lens| - 1] != x
    ensures LastRun(lens + [x]) == 1 && Front(lens + [x]) == lens
  {
    hide LastRun;
    var next := lens + [x];
    RunOfOne(next);
    assert next[..|next| - 1] == lens;
  }

  lemma RunOfOne(lens: seq<nat>)
    requires |lens| == 1 || (|lens| > 1 && lens[|lens| - 1] != lens[|lens| - 2])
    ensures LastRun(lens) == 1
  {
  }

  /** The local state of the packing loop. */
  class Packer {
    const packed: array<nat>
    const count: array<nat>
    var n: nat
    var zeros: nat
    var repeats: nat
    var prev: nat
    ghost var items: seq<Item>

    constructor (count: array<nat>)
      requires count.Length >= 19
      ensures this.count == count && fresh(packed) && packed.Length == MAX_PACKED
      ensures n == zeros == repeats == 0 && prev == 0xFF && items == []
    {
      packed := new nat[MAX_PACKED](i => 0);
      this.count := count;
      n, zeros, repeats, prev, items := 0, 0, 0, 0xFF, [];
    }

    /** The items so far stand for `lens`; they occupy the buffer and are counted. */
    ghost predicate Emitting(lens: seq<nat>)
      reads this`n, this`items, packed, count
    {
      && packed.Length == MAX_PACKED && count.Length >= 19 && packed != count
      && n == |Flatten(items)| <= |lens| <= MAX_PACKED && packed[..n] == Flatten(items)
      && ItemShapes(items) && Unpack(items) == Some(lens)
      && Counted(count[..], items)
    }

    /** Emit one item: `k` more lengths, for no more than `k` bytes. */
    method Put(sym: nat, extra: nat, ghost lens: seq<nat>, ghost more: seq<nat>)
      requires Emitting(lens) && ItemShape(Item(sym, extra))
      requires UnpackOne(lens, Item(sym, extra)) == Some(lens + more)
      requires |lens| + |more| <= MAX_PACKED && |ItemBytes(Item(sym, extra))| <= |more|
      modifies this`n, this`items, packed, count
      ensures Emitting(lens + more) && items == old(items) + [Item(sym, extra)]
    {
      hide Flatten, Emitted, Pow2, UnpackOne, Unpack;
      PushItem(items, Item(sym, extra));
      ghost var c, b := count[..], packed[..n];
      count[sym] := count[sym] + 1;
      packed[n] := sym;
      n := n + 1;
      if sym >= 16 {
        packed[n] := extra;
        n := n + 1;
        assert packed[..n] == b + [sym, extra];
      } else {
        assert packed[..n] == b + [sym];
      }
      items := items + [Item(sym, extra)];
    }

    /** Of `lens`, all but a pending run of zeros or of repetitions has been emitted. */
    ghost predicate Packing(lens: seq<nat>)
      reads this, packed, count
    {
      && |lens| <= MAX_PACKED && Limited(lens, 15)
      && zeros <= 138 && repeats <= 6 && zeros + repeats <= |lens| && (zeros == 0 || repeats == 0)
      && Emitting(lens[..|lens| - zeros - repeats])
      && (forall i :: |lens| - zeros <= i < |lens| ==> lens[i] == 0)
      && (repeats > 0 ==> repeats < |lens| && prev > 0)
      && (repeats > 0 ==> forall i :: |lens| - repeats - 1 <= i < |lens| ==> lens[i] == prev)
    }

    /** `TDEFL_RLE_PREV_CODE_SIZE` */
    method FlushRepeats(ghost lens: seq<nat>)
      requires Packing(lens)
      modifies this`n, this`items, this`repeats, packed, count
      ensures Packing(lens) && repeats == 0 && items == old(items) + RestRepeats(prev, old(repeats))
    {
      hide Emitting, UnpackOne, ItemShape, ItemBytes;
      ghost var was := items;
      if repeats == 0 {
        return;
      }
      ghost var k, v := |lens| - repeats, prev;
      ghost var done := lens[..k];
      assert done[k - 1] == v;
      if repeats < 3 {
        ghost var r := repeats;
        while repeats > 0
          invariant repeats <= r <= |lens| && zeros == 0
          invariant Emitting(lens[..|lens| - repeats]) && items == was + Times(r - repeats, Item(v, 0))
        {
          ghost var sofar := lens[..|lens| - repeats];
          PlainIs(sofar, prev);
          OneMore(r - repeats, Item(v, 0));
          Put(prev, 0, sofar, [prev]);
          repeats := repeats - 1;
          assert sofar + [prev] == lens[..|lens| - repeats];
        }
      } else {
        RepeatIs(done, v, repeats);
        Put(16, repeats - 3, done, seq(repeats, i => v));
        assert done + seq(repeats, i => v) == lens;
        repeats := 0;
      }
      assert lens[..|lens|] == lens;
    }

    /** `TDEFL_RLE_ZERO_CODE_SIZE` */
    method FlushZeros(ghost lens: seq<nat>)
      requires Packing(lens)
      modifies this`n, this`items, this`zeros, packed, count
      ensures Packing(lens) && zeros == 0 && items == old(items) + RestZeros(old(zeros))
    {
      hide Emitting, UnpackOne, ItemShape, ItemBytes;
      ghost var was := items;
      if zeros == 0 {
        return;
      }
      ghost var done := lens[..|lens| - zeros];
      assert lens == done + seq(zeros, i => 0);
      if zeros < 3 {
        ghost var z := zeros;
        while zeros > 0
          invariant zeros <= z <= |lens| && repeats == 0
          invariant Emitting(lens[..|lens| - zeros]) && items == was + Times(z - zeros, Item(0, 0))
        {
          ghost var sofar := lens[..|lens| - zeros];
          PlainIs(sofar, 0);
          OneMore(z - zeros, Item(0, 0));
          Put(0, 0, sofar, [0]);
          zeros := zeros - 1;
          assert sofar + [0] == lens[..|lens| - zeros];
        }
      } else if zeros <= 10 {
        ZeroRunIs(done, 17, zeros);
        Put(17, zeros - 3, done, seq(zeros, i => 0));
        zeros := 0;
      } else {
        ZeroRunIs(done, 18, zeros);
        Put(18, zeros - 11, done, seq(zeros, i => 0));
        zeros := 0;
      }
      assert lens[..|lens|] == lens;
    }

    /** One code length. */
    method PackOne(size: nat, ghost lens: seq<nat>)
      requires Packing(lens) && zeros < 138 && repeats < 6 && size <= 15 && |lens| < MAX_PACKED
      requires Follows(lens, prev) && Pended(lens, items, zeros, repeats)
      modifies this`n, this`items, this`zeros, this`repeats, this`prev, packed, count
      ensures Packing(lens + [size]) && zeros < 138 && repeats < 6 && prev == size
      ensures Pended(lens + [size], items, zeros, repeats)
    {
      hide Emitting, Pended, Follows;
      if size == 0 {
        PackZero(lens);
      } else {
        PackOther(size, lens);
      }
      ghost var was := prev;
      prev := size;
      assert repeats > 0 ==> size == was;
    }

    method PackZero(ghost lens: seq<nat>)
      requires Packing(lens) && zeros < 138 && repeats < 6 && |lens| < MAX_PACKED
      requires Follows(lens, prev) && Pended(lens, items, zeros, repeats)
      modifies this`n, this`items, this`zeros, this`repeats, packed, count
      ensures Packing(lens + [0]) && zeros < 138 && repeats == 0
      ensures Pended(lens + [0], items, zeros, repeats)
    {
      hide Emitting, Pended, RestZeros, RestRepeats, Follows;
      ghost var next := lens + [0];
      StepZero(lens, items, zeros, repeats, prev);
      FlushRepeats(lens);
      zeros := zeros + 1;
      assert next[..|next| - zeros] == lens[..|lens| - (zeros - 1)];
      if zeros == 138 {
        FlushZeros(next);
      }
    }

    method PackOther(size: nat, ghost lens: seq<nat>)
      requires Packing(lens) && zeros < 138 && repeats < 6 && 0 < size <= 15 && |lens| < MAX_PACKED
      requires Follows(lens, prev) && Pended(lens, items, zeros, repeats)
      modifies this`n, this`items, this`zeros, this`repeats, packed, count
      ensures Packing(lens + [size]) && zeros == 0 && repeats < 6 && (repeats > 0 ==> size == prev)
      ensures Pended(lens + [size], items, zeros, repeats)
    {
      hide Emitting, UnpackOne, ItemShape, ItemBytes, Pended, RestZeros, RestRepeats;
      ghost var next := lens + [size];
      StepOther(lens, items, zeros, repeats, prev, size);
      FlushZeros(lens);
      if size != prev {
        FlushRepeats(lens);
        assert lens[..|lens|] == lens && next[..|next|] == next;
        PlainIs(lens, size);
        Put(size, 0, lens, [size]);
      } else {
        repeats := repeats + 1;
        assert next[..|next| - repeats] == lens[..|lens| - (repeats - 1)];
        if repeats == 6 {
          FlushRepeats(next);
        }
      }
    }

    /** The whole loop: the packed buffer stands for exactly `lens`, packed run by run. */
    method Pack(lens: seq<nat>)
      requires |lens| <= MAX_PACKED && Limited(lens, 15)
      requires count.Length >= 19 && packed.Length == MAX_PACKED && packed != count
      requires n == zeros == repeats == 0 && prev == 0xFF && items == []
      requires forall s :: 0 <= s < 19 ==> count[s] == 0
      modifies this, packed, count
      ensures Emitting(lens) && items == PackedItems(lens)
    {
      hide Emitting, Packing, Pended, PackedItems, RestZeros, RestRepeats;
      Begin();
      AllOfThem(lens);
      for i := 0 to |lens|
        invariant Packing(lens[..i]) && zeros < 138 && repeats < 6 && Pended(lens[..i], items, zeros, repeats)
        invariant prev == if i == 0 then 0xFF else lens[i - 1]
      {
        assert lens[..i + 1] == lens[..i] + [lens[i]];
        PackOne(lens[i], lens[..i]);
      }
      StepEnd(lens, items, zeros, repeats, prev);
      OneRun(lens, items, zeros, repeats);
      if repeats > 0 {
        FlushRepeats(lens);
        NothingLeft(lens);
      } else {
        FlushZeros(lens);
        NothingLeft(lens);
      }
    }

    lemma Begin()
      requires count.Length >= 19 && packed.Length == MAX_PACKED && packed != count
      requires n == zeros == repeats == 0 && prev == 0xFF && items == []
      requires forall s :: 0 <= s < 19 ==> count[s] == 0
      ensures Packing([]) && Pended([], items, zeros, repeats)
    {
      assert Emitting([]);
      hide Emitting;
    }

    lemma NothingLeft(lens: seq<nat>)
      requires Packing(lens) && zeros == repeats == 0
      ensures Emitting(lens)
    {
      hide Emitting;
      assert lens[..|lens|] == lens;
    }
  }

  lemma AllOfThem(lens: seq<nat>)
    ensures lens[..0] == [] && lens[..|lens|] == lens
  {
  }

  lemma OneRun(lens: seq<nat>, items: seq<Item>, zeros: nat, repeats: nat)
    requires Pended(lens, items, zeros, repeats)
    ensures zeros > 0 ==> lens != [] && lens[|lens| - 1] == 0
    ensures repeats > 0 ==> lens != [] && lens[|lens| - 1] != 0 && zeros == 0
  {
    hide PackedItems;
  }

  lemma NoRest(v: nat, s: seq<Item>)
    ensures s + RestZeros(0) == s && s + RestRepeats(v, 0) == s
  {
  }

  ghost predicate Follows(lens: seq<nat>, prev: nat) { prev == if lens == [] then 0xFF else lens[|lens| - 1] }

  lemma StepZero(lens: seq<nat>, items: seq<Item>, zeros: nat, repeats: nat, prev: nat)
    requires Pended(lens, items, zeros, repeats) && Follows(lens, prev) && zeros < 138 && repeats < 6
    ensures
      var s := items + RestRepeats(prev, repeats);
      && Pended(lens + [0], s, zeros + 1, 0)
      && (zeros + 1 == 138 ==> Pended(lens + [0], s + RestZeros(138), 0, 0))
  {
    hide Pended, PackedItems, LastRun, RestZeros, RestRepeats;
    OneRun(lens, items, zeros, repeats);
    if prev != 0 {
      RunEnds(lens, items, zeros, repeats);
      NoRest(prev, items);
      RunBegins(lens, 0);
      NoneFull(PackedItems(lens));
    } else {
      NoRest(prev, items);
      RunGrows(lens, items, zeros, repeats);
      if zeros + 1 == 138 { RunFull(lens + [0], items, zeros + 1, 0); }
    }
  }

  lemma StepOther(lens: seq<nat>, items: seq<Item>, zeros: nat, repeats: nat, prev: nat, size: nat)
    requires Pended(lens, items, zeros, repeats) && Follows(lens, prev) && zeros < 138 && repeats < 6
    requires 0 < size <= 15
    ensures
      var s, next := items + RestZeros(zeros), lens + [size];
      if size != prev then Pended(next, s + RestRepeats(prev, repeats) + [Item(size, 0)], 0, 0)
      else Pended(next, s, 0, repeats + 1) && (repeats + 1 == 6 ==> Pended(next, s + RestRepeats(size, 6), 0, 0))
  {
    hide Pended, PackedItems, LastRun, RestZeros, RestRepeats;
    OneRun(lens, items, zeros, repeats);
    NoRest(prev, items);
    if size != prev {
      RunEnds(lens, items, zeros, repeats);
      NoRest(prev, items + RestZeros(zeros));
      RunBegins(lens, size);
    } else {
      RunGrows(lens, items, zeros, repeats);
      if repeats + 1 == 6 { RunFull(lens + [size], items, 0, repeats + 1); }
    }
  }

  lemma StepEnd(lens: seq<nat>, items: seq<Item>, zeros: nat, repeats: nat, prev: nat)
    requires Pended(lens, items, zeros, repeats) && Follows(lens, prev) && zeros < 138 && repeats < 6
    ensures PackedItems(lens) == items + if repeats > 0 then RestRepeats(prev, repeats) else RestZeros(zeros)
  {
    hide Pended, PackedItems, LastRun, RestZeros, RestRepeats;
    OneRun(lens, items, zeros, repeats);
    RunEnds(lens, items, zeros, repeats);
    NoRest(prev, items);
    if lens == [] { NothingPends(items, zeros, repeats); }
  }

  lemma NothingPends(items: seq<Item>, zeros: nat, repeats: nat)
    requires Pended([], items, zeros, repeats)
    ensures items == [] && zeros == repeats == 0 && PackedItems([]) == []
  {
  }

  lemma PlainIs(lens: seq<nat>, v: nat)
    requires v < 16
    ensures UnpackOne(lens, Item(v, 0)) == Some(lens + [v])
    ensures ItemShape(Item(v, 0)) && |ItemBytes(Item(v, 0))| == 1
  {
  }

  lemma RepeatIs(lens: seq<nat>, v: nat, k: nat)
    requires lens != [] && lens[|lens| - 1] == v && 3 <= k <= 6
    ensures UnpackOne(lens, Item(16, k - 3)) == Some(lens + seq(k, i => v))
    ensures ItemShape(Item(16, k - 3)) && |ItemBytes(Item(16, k - 3))| == 2
  {
    Pow2Table();
    assert Repeated(lens, 16, k) == lens + seq(k, i => v);
  }

  lemma ZeroRunIs(lens: seq<nat>, sym: nat, k: nat)
    requires (sym == 17 && 3 <= k <= 10) || (sym == 18 && 11 <= k <= 138)
    ensures UnpackOne(lens, Item(sym, k - RepeatBase(sym))) == Some(lens + seq(k, i => 0))
    ensures ItemShape(Item(sym, k - RepeatBase(sym))) && |ItemBytes(Item(sym, k - RepeatBase(sym)))| == 2
  {
    Pow2Table();
    assert Repeated(lens, sym, k) == lens + seq(k, i => 0);
  }
}
