/** Building the decompressor's Huffman tables from code lengths, and looking codes up in them
    (`tinfl_decompress`, `TINFL_HUFF_DECODE`). */
module InflateBuild {
  import opened Bits
  import opened Canonical
  import opened InflateTable

  // ---- Facts about one long code

  lemma BeginsSelf(lens: seq<nat>, i: nat, d: nat)
    requires i < |lens| && d < lens[i]
    ensures Begins(lens, CodeBits(lens, i)[..d], i)
  {
  }

  /** What the lookup entry of a long code not yet entered can be. */
  lemma RootFacts(look: seq<int>, tree: seq<int>, nodes: seq<bits>, lens: seq<nat>, i: nat, rev: nat)
    requires TableOk(look, tree, nodes, lens, i) && i < |lens| && lens[i] > FAST_BITS
    requires rev == Val(CodeBits(lens, i))
    ensures
      var w, j := CodeBits(lens, i)[..FAST_BITS], rev % FAST_SIZE;
      && BitsOf(j, FAST_BITS) == w && Begins(lens, w, i)
      && (look[j] == 0 ==> w !in nodes) && (look[j] != 0 ==> Refers(look[j], w, nodes))
    ensures rev / 512 == Val(CodeBits(lens, i)[FAST_BITS - 1..])
  {
    hide CodeBits, NotOver;
    var c := CodeBits(lens, i);
    var w, j := c[..FAST_BITS], rev % FAST_SIZE;
    Pow2Table();
    ValSplit(c, FAST_BITS);
    ValSplit(c, FAST_BITS - 1);
    PaddedWord(w);
    BeginsSelf(lens, i, FAST_BITS);
    assert LookOk(look[j], BitsOf(j, FAST_BITS), nodes, lens, i);
    if look[j] > 0 {
      NoPrefix(lens, look[j] % 512, w, i);
    }
  }

  /** What the tree entry below a prefix of a long code not yet entered can be. */
  lemma ChildFacts(look: seq<int>, tree: seq<int>, nodes: seq<bits>, lens: seq<nat>, i: nat, d: nat, k: nat)
    requires TableOk(look, tree, nodes, lens, i) && i < |lens| && FAST_BITS <= d < lens[i]
    requires k < |nodes| && nodes[k] == CodeBits(lens, i)[..d]
    ensures
      var w, b := CodeBits(lens, i)[..d + 1], CodeBits(lens, i)[d];
      && w == nodes[k] + [b]
      && (d + 1 < lens[i] ==> Begins(lens, w, i) && (Slot(tree, k, b) != 0 ==> Refers(Slot(tree, k, b), w, nodes)))
      && (Slot(tree, k, b) == 0 ==> w !in nodes)
  {
    hide CodeBits, NotOver, LookAll, Slot, SlotOk, NodesOk, Hung, Begins, Refers;
    var c := CodeBits(lens, i);
    var w, b := c[..d + 1], c[d];
    assert w == nodes[k] + [b];
    TreeSlot(tree, nodes, lens, i, k, b);
    if d + 1 < lens[i] {
      BeginsSelf(lens, i, d + 1);
      FreshEntry(Slot(tree, k, b), w, nodes, lens, i);
    }
    EmptyEntry(Slot(tree, k, b), w, nodes, lens, i);
  }

  lemma TreeSlot(tree: seq<int>, nodes: seq<bits>, lens: seq<nat>, i: nat, k: nat, b: bool)
    requires i <= |lens| && TreeAll(tree, nodes, lens, i) && k < |nodes|
    ensures SlotOk(Slot(tree, k, b), nodes[k] + [b], nodes, lens, i)
  {
    hide CodeBits, Slot, SlotOk;
  }

  /** An entry met on the way to a new code can only lead to a node. */
  lemma FreshEntry(e: int, w: bits, nodes: seq<bits>, lens: seq<nat>, i: nat)
    requires NotOver(lens) && Limited(lens, MAX_BITS) && i < |lens| && w != [] && Begins(lens, w, i)
    requires SlotOk(e, w, nodes, lens, i)
    ensures e != 0 ==> Refers(e, w, nodes)
  {
    hide CodeBits, NotOver, Refers;
    if e > 0 {
      assert w[..lens[e]] == w;
      NoPrefix(lens, e, w, i);
    }
  }

  lemma EmptyEntry(e: int, w: bits, nodes: seq<bits>, lens: seq<nat>, i: nat)
    requires i <= |lens| && SlotOk(e, w, nodes, lens, i)
    ensures e == 0 ==> w !in nodes
  {
    hide CodeBits, Refers;
  }

  lemma NextBit(c: bits, d: nat, rev: nat)
    requires 1 <= d < |c| && rev == Val(c[d - 1..])
    ensures rev / 2 == Val(c[d..]) && rev / 2 % 2 == BitVal(c[d])
  {
    var w := c[d - 1..];
    assert w[1..] == c[d..] && Val(w) == BitVal(w[0]) + 2 * Val(w[1..]);
    hide Val;
    ValParity(c[d..]);
  }

  lemma RoomForOne(nodes: seq<bits>, lens: seq<nat>, i: nat, w: bits)
    requires Usable(lens) && |lens| <= MAX_CODES && NodesOk(nodes, lens) && Addable(nodes, lens, i, w)
    ensures |nodes| < MAX_CODES
  {
    NodesAdd(nodes, lens, i, w);
    TreeHasRoom(nodes + [w], lens);
  }

  /** Stepping through the lookup table by `p` visits exactly the numbers that leave `v` modulo `p`. */
  lemma StepModulo(p: nat, v: nat, m: nat, r: nat, j: nat)
    requires v < p && r == v + p * m && r <= j < r + p
    ensures j % p == v <==> j == r
  {
    var t := v + (j - r);
    if t < p {
      DivModUnique(t, p, m);
    } else {
      assert p * (m + 1) == p * m + p;
      DivModUnique(t - p, p, m + 1);
    }
  }

  lemma MatchesModulo(lens: seq<nat>, i: nat, j: nat)
    requires i < |lens| && 0 < lens[i] <= FAST_BITS && j < FAST_SIZE
    ensures Matches(lens, i, BitsOf(j, FAST_BITS)) <==> j % Pow2(lens[i]) == Val(CodeBits(lens, i))
    ensures Val(CodeBits(lens, i)) < Pow2(lens[i])
  {
    hide CodeBits, BitsOf;
    var w, c := BitsOf(j, FAST_BITS), CodeBits(lens, i);
    Pow2Table();
    ValBitsOf(j, FAST_BITS);
    ValSplit(w, lens[i]);
    ValBound(c);
    if Val(w[..lens[i]]) == Val(c) {
      ValInjective(w[..lens[i]], c);
    }
  }

  /** The lookup table while the entries of a short code below `r` have been written. */
  ghost predicate Filling(look: seq<int>, was: seq<int>, lens: seq<nat>, i: nat, r: nat)
    requires i < |lens|
  {
    && |look| == |was| == FAST_SIZE
    && forall j :: 0 <= j < FAST_SIZE ==>
         look[j] == (if j < r && Matches(lens, i, BitsOf(j, FAST_BITS)) then 512 * lens[i] + i else was[j])
  }

  lemma FillingStart(look: seq<int>, lens: seq<nat>, i: nat)
    requires |look| == FAST_SIZE && i < |lens| && 0 < lens[i] <= FAST_BITS
    ensures Filling(look, look, lens, i, Val(CodeBits(lens, i)))
  {
    hide CodeBits, BitsOf;
    forall j | 0 <= j < Val(CodeBits(lens, i)) && j < FAST_SIZE ensures !Matches(lens, i, BitsOf(j, FAST_BITS)) {
      MatchesModulo(lens, i, j);
      SmallModulo(j, Pow2(lens[i]));
    }
  }

  lemma SmallModulo(j: nat, p: nat)
    requires j < p
    ensures j % p == j
  {
    DivModUnique(j, p, 0);
  }

  lemma FillingStep(look: seq<int>, was: seq<int>, lens: seq<nat>, i: nat, r: nat, m: nat)
    requires i < |lens| && 0 < lens[i] <= FAST_BITS && Filling(look, was, lens, i, r) && r < FAST_SIZE
    requires r == Val(CodeBits(lens, i)) + Pow2(lens[i]) * m
    ensures Filling(look[r := 512 * lens[i] + i], was, lens, i, r + Pow2(lens[i]))
  {
    hide CodeBits, BitsOf, Matches;
    var p := Pow2(lens[i]);
    forall j | r <= j < r + p && j < FAST_SIZE ensures Matches(lens, i, BitsOf(j, FAST_BITS)) <==> j == r {
      MatchesModulo(lens, i, j);
      StepModulo(p, Val(CodeBits(lens, i)), m, r, j);
    }
  }

  lemma FillingDone(look: seq<int>, was: seq<int>, tree: seq<int>, nodes: seq<bits>, lens: seq<nat>, i: nat, r: nat)
    requires i < |lens| && 0 < lens[i] <= FAST_BITS && Filling(look, was, lens, i, r) && r >= FAST_SIZE
    requires TableOk(was, tree, nodes, lens, i)
    ensures TableOk(look, tree, nodes, lens, i + 1)
  {
    hide Matches, TableOk;
    AddShort(was, look, tree, nodes, lens, i);
  }

  // ---- Code assignment

  /** `next_code` once the first `i` symbols have been given codes. */
  ghost predicate NextFor(next: seq<nat>, lens: seq<nat>, i: nat) {
    && |next| == 17 && i <= |lens|
    && forall l :: 1 <= l <= MAX_BITS ==> next[l] == FirstCode(lens, l) + Count(lens[..i], l)
  }

  lemma NextForStep(next: seq<nat>, lens: seq<nat>, i: nat)
    requires NextFor(next, lens, i) && i < |lens| && Limited(lens, MAX_BITS)
    ensures lens[i] == 0 ==> NextFor(next, lens, i + 1)
    ensures lens[i] > 0 ==> next[lens[i]] == Code(lens, i)
    ensures lens[i] > 0 ==> NextFor(next[lens[i] := next[lens[i]] + 1], lens, i + 1)
  {
    assert lens[..i + 1][..i] == lens[..i];
  }

  class Lookup {
    const look: array<int>
    const tree: array<int>
    const sizes: array<nat>
    ghost var nodes: seq<bits>

    constructor ()
      ensures fresh(look) && fresh(tree) && fresh(sizes) && Shaped()
      ensures forall s :: 0 <= s < MAX_CODES ==> sizes[s] == 0
    {
      look := new int[FAST_SIZE](i => 0);
      tree := new int[TREE_SIZE](i => 0);
      sizes := new nat[MAX_CODES](i => 0);
      nodes := [];
    }

    ghost predicate Shaped() {
      && look.Length == FAST_SIZE && tree.Length == TREE_SIZE && sizes.Length == MAX_CODES
      && look != tree
    }

    /** The tables decode the code of `lens`. */
    ghost predicate For(lens: seq<nat>)
      reads this, look, tree
    {
      Shaped() && Usable(lens) && TableOk(look[..], tree[..], nodes, lens, |lens|)
    }

    /** The tables hold the first `i` symbols; the next node goes where `treeNext` says. */
    ghost predicate Holding(lens: seq<nat>, i: nat, treeNext: int)
      reads this, look, tree
    {
      && Shaped() && Usable(lens) && TableOk(look[..], tree[..], nodes, lens, i) && treeNext == Ref(|nodes|)
    }

    /** How many symbols have each length. */
    method CountSyms(n: nat) returns (syms: array<nat>)
      requires Shaped() && n <= MAX_CODES && Limited(sizes[..n], MAX_BITS)
      ensures fresh(syms) && syms.Length == 16 && forall l :: 0 <= l <= MAX_BITS ==> syms[l] == Count(sizes[..n], l)
    {
      syms := new nat[16](i => 0);
      ghost var lens := sizes[..n];
      assert lens[..0] == [];
      for i := 0 to n
        invariant forall l :: 0 <= l <= MAX_BITS ==> syms[l] == Count(lens[..i], l)
      {
        assert lens[..i + 1][..i] == lens[..i];
        syms[sizes[i]] := syms[sizes[i]] + 1;
      }
      assert lens[..n] == lens;
    }

    /** The first code of each length, and the test that the code is complete. */
    method FirstCodes(syms: array<nat>, ghost lens: seq<nat>) returns (next: array<nat>, ok: bool)
      requires syms.Length == 16 && forall l :: 0 <= l <= MAX_BITS ==> syms[l] == Count(lens, l)
      requires Limited(lens, MAX_BITS)
      ensures fresh(next) && NextFor(next[..], lens, 0)
      ensures ok <==> Usable(lens)
    {
      hide FirstCode, Used, Count, Usable, Limited;
      next := new nat[17](i => 0);
      var used: nat, total: nat := 0, 0;
      CodesStart(lens);
      for i := 1 to 16
        invariant used == Used(lens, i - 1) && total == FirstCode(lens, i)
        invariant forall l :: 1 <= l <= i ==> next[l] == FirstCode(lens, l)
      {
        CodesStep(lens, i);
        used := used + syms[i];
        total := (total + syms[i]) * 2;
        next[i + 1] := total;
      }
      CodesEnd(lens);
      NothingCounted();
      assert lens[..0] == [];
      ok := !(65536 != total && used > 1);
    }

    method Clear(n: nat)
      requires Shaped() && n <= MAX_CODES
      modifies this`nodes, look, tree
      ensures (forall j :: 0 <= j < FAST_SIZE ==> look[j] == 0) && (forall j :: 0 <= j < TREE_SIZE ==> tree[j] == 0)
      ensures nodes == []
    {
      for j := 0 to FAST_SIZE
        invariant forall m :: 0 <= m < j ==> look[m] == 0
      {
        look[j] := 0;
      }
      for j := 0 to TREE_SIZE
        invariant forall m :: 0 <= m < FAST_SIZE ==> look[m] == 0
        invariant forall m :: 0 <= m < j ==> tree[m] == 0
      {
        tree[j] := 0;
      }
      nodes := [];
    }

    /** A code of at most 10 bits fills every lookup entry that begins with it. */
    method EnterShort(i: nat, size: nat, rev: nat, treeNext: int, ghost lens: seq<nat>)
      requires Holding(lens, i, treeNext) && i < |lens| && size == lens[i] && 0 < size <= FAST_BITS
      requires rev == Val(CodeBits(lens, i))
      modifies look
      ensures Holding(lens, i + 1, treeNext)
    {
      hide TableOk, Usable, CodeBits, Filling, Pow2;
      ghost var was, t := look[..], tree[..];
      var k := size * 512 + i;
      var r := rev;
      ghost var m: nat := 0;
      FillingStart(was, lens, i);
      while r < FAST_SIZE
        invariant Filling(look[..], was, lens, i, r) && r == rev + Pow2(size) * m && tree[..] == t
      {
        ghost var now := look[..];
        FillingStep(now, was, lens, i, r, m);
        assert Pow2(size) * (m + 1) == Pow2(size) * m + Pow2(size);
        look[r] := k;
        assert look[..] == now[r := k];
        r := r + Pow2(size);
        m := m + 1;
      }
      FillingDone(look[..], was, t, nodes, lens, i, r);
    }

    /** The entry of a long code in the lookup table: the root of its branch. */
    method EnterRoot(i: nat, rev: nat, treeNext0: int, ghost lens: seq<nat>) returns (cur: int, treeNext: int)
      requires Holding(lens, i, treeNext0) && i < |lens| && lens[i] > FAST_BITS && rev == Val(CodeBits(lens, i))
      modifies this`nodes, look
      ensures Holding(lens, i, treeNext) && Refers(cur, CodeBits(lens, i)[..FAST_BITS], nodes)
    {
      hide TableOk, Usable, CodeBits, BitsOf, Begins;
      ghost var w, now, t := CodeBits(lens, i)[..FAST_BITS], look[..], tree[..];
      RootFacts(now, t, nodes, lens, i, rev);
      treeNext := treeNext0;
      cur := look[rev % FAST_SIZE];
      if cur == 0 {
        TableParts(now, t, nodes, lens, i);
        RoomForOne(nodes, lens, i, w);
        AddRoot(now, t, nodes, lens, i, rev % FAST_SIZE, w);
        look[rev % FAST_SIZE] := treeNext;
        assert look[..] == now[rev % FAST_SIZE := treeNext];
        cur := treeNext;
        treeNext := treeNext - 2;
        nodes := nodes + [w];
      }
    }

    /** One more bit of a long code: down to its node, which is created if need be. */
    method EnterBit(i: nat, ghost d: nat, bit: nat, cur0: int, treeNext0: int, ghost lens: seq<nat>)
      returns (cur: int, treeNext: int)
      requires Holding(lens, i, treeNext0) && i < |lens| && FAST_BITS <= d && d + 1 < lens[i]
      requires Refers(cur0, CodeBits(lens, i)[..d], nodes) && bit == BitVal(CodeBits(lens, i)[d])
      modifies this`nodes, tree
      ensures Holding(lens, i, treeNext) && Refers(cur, CodeBits(lens, i)[..d + 1], nodes)
    {
      hide TableOk, Usable, CodeBits, Begins;
      ghost var c, k, now, l := CodeBits(lens, i), NodeOf(cur0), tree[..], look[..];
      ChildFacts(l, now, nodes, lens, i, d, k);
      treeNext := treeNext0;
      cur := cur0 - bit;
      TableSizes(l, now, nodes, lens, i);
      assert -cur - 1 == 2 * k + BitVal(c[d]);
      if tree[-cur - 1] == 0 {
        NewNode(l, now, nodes, lens, i, d, k);
        tree[-cur - 1] := treeNext;
        assert tree[..] == now[2 * k + BitVal(c[d]) := treeNext];
        cur := treeNext;
        treeNext := treeNext - 2;
        nodes := nodes + [c[..d + 1]];
      } else {
        cur := tree[-cur - 1];
      }
    }

    /** A code of more than 10 bits: its first 10 bits, its other bits but the last, its symbol. */
    method EnterLong(i: nat, size: nat, rev0: nat, treeNext0: int, ghost lens: seq<nat>) returns (treeNext: int)
      requires Holding(lens, i, treeNext0) && i < |lens| && size == lens[i] > FAST_BITS
      requires rev0 == Val(CodeBits(lens, i))
      modifies this`nodes, look, tree
      ensures Holding(lens, i + 1, treeNext)
    {
      hide TableOk, Usable, CodeBits, Val, Begins, Holding;
      ghost var c, d: nat := CodeBits(lens, i), FAST_BITS;
      RootRest(c, rev0);
      var cur;
      cur, treeNext := EnterRoot(i, rev0, treeNext0, lens);
      var rev: nat := rev0 / 512;
      var j := size;
      while j > FAST_BITS + 1
        invariant Holding(lens, i, treeNext) && FAST_BITS + 1 <= j && d + j == size + FAST_BITS
        invariant Refers(cur, c[..d], nodes) && rev == Val(c[d - 1..])
      {
        NextBit(c, d, rev);
        rev := rev / 2;
        cur, treeNext := EnterBit(i, d, rev % 2, cur, treeNext, lens);
        j := j - 1;
        d := d + 1;
      }
      NextBit(c, d, rev);
      rev := rev / 2;
      EnterSymbol(i, d, rev % 2, cur, treeNext, lens);
    }

    method EnterSymbol(i: nat, ghost d: nat, bit: nat, cur: int, treeNext: int, ghost lens: seq<nat>)
      requires Holding(lens, i, treeNext) && i < |lens| && FAST_BITS <= d && d + 1 == lens[i]
      requires Refers(cur, CodeBits(lens, i)[..d], nodes) && bit == BitVal(CodeBits(lens, i)[d])
      modifies tree
      ensures Holding(lens, i + 1, treeNext)
    {
      hide TableOk, Usable, CodeBits;
      ghost var c, k, now, l := CodeBits(lens, i), NodeOf(cur), tree[..], look[..];
      TableParts(l, now, nodes, lens, i);
      assert c == nodes[k] + [c[d]];
      AddLeaf(l, now, nodes, lens, i, k, c[d]);
      var leaf := cur - bit;
      assert -leaf - 1 == 2 * k + BitVal(c[d]);
      tree[-leaf - 1] := i;
      assert tree[..] == now[2 * k + BitVal(c[d]) := i];
    }

    /** Enter every symbol that has a code. */
    method EnterAll(n: nat, next: array<nat>)
      requires Shaped() && n <= MAX_CODES && Usable(sizes[..n]) && NextFor(next[..], sizes[..n], 0)
      requires next != sizes
      requires (forall j :: 0 <= j < FAST_SIZE ==> look[j] == 0) && (forall j :: 0 <= j < TREE_SIZE ==> tree[j] == 0)
      requires nodes == []
      modifies this`nodes, look, tree, next
      ensures For(sizes[..n])
    {
      hide TableOk, Usable, NextFor, Code, MsbBits, Val;
      ghost var lens := sizes[..n];
      UsableParts(lens);
      TableStart(look[..], tree[..], lens);
      var treeNext := -1;
      for i := 0 to n
        invariant sizes[..n] == lens && NextFor(next[..], lens, i) && Holding(lens, i, treeNext)
      {
        ghost var was := next[..];
        NextForStep(was, lens, i);
        var size := sizes[i];
        if size == 0 {
          AddNone(look[..], tree[..], nodes, lens, i);
        } else {
          var code := NextCode(next, size, lens, i);
          var rev := ReverseCode(code, size);
          if size <= FAST_BITS {
            EnterShort(i, size, rev, treeNext, lens);
          } else {
            treeNext := EnterLong(i, size, rev, treeNext, lens);
          }
        }
      }
    }

    /** The table for the first `n` sizes, if they form a code the format allows. */
    method Build(n: nat) returns (ok: bool)
      requires Shaped() && n <= MAX_CODES && Limited(sizes[..n], MAX_BITS)
      modifies this`nodes, look, tree
      ensures ok <==> Usable(sizes[..n])
      ensures ok ==> For(sizes[..n])
    {
      hide Usable, NextFor, For;
      ghost var lens := sizes[..n];
      Clear(n);
      var syms := CountSyms(n);
      var next;
      next, ok := FirstCodes(syms, lens);
      if ok {
        EnterAll(n, next);
      }
    }
  }

  /** `next_code[code_size]++` */
  method NextCode(next: array<nat>, size: nat, ghost lens: seq<nat>, ghost i: nat) returns (code: nat)
    requires NextFor(next[..], lens, i) && i < |lens| && Limited(lens, MAX_BITS) && size == lens[i] > 0
    modifies next
    ensures code == Code(lens, i) && NextFor(next[..], lens, i + 1)
  {
    ghost var was := next[..];
    NextForStep(was, lens, i);
    code := next[size];
    next[size] := next[size] + 1;
    assert next[..] == was[size := was[size] + 1];
  }

  lemma CodesEnd(lens: seq<nat>)
    requires Limited(lens, MAX_BITS)
    ensures Usable(lens) <==> FirstCode(lens, 16) == 65536 || Used(lens, 15) <= 1
  {
    hide FirstCode, Used, Free;
    TotalIsKraft(lens);
  }

  lemma TableSizes(look: seq<int>, tree: seq<int>, nodes: seq<bits>, lens: seq<nat>, i: nat)
    requires TableOk(look, tree, nodes, lens, i)
    ensures |look| == FAST_SIZE && |tree| == TREE_SIZE && |nodes| <= MAX_CODES
  {
  }

  /** The next prefix of a long code becomes a node; there is room for it. */
  lemma NewNode(look: seq<int>, tree: seq<int>, nodes: seq<bits>, lens: seq<nat>, i: nat, d: nat, k: nat)
    requires Usable(lens) && TableOk(look, tree, nodes, lens, i) && i < |lens| && FAST_BITS <= d && d + 1 < lens[i]
    requires k < |nodes| && nodes[k] == CodeBits(lens, i)[..d] && Slot(tree, k, CodeBits(lens, i)[d]) == 0
    ensures |nodes| < MAX_CODES && 2 * k + BitVal(CodeBits(lens, i)[d]) < |tree|
    ensures TableOk(look, tree[2 * k + BitVal(CodeBits(lens, i)[d]) := Ref(|nodes|)],
                    nodes + [CodeBits(lens, i)[..d + 1]], lens, i)
  {
    hide TableOk, Usable, CodeBits, Begins, Slot;
    ChildFacts(look, tree, nodes, lens, i, d, k);
    TableParts(look, tree, nodes, lens, i);
    RoomForOne(nodes, lens, i, CodeBits(lens, i)[..d + 1]);
    AddChild(look, tree, nodes, lens, i, k, CodeBits(lens, i)[d]);
  }

  lemma UsableParts(lens: seq<nat>)
    requires Usable(lens)
    ensures Limited(lens, MAX_BITS) && NotOver(lens)
  {
    UsableNotOver(lens);
  }

  lemma TableParts(look: seq<int>, tree: seq<int>, nodes: seq<bits>, lens: seq<nat>, i: nat)
    requires TableOk(look, tree, nodes, lens, i)
    ensures i <= |lens| <= MAX_CODES && NodesOk(nodes, lens) && Limited(lens, MAX_BITS) && NotOver(lens)
    ensures |look| == FAST_SIZE && |tree| == TREE_SIZE && |nodes| <= MAX_CODES
  {
  }

  lemma RootRest(c: bits, rev: nat)
    requires |c| >= FAST_BITS && rev == Val(c)
    ensures rev / 512 == Val(c[FAST_BITS - 1..])
  {
    Pow2Table();
    ValSplit(c, FAST_BITS - 1);
  }
}
