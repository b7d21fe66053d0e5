/** The decompressor's Huffman tables: a 10-bit lookup table and an overflow tree, as
    `tinfl_decompress` builds them, and why decoding through them is canonical decoding. */
module InflateTable {
  import opened Bits
  import opened Canonical

  const FAST_BITS: nat := 10
  const FAST_SIZE: nat := 1024
  const MAX_CODES: nat := 288
  const TREE_SIZE: nat := 576

  // ---- Invariant
  // The tree's nodes are listed in the order of their creation; node `k` stands for the code prefix
  // `nodes[k]`, its children are entries `2 * k` and `2 * k + 1`, and `-(2 * k + 1)` refers to it.

  function Ref(k: nat): int { -(2 * k + 1) }

  function NodeOf(e: int): nat
    requires e < 0
  {
    (-e - 1) / 2
  }

  function Slot(tree: seq<int>, k: nat, b: bool): int {
    if 2 * k + BitVal(b) < |tree| then tree[2 * k + BitVal(b)] else 0
  }

  /** `e` refers to the node of `w`. */
  ghost predicate Refers(e: int, w: bits, nodes: seq<bits>) {
    e < 0 && NodeOf(e) < |nodes| && nodes[NodeOf(e)] == w && e == Ref(NodeOf(e))
  }

  /** The lookup entry for the 10 bits `w` when the first `i` symbols have been entered. */
  ghost predicate LookOk(e: int, w: bits, nodes: seq<bits>, lens: seq<nat>, i: nat)
    requires i <= |lens| && |w| == FAST_BITS
  {
    && (forall s :: 0 <= s < i && 0 < lens[s] <= FAST_BITS && CodeBits(lens, s) == w[..lens[s]] ==>
          e == 512 * lens[s] + s)
    && (e > 0 ==> e % 512 < i && lens[e % 512] == e / 512 && 1 <= e / 512 <= FAST_BITS
                  && CodeBits(lens, e % 512) == w[..e / 512])
    && (e < 0 <==> w in nodes)
    && (e < 0 ==> Refers(e, w, nodes))
  }

  /** The tree entry for the word `x`. */
  ghost predicate SlotOk(e: int, x: bits, nodes: seq<bits>, lens: seq<nat>, i: nat)
    requires i <= |lens|
  {
    && (forall s :: 0 <= s < i && lens[s] == |x| && CodeBits(lens, s) == x ==> e == s)
    && (e > 0 ==> e < i && lens[e] == |x| && CodeBits(lens, e) == x)
    && (e < 0 <==> x in nodes)
    && (e < 0 ==> Refers(e, x, nodes))
  }

  ghost predicate LookAll(look: seq<int>, nodes: seq<bits>, lens: seq<nat>, i: nat)
    requires i <= |lens|
  {
    |look| == FAST_SIZE && forall j :: 0 <= j < FAST_SIZE ==> LookOk(look[j], BitsOf(j, FAST_BITS), nodes, lens, i)
  }

  ghost predicate TreeAll(tree: seq<int>, nodes: seq<bits>, lens: seq<nat>, i: nat)
    requires i <= |lens|
  {
    && |tree| == TREE_SIZE && |nodes| <= MAX_CODES
    && (forall k: nat, b: bool :: k < |nodes| ==> SlotOk(Slot(tree, k, b), nodes[k] + [b], nodes, lens, i))
    && (forall k: nat, b: bool :: |nodes| <= k ==> Slot(tree, k, b) == 0)
  }

  ghost predicate Begins(lens: seq<nat>, w: bits, s: nat) {
    s < |lens| && |w| < lens[s] && CodeBits(lens, s)[..|w|] == w
  }

  /** Every node is a proper prefix of a code, 10 to 14 bits long. */
  ghost predicate IsPrefix(lens: seq<nat>, w: bits) {
    FAST_BITS <= |w| < MAX_BITS && exists s :: Begins(lens, w, s)
  }

  ghost predicate Distinct(nodes: seq<bits>) {
    forall k, m :: 0 <= k < m < |nodes| ==> nodes[k] != nodes[m]
  }

  ghost predicate NodesOk(nodes: seq<bits>, lens: seq<nat>) {
    && Distinct(nodes)
    && (forall k :: 0 <= k < |nodes| ==> IsPrefix(lens, nodes[k]))
    && (forall k :: 0 <= k < |nodes| && |nodes[k]| > FAST_BITS ==> nodes[k][..|nodes[k]| - 1] in nodes)
  }

  /** The long codes entered so far hang from nodes. */
  ghost predicate Hung(nodes: seq<bits>, lens: seq<nat>, i: nat)
    requires i <= |lens|
  {
    forall s :: 0 <= s < i && lens[s] > FAST_BITS ==> CodeBits(lens, s)[..lens[s] - 1] in nodes
  }

  ghost predicate TableOk(look: seq<int>, tree: seq<int>, nodes: seq<bits>, lens: seq<nat>, i: nat) {
    && i <= |lens| <= MAX_CODES && Limited(lens, MAX_BITS) && NotOver(lens)
    && LookAll(look, nodes, lens, i) && TreeAll(tree, nodes, lens, i)
    && NodesOk(nodes, lens) && Hung(nodes, lens, i)
  }

  lemma TableStart(look: seq<int>, tree: seq<int>, lens: seq<nat>)
    requires |lens| <= MAX_CODES && Limited(lens, MAX_BITS) && NotOver(lens)
    requires |look| == FAST_SIZE && |tree| == TREE_SIZE
    requires forall j :: 0 <= j < FAST_SIZE ==> look[j] == 0
    requires forall j :: 0 <= j < TREE_SIZE ==> tree[j] == 0
    ensures TableOk(look, tree, [], lens, 0)
  {
  }

  // ---- Prefixes

  /** No code is the beginning of another, nor of what another begins with. */
  lemma NoPrefix(lens: seq<nat>, s: nat, w: bits, t: nat)
    requires NotOver(lens) && Limited(lens, MAX_BITS) && Begins(lens, w, t)
    requires s < |lens| && 0 < lens[s] <= |w|
    ensures CodeBits(lens, s) != w[..lens[s]]
  {
    PrefixFree(lens, s, t);
    hide CodeBits;
    assert CodeBits(lens, t)[..lens[s]] == w[..lens[s]];
  }

  lemma NotNode(nodes: seq<bits>, lens: seq<nat>, s: nat, w: bits)
    requires NotOver(lens) && Limited(lens, MAX_BITS) && NodesOk(nodes, lens)
    requires s < |lens| && 0 < lens[s] <= FAST_BITS && lens[s] <= |w| && CodeBits(lens, s) == w[..lens[s]]
    ensures w !in nodes
  {
    forall k | 0 <= k < |nodes| ensures nodes[k] != w {
      assert IsPrefix(lens, nodes[k]);
      var t :| Begins(lens, nodes[k], t);
      NoPrefix(lens, s, nodes[k], t);
    }
  }

  lemma SameCode(lens: seq<nat>, s: nat, t: nat)
    requires NotOver(lens) && Limited(lens, MAX_BITS)
    requires s < |lens| && t < |lens| && 0 < lens[s] <= lens[t] && CodeBits(lens, t)[..lens[s]] == CodeBits(lens, s)
    ensures s == t
  {
    if s != t { PrefixFree(lens, s, t); }
  }

  // ---- Entering one symbol

  lemma AddNone(look: seq<int>, tree: seq<int>, nodes: seq<bits>, lens: seq<nat>, i: nat)
    requires TableOk(look, tree, nodes, lens, i) && i < |lens| && lens[i] == 0
    ensures TableOk(look, tree, nodes, lens, i + 1)
  {
    hide NotOver, CodeBits, BitsOf;
    LookNext(look, nodes, lens, i);
    TreeNext(tree, nodes, lens, i);
  }

  lemma TreeNext(tree: seq<int>, nodes: seq<bits>, lens: seq<nat>, i: nat)
    requires i < |lens| && lens[i] <= FAST_BITS && TreeAll(tree, nodes, lens, i) && NodesOk(nodes, lens)
    ensures TreeAll(tree, nodes, lens, i + 1)
  {
    hide CodeBits, Slot;
    forall k: nat, b: bool | k < |nodes| ensures SlotOk(Slot(tree, k, b), nodes[k] + [b], nodes, lens, i + 1) {
      assert SlotOk(Slot(tree, k, b), nodes[k] + [b], nodes, lens, i);
      assert IsPrefix(lens, nodes[k]);
    }
  }

  ghost predicate Matches(lens: seq<nat>, i: nat, w: bits)
    requires i < |lens|
  {
    0 < lens[i] <= |w| && CodeBits(lens, i) == w[..lens[i]]
  }

  lemma ShortEntry(e: int, w: bits, nodes: seq<bits>, lens: seq<nat>, i: nat)
    requires NotOver(lens) && Limited(lens, MAX_BITS) && NodesOk(nodes, lens)
    requires i < |lens| && 0 < lens[i] <= FAST_BITS && |w| == FAST_BITS && i < 512
    requires LookOk(e, w, nodes, lens, i)
    ensures LookOk(if Matches(lens, i, w) then 512 * lens[i] + i else e, w, nodes, lens, i + 1)
  {
    if Matches(lens, i, w) {
      var n := 512 * lens[i] + i;
      NotNode(nodes, lens, i, w);
      forall s | 0 <= s < i + 1 && 0 < lens[s] <= FAST_BITS && CodeBits(lens, s) == w[..lens[s]]
        ensures n == 512 * lens[s] + s
      {
        if lens[s] <= lens[i] {
          assert w[..lens[i]][..lens[s]] == w[..lens[s]];
          SameCode(lens, s, i);
        } else {
          assert w[..lens[s]][..lens[i]] == w[..lens[i]];
          SameCode(lens, i, s);
        }
      }
    }
  }

  lemma AddShort(look: seq<int>, look': seq<int>, tree: seq<int>, nodes: seq<bits>, lens: seq<nat>, i: nat)
    requires TableOk(look, tree, nodes, lens, i) && i < |lens| && 0 < lens[i] <= FAST_BITS
    requires |look'| == FAST_SIZE
    requires forall j :: 0 <= j < FAST_SIZE ==>
      look'[j] == if Matches(lens, i, BitsOf(j, FAST_BITS)) then 512 * lens[i] + i else look[j]
    ensures TableOk(look', tree, nodes, lens, i + 1)
  {
    hide NotOver, CodeBits, BitsOf;
    forall j | 0 <= j < FAST_SIZE ensures LookOk(look'[j], BitsOf(j, FAST_BITS), nodes, lens, i + 1) {
      ShortEntry(look[j], BitsOf(j, FAST_BITS), nodes, lens, i);
    }
    TreeNext(tree, nodes, lens, i);
  }

  lemma RefersGrow(e: int, w: bits, nodes: seq<bits>, more: bits)
    requires Refers(e, w, nodes)
    ensures Refers(e, w, nodes + [more])
  {
  }

  /** Entries for other words do not notice a new node. */
  lemma LookGrow(e: int, w: bits, nodes: seq<bits>, more: bits, lens: seq<nat>, i: nat)
    requires i <= |lens| && |w| == FAST_BITS && LookOk(e, w, nodes, lens, i) && w != more
    ensures LookOk(e, w, nodes + [more], lens, i)
  {
    hide CodeBits;
    if e < 0 { RefersGrow(e, w, nodes, more); }
  }

  lemma SlotGrow(e: int, x: bits, nodes: seq<bits>, more: bits, lens: seq<nat>, i: nat)
    requires i <= |lens| && SlotOk(e, x, nodes, lens, i) && x != more
    ensures SlotOk(e, x, nodes + [more], lens, i)
  {
    hide CodeBits;
    if e < 0 { RefersGrow(e, x, nodes, more); }
  }

  /** The entries of a new node are empty: nothing below it has been entered. */
  lemma NewSlots(nodes: seq<bits>, w: bits, b: bool, lens: seq<nat>, i: nat)
    requires i <= |lens| && NodesOk(nodes, lens) && Hung(nodes, lens, i)
    requires w !in nodes && |w| >= FAST_BITS
    ensures SlotOk(0, w + [b], nodes + [w], lens, i)
  {
    hide CodeBits;
    var x := w + [b];
    assert x[..|w|] == w;
    assert x !in nodes;
  }

  /** `w` may become a node: it is new, begins the code of `i`, and its own prefix is there. */
  ghost predicate Addable(nodes: seq<bits>, lens: seq<nat>, i: nat, w: bits) {
    && w !in nodes && FAST_BITS <= |w| && Begins(lens, w, i)
    && (|w| > FAST_BITS ==> w[..|w| - 1] in nodes)
  }

  lemma NodesAdd(nodes: seq<bits>, lens: seq<nat>, i: nat, w: bits)
    requires Limited(lens, MAX_BITS) && NodesOk(nodes, lens) && Addable(nodes, lens, i, w)
    ensures NodesOk(nodes + [w], lens)
  {
    hide CodeBits;
    assert IsPrefix(lens, w);
    var all := nodes + [w];
    forall k | 0 <= k < |all| && |all[k]| > FAST_BITS ensures all[k][..|all[k]| - 1] in all {
      if k < |nodes| { assert all[k] == nodes[k]; }
    }
  }

  lemma TreeAdd(tree: seq<int>, tree': seq<int>, nodes: seq<bits>, w: bits, lens: seq<nat>, i: nat)
    requires i < |lens| && TreeAll(tree, nodes, lens, i) && NodesOk(nodes, lens) && Hung(nodes, lens, i)
    requires NotOver(lens) && Limited(lens, MAX_BITS) && Addable(nodes, lens, i, w)
    requires |nodes| < MAX_CODES && |tree'| == TREE_SIZE
    requires forall k: nat, b: bool ::
      Slot(tree', k, b) == (if k < |nodes| && nodes[k] + [b] == w then Ref(|nodes|) else Slot(tree, k, b))
    requires forall k: nat, b: bool :: k < |nodes| && nodes[k] + [b] == w ==> Slot(tree, k, b) == 0
    ensures TreeAll(tree', nodes + [w], lens, i)
  {
    hide CodeBits, Slot, NotOver;
    var all := nodes + [w];
    forall k: nat, b: bool | k < |all| ensures SlotOk(Slot(tree', k, b), all[k] + [b], all, lens, i) {
      if k == |nodes| {
        NewSlots(nodes, w, b, lens, i);
      } else {
        var e, x := Slot(tree, k, b), nodes[k] + [b];
        assert SlotOk(e, x, nodes, lens, i);
        if x == w {
          ChildSlot(x, nodes, lens, i);
        } else {
          SlotGrow(e, x, nodes, w, lens, i);
        }
      }
    }
  }

  /** The entry that leads to a new node. */
  lemma ChildSlot(x: bits, nodes: seq<bits>, lens: seq<nat>, i: nat)
    requires NotOver(lens) && Limited(lens, MAX_BITS) && Begins(lens, x, i) && x != []
    ensures SlotOk(Ref(|nodes|), x, nodes + [x], lens, i)
  {
    forall s | 0 <= s < i && lens[s] == |x| ensures CodeBits(lens, s) != x {
      NoPrefix(lens, s, x, i);
      assert x[..lens[s]] == x;
    }
  }

  lemma HungGrow(nodes: seq<bits>, w: bits, lens: seq<nat>, i: nat)
    requires i <= |lens| && Hung(nodes, lens, i)
    ensures Hung(nodes + [w], lens, i)
  {
    hide CodeBits;
  }

  /** The first 10 bits of a long code become a node. */
  lemma AddRoot(look: seq<int>, tree: seq<int>, nodes: seq<bits>, lens: seq<nat>, i: nat, j: nat, w: bits)
    requires TableOk(look, tree, nodes, lens, i) && i < |lens| && |nodes| < MAX_CODES
    requires j < FAST_SIZE && w == BitsOf(j, FAST_BITS) && look[j] == 0 && Begins(lens, w, i)
    ensures TableOk(look[j := Ref(|nodes|)], tree, nodes + [w], lens, i)
  {
    hide CodeBits, NotOver, BitsOf, Slot;
    assert LookOk(look[j], w, nodes, lens, i);
    RootLookup(look, nodes, lens, i, j, w);
    NodesAdd(nodes, lens, i, w);
    TreeAdd(tree, tree, nodes, w, lens, i);
    HungGrow(nodes, w, lens, i);
  }

  lemma RootLookup(look: seq<int>, nodes: seq<bits>, lens: seq<nat>, i: nat, j: nat, w: bits)
    requires NotOver(lens) && Limited(lens, MAX_BITS) && i <= |lens| && LookAll(look, nodes, lens, i)
    requires j < FAST_SIZE && w == BitsOf(j, FAST_BITS) && Begins(lens, w, i)
    ensures LookAll(look[j := Ref(|nodes|)], nodes + [w], lens, i)
  {
    hide CodeBits, NotOver, BitsOf;
    var all, look' := nodes + [w], look[j := Ref(|nodes|)];
    forall m | 0 <= m < FAST_SIZE ensures LookOk(look'[m], BitsOf(m, FAST_BITS), all, lens, i) {
      assert LookOk(look[m], BitsOf(m, FAST_BITS), nodes, lens, i);
      if m == j {
        RootEntry(nodes, w, lens, i);
      } else {
        WordsApart(m, j);
        LookGrow(look[m], BitsOf(m, FAST_BITS), nodes, w, lens, i);
      }
    }
  }

  lemma RootEntry(nodes: seq<bits>, w: bits, lens: seq<nat>, i: nat)
    requires NotOver(lens) && Limited(lens, MAX_BITS) && |w| == FAST_BITS && Begins(lens, w, i)
    ensures LookOk(Ref(|nodes|), w, nodes + [w], lens, i)
  {
    forall s | 0 <= s < i && 0 < lens[s] <= FAST_BITS ensures CodeBits(lens, s) != w[..lens[s]] {
      NoPrefix(lens, s, w, i);
    }
  }

  lemma WordsApart(m: nat, j: nat)
    requires m < FAST_SIZE && j < FAST_SIZE && m != j
    ensures BitsOf(m, FAST_BITS) != BitsOf(j, FAST_BITS)
  {
    Pow2Table();
    ValBitsOf(m, FAST_BITS);
    ValBitsOf(j, FAST_BITS);
  }

  /** One more bit of a long code becomes a node below node `k`. */
  lemma AddChild(look: seq<int>, tree: seq<int>, nodes: seq<bits>, lens: seq<nat>, i: nat, k: nat, b: bool)
    requires TableOk(look, tree, nodes, lens, i) && i < |lens| && |nodes| < MAX_CODES
    requires k < |nodes| && Slot(tree, k, b) == 0 && Begins(lens, nodes[k] + [b], i)
    ensures TableOk(look, tree[2 * k + BitVal(b) := Ref(|nodes|)], nodes + [nodes[k] + [b]], lens, i)
  {
    hide CodeBits, NotOver, BitsOf;
    var w, tree' := nodes[k] + [b], tree[2 * k + BitVal(b) := Ref(|nodes|)];
    assert w[..|w| - 1] == nodes[k];
    assert SlotOk(0, w, nodes, lens, i) && IsPrefix(lens, nodes[k]);
    NodesAdd(nodes, lens, i, w);
    SlotUpdate(tree, tree', k, b, Ref(|nodes|));
    ChildUnique(nodes, k, b);
    hide Slot;
    TreeAdd(tree, tree', nodes, w, lens, i);
    HungGrow(nodes, w, lens, i);
    forall m | 0 <= m < FAST_SIZE ensures LookOk(look[m], BitsOf(m, FAST_BITS), nodes + [w], lens, i) {
      LookGrow(look[m], BitsOf(m, FAST_BITS), nodes, w, lens, i);
    }
  }

  lemma SlotUpdate(tree: seq<int>, r: seq<int>, k: nat, b: bool, e: int)
    requires 2 * k + BitVal(b) < |tree| && r == tree[2 * k + BitVal(b) := e]
    ensures forall m: nat, c: bool :: Slot(r, m, c) == (if m == k && c == b then e else Slot(tree, m, c))
  {
    forall m: nat, c: bool ensures Slot(r, m, c) == (if m == k && c == b then e else Slot(tree, m, c)) {
      SlotUpdateAt(tree, r, k, b, e, m, c);
    }
  }

  lemma SlotUpdateAt(tree: seq<int>, r: seq<int>, k: nat, b: bool, e: int, m: nat, c: bool)
    requires 2 * k + BitVal(b) < |tree| && r == tree[2 * k + BitVal(b) := e]
    ensures Slot(r, m, c) == (if m == k && c == b then e else Slot(tree, m, c))
  {
    if m != k || c != b {
      assert 2 * m + BitVal(c) != 2 * k + BitVal(b);
    }
  }

  lemma ChildUnique(nodes: seq<bits>, k: nat, b: bool)
    requires Distinct(nodes) && k < |nodes|
    ensures forall m: nat, c: bool :: m < |nodes| && nodes[m] + [c] == nodes[k] + [b] ==> m == k && c == b
  {
    forall m: nat, c: bool | m < |nodes| && nodes[m] + [c] == nodes[k] + [b] ensures m == k && c == b {
      var x := nodes[k] + [b];
      assert nodes[m] == x[..|x| - 1] && nodes[k] == x[..|x| - 1];
      assert (nodes[m] + [c])[|x| - 1] == c;
    }
  }

  /** The last bit of a long code leads to its symbol. */
  lemma AddLeaf(look: seq<int>, tree: seq<int>, nodes: seq<bits>, lens: seq<nat>, i: nat, k: nat, b: bool)
    requires TableOk(look, tree, nodes, lens, i) && i < |lens|
    requires k < |nodes| && lens[i] == |nodes[k]| + 1 && CodeBits(lens, i) == nodes[k] + [b]
    ensures TableOk(look, tree[2 * k + BitVal(b) := i], nodes, lens, i + 1)
  {
    hide CodeBits, NotOver, BitsOf, LookOk, SlotOk, Slot, Begins, IsPrefix;
    var w, tree' := nodes[k] + [b], tree[2 * k + BitVal(b) := i];
    assert w[..|nodes[k]|] == nodes[k];
    LeafLong(nodes, lens, k);
    LeafTree(tree, tree', nodes, lens, i, k, b);
    LookNext(look, nodes, lens, i);
    HungNext(nodes, lens, i, k);
  }

  lemma LeafLong(nodes: seq<bits>, lens: seq<nat>, k: nat)
    requires NodesOk(nodes, lens) && k < |nodes|
    ensures |nodes[k]| >= FAST_BITS
  {
    assert IsPrefix(lens, nodes[k]);
  }

  lemma LeafTree(tree: seq<int>, tree': seq<int>, nodes: seq<bits>, lens: seq<nat>, i: nat, k: nat, b: bool)
    requires NotOver(lens) && Limited(lens, MAX_BITS) && NodesOk(nodes, lens)
    requires i < |lens| && TreeAll(tree, nodes, lens, i) && k < |nodes| && lens[i] == |nodes[k]| + 1
    requires CodeBits(lens, i) == nodes[k] + [b]
    requires tree' == tree[2 * k + BitVal(b) := i]
    ensures TreeAll(tree', nodes, lens, i + 1)
  {
    hide CodeBits, NotOver;
    SlotUpdate(tree, tree', k, b, i);
    ChildUnique(nodes, k, b);
    hide Slot, Distinct, SlotOk;
    forall m: nat, c: bool | m < |nodes| ensures SlotOk(Slot(tree', m, c), nodes[m] + [c], nodes, lens, i + 1) {
      if m == k && c == b {
        LeafEntry(nodes, nodes[k] + [b], lens, i);
      } else {
        SlotNext(Slot(tree, m, c), nodes[m] + [c], nodes, lens, i);
      }
    }
  }

  lemma SlotNext(e: int, x: bits, nodes: seq<bits>, lens: seq<nat>, i: nat)
    requires i < |lens| && SlotOk(e, x, nodes, lens, i) && CodeBits(lens, i) != x
    ensures SlotOk(e, x, nodes, lens, i + 1)
  {
    hide CodeBits;
  }

  lemma LookNext(look: seq<int>, nodes: seq<bits>, lens: seq<nat>, i: nat)
    requires i < |lens| && (lens[i] == 0 || lens[i] > FAST_BITS) && LookAll(look, nodes, lens, i)
    ensures LookAll(look, nodes, lens, i + 1)
  {
    hide CodeBits, BitsOf;
    forall j | 0 <= j < FAST_SIZE ensures LookOk(look[j], BitsOf(j, FAST_BITS), nodes, lens, i + 1) {
      assert LookOk(look[j], BitsOf(j, FAST_BITS), nodes, lens, i);
    }
  }

  lemma HungNext(nodes: seq<bits>, lens: seq<nat>, i: nat, k: nat)
    requires i < |lens| && Hung(nodes, lens, i) && k < |nodes| && lens[i] == |nodes[k]| + 1
    requires CodeBits(lens, i)[..|nodes[k]|] == nodes[k]
    ensures Hung(nodes, lens, i + 1)
  {
    hide CodeBits;
  }

  lemma LeafEntry(nodes: seq<bits>, w: bits, lens: seq<nat>, i: nat)
    requires NotOver(lens) && Limited(lens, MAX_BITS) && NodesOk(nodes, lens) && i < |lens|
    requires lens[i] == |w| > 0 && CodeBits(lens, i) == w
    ensures SlotOk(i, w, nodes, lens, i + 1)
  {
    assert w[..|w|] == w;
    forall s | 0 <= s < i + 1 && lens[s] == |w| && CodeBits(lens, s) == w ensures s == i {
      SameCode(lens, s, i);
    }
    forall k | 0 <= k < |nodes| ensures nodes[k] != w {
      assert IsPrefix(lens, nodes[k]);
      var t :| Begins(lens, nodes[k], t);
      if |nodes[k]| >= |w| {
        NoPrefix(lens, i, nodes[k], t);
      }
    }
  }

  // ---- The tree has room

  /** The words of length `d` among the nodes, as numbers. */
  function Row(nodes: seq<bits>, d: nat): seq<nat> {
    if nodes == [] then []
    else
      var w := nodes[|nodes| - 1];
      Row(nodes[..|nodes| - 1], d) + if |w| == d then [Msb(w)] else []
  }

  lemma {:induction false} RowFrom(nodes: seq<bits>, d: nat, v: nat)
    requires v in Row(nodes, d)
    ensures exists k :: 0 <= k < |nodes| && |nodes[k]| == d && Msb(nodes[k]) == v
  {
    var n := |nodes| - 1;
    if v in Row(nodes[..n], d) {
      RowFrom(nodes[..n], d, v);
      var k :| 0 <= k < n && |nodes[..n][k]| == d && Msb(nodes[..n][k]) == v;
      assert nodes[k] == nodes[..n][k];
    } else {
      assert |nodes[n]| == d && Msb(nodes[n]) == v;
    }
  }

  ghost predicate NoRepeat(s: seq<nat>) {
    forall i, j :: 0 <= i < j < |s| ==> s[i] != s[j]
  }

  lemma {:induction false} RowDistinct(nodes: seq<bits>, d: nat)
    requires Distinct(nodes)
    ensures NoRepeat(Row(nodes, d))
  {
    if nodes != [] {
      var n := |nodes| - 1;
      var w := nodes[n];
      RowDistinct(nodes[..n], d);
      if |w| == d && Msb(w) in Row(nodes[..n], d) {
        RowFrom(nodes[..n], d, Msb(w));
        var k :| 0 <= k < n && |nodes[..n][k]| == d && Msb(nodes[..n][k]) == Msb(w);
        MsbBitsOfMsb(w);
        MsbBitsOfMsb(nodes[k]);
      }
    }
  }

  lemma {:induction false} RowSum(nodes: seq<bits>)
    requires forall k :: 0 <= k < |nodes| ==> 10 <= |nodes[k]| <= 14
    ensures |nodes| == |Row(nodes, 10)| + |Row(nodes, 11)| + |Row(nodes, 12)| + |Row(nodes, 13)| + |Row(nodes, 14)|
  {
    if nodes != [] { RowSum(nodes[..|nodes| - 1]); }
  }

  lemma {:induction false} Pigeonhole(s: seq<nat>, lo: int, hi: int)
    requires NoRepeat(s) && lo <= hi && forall i :: 0 <= i < |s| ==> lo <= s[i] < hi
    ensures |s| <= hi - lo
    decreases hi - lo
  {
    if s != [] {
      var top := hi - 1;
      assert lo <= s[0] < hi;
      if top in s {
        var k :| 0 <= k < |s| && s[k] == top;
        var t := s[..k] + s[k + 1..];
        assert forall i :: 0 <= i < |t| ==> t[i] == if i < k then s[i] else s[i + 1];
        Pigeonhole(t, lo, top);
      } else {
        Pigeonhole(s, lo, top);
      }
    }
  }

  /** At depth `d` there are at most as many nodes as words the shorter codes leave free. */
  lemma RowFree(nodes: seq<bits>, lens: seq<nat>, d: nat)
    requires NotOver(lens) && Limited(lens, MAX_BITS) && NodesOk(nodes, lens) && 1 <= d <= 14
    ensures |Row(nodes, d)| <= Free(lens, d)
  {
    RowDistinct(nodes, d);
    var r := Row(nodes, d);
    forall i | 0 <= i < |r| ensures Pow2(d) - Free(lens, d) <= r[i] < Pow2(d) {
      RowFrom(nodes, d, r[i]);
      var k :| 0 <= k < |nodes| && |nodes[k]| == d && Msb(nodes[k]) == r[i];
      assert IsPrefix(lens, nodes[k]);
      var s :| Begins(lens, nodes[k], s);
      LongCodePrefix(lens, s, d);
      MsbBound(nodes[k]);
    }
    assert Free(lens, d) >= 0;
    Pigeonhole(r, Pow2(d) - Free(lens, d), Pow2(d));
  }

  lemma {:induction false} UsedBounds(lens: seq<nat>, m: nat)
    ensures Used(lens, m) <= |lens|
    ensures forall s :: 0 <= s < |lens| && 1 <= lens[s] <= m ==> Used(lens, m) >= 1
    ensures forall s, t :: 0 <= s < t < |lens| && 1 <= lens[s] <= m && 1 <= lens[t] <= m ==> Used(lens, m) >= 2
  {
    if lens == [] {
      UsedNone(m);
    } else {
      var n := |lens| - 1;
      UsedBounds(lens[..n], m);
      UsedPush(lens[..n], lens[n], m);
      assert lens[..n] + [lens[n]] == lens;
    }
  }

  lemma FreeSum(lens: seq<nat>)
    requires Complete(lens) && NotOver(lens)
    ensures Free(lens, 10) + Free(lens, 11) + Free(lens, 12) + Free(lens, 13) + Free(lens, 14) <= |lens|
  {
    UsedBounds(lens, 15);
    hide Count;
    assert Used(lens, 15) == Used(lens, 14) + Count(lens, 15);
    assert Used(lens, 14) == Used(lens, 13) + Count(lens, 14);
    assert Used(lens, 13) == Used(lens, 12) + Count(lens, 13);
    assert Used(lens, 12) == Used(lens, 11) + Count(lens, 12);
    assert Used(lens, 11) == Used(lens, 10) + Count(lens, 11);
    assert Free(lens, 10) >= 0;
    assert Free(lens, 11) == 2 * Free(lens, 10) - Count(lens, 11);
    assert Free(lens, 12) == 2 * Free(lens, 11) - Count(lens, 12);
    assert Free(lens, 13) == 2 * Free(lens, 12) - Count(lens, 13);
    assert Free(lens, 14) == 2 * Free(lens, 13) - Count(lens, 14);
    assert Free(lens, 15) == 2 * Free(lens, 14) - Count(lens, 15);
  }

  /** Of a code with a single symbol every depth holds at most one node. */
  lemma RowSingle(nodes: seq<bits>, lens: seq<nat>, d: nat)
    requires Used(lens, MAX_BITS) <= 1 && Limited(lens, MAX_BITS) && NodesOk(nodes, lens)
    ensures |Row(nodes, d)| <= 1
  {
    RowDistinct(nodes, d);
    UsedBounds(lens, MAX_BITS);
    var r := Row(nodes, d);
    forall i, j | 0 <= i < |r| && 0 <= j < |r| ensures r[i] == r[j] {
      RowFrom(nodes, d, r[i]);
      RowFrom(nodes, d, r[j]);
      var k :| 0 <= k < |nodes| && |nodes[k]| == d && Msb(nodes[k]) == r[i];
      var m :| 0 <= m < |nodes| && |nodes[m]| == d && Msb(nodes[m]) == r[j];
      assert IsPrefix(lens, nodes[k]) && IsPrefix(lens, nodes[m]);
      var s :| Begins(lens, nodes[k], s);
      var t :| Begins(lens, nodes[m], t);
      assert s == t;
    }
    if r != [] {
      Pigeonhole(r, r[0], r[0] + 1);
    }
  }

  /** The overflow tree never needs more than its 576 entries. */
  lemma TreeHasRoom(nodes: seq<bits>, lens: seq<nat>)
    requires Usable(lens) && |lens| <= MAX_CODES && NodesOk(nodes, lens)
    ensures |nodes| <= MAX_CODES
  {
    UsableNotOver(lens);
    forall k | 0 <= k < |nodes| ensures 10 <= |nodes[k]| <= 14 {
      assert IsPrefix(lens, nodes[k]);
    }
    RowSum(nodes);
    if Complete(lens) {
      FreeSum(lens);
      RowFree(nodes, lens, 10);
      RowFree(nodes, lens, 11);
      RowFree(nodes, lens, 12);
      RowFree(nodes, lens, 13);
      RowFree(nodes, lens, 14);
    } else {
      RowSingle(nodes, lens, 10);
      RowSingle(nodes, lens, 11);
      RowSingle(nodes, lens, 12);
      RowSingle(nodes, lens, 13);
      RowSingle(nodes, lens, 14);
    }
  }

  // ---- Decoding

  lemma PaddedWord(w: bits)
    requires |w| == FAST_BITS
    ensures Val(w) < FAST_SIZE && BitsOf(Val(w), FAST_BITS) == w
  {
    Pow2Table();
    ValBound(w);
    BitsOfVal(w);
  }

  /** A code of at most 10 bits is found in the lookup table, whatever follows it. */
  lemma ShortLookup(look: seq<int>, tree: seq<int>, nodes: seq<bits>, lens: seq<nat>, s: nat, w: bits)
    requires TableOk(look, tree, nodes, lens, |lens|) && |w| == FAST_BITS
    requires s < |lens| && 0 < lens[s] <= FAST_BITS && CodeBits(lens, s) == w[..lens[s]]
    ensures Val(w) < FAST_SIZE && look[Val(w)] == 512 * lens[s] + s
  {
    PaddedWord(w);
    assert LookOk(look[Val(w)], BitsOf(Val(w), FAST_BITS), nodes, lens, |lens|);
  }

  /** A positive lookup entry is a code that begins these 10 bits. */
  lemma LookupShort(look: seq<int>, tree: seq<int>, nodes: seq<bits>, lens: seq<nat>, w: bits)
    requires TableOk(look, tree, nodes, lens, |lens|) && |w| == FAST_BITS && Val(w) < FAST_SIZE
    ensures look[Val(w)] > 0 ==>
      var s := look[Val(w)] % 512;
      s < |lens| && 1 <= lens[s] <= FAST_BITS && lens[s] == look[Val(w)] / 512 && CodeBits(lens, s) == w[..lens[s]]
  {
    PaddedWord(w);
    assert LookOk(look[Val(w)], BitsOf(Val(w), FAST_BITS), nodes, lens, |lens|);
  }

  /** A negative lookup entry refers to the node of these 10 bits. */
  lemma LookupNode(look: seq<int>, tree: seq<int>, nodes: seq<bits>, lens: seq<nat>, w: bits)
    requires TableOk(look, tree, nodes, lens, |lens|) && |w| == FAST_BITS && Val(w) < FAST_SIZE
    ensures look[Val(w)] < 0 ==> Refers(look[Val(w)], w, nodes)
    ensures look[Val(w)] < 0 <==> w in nodes
  {
    PaddedWord(w);
    assert LookOk(look[Val(w)], BitsOf(Val(w), FAST_BITS), nodes, lens, |lens|);
  }

  lemma {:induction false} Ancestor(nodes: seq<bits>, lens: seq<nat>, w: bits, d: nat)
    requires NodesOk(nodes, lens) && w in nodes && FAST_BITS <= d <= |w|
    ensures w[..d] in nodes
    decreases |w|
  {
    if d < |w| {
      Ancestor(nodes, lens, w[..|w| - 1], d);
      assert w[..|w| - 1][..d] == w[..d];
    } else {
      assert w[..d] == w;
    }
  }

  /** Every proper prefix of a long code, from 10 bits on, is a node. */
  lemma LongPrefix(look: seq<int>, tree: seq<int>, nodes: seq<bits>, lens: seq<nat>, s: nat, d: nat)
    requires TableOk(look, tree, nodes, lens, |lens|)
    requires s < |lens| && FAST_BITS <= d < lens[s]
    ensures CodeBits(lens, s)[..d] in nodes
  {
    hide CodeBits, LookAll, TreeAll, NotOver, NodesOk;
    var c := CodeBits(lens, s);
    Ancestor(nodes, lens, c[..lens[s] - 1], d);
    assert c[..lens[s] - 1][..d] == c[..d];
  }

  lemma WalkSlot(tree: seq<int>, nodes: seq<bits>, lens: seq<nat>, s: nat, k: nat, b: bool, x: bits)
    requires TreeAll(tree, nodes, lens, |lens|) && k < |nodes| && x == nodes[k] + [b]
    ensures x in nodes ==> Refers(Slot(tree, k, b), x, nodes)
    ensures s < |lens| && lens[s] == |x| && CodeBits(lens, s) == x ==> Slot(tree, k, b) == s
  {
    hide CodeBits;
    assert SlotOk(Slot(tree, k, b), nodes[k] + [b], nodes, lens, |lens|);
  }

  /** One step down the tree along a long code. */
  lemma WalkStep(look: seq<int>, tree: seq<int>, nodes: seq<bits>, lens: seq<nat>, s: nat, e: int, d: nat)
    requires TableOk(look, tree, nodes, lens, |lens|)
    requires s < |lens| && FAST_BITS <= d < lens[s] && Refers(e, CodeBits(lens, s)[..d], nodes)
    ensures
      var r := Slot(tree, NodeOf(e), CodeBits(lens, s)[d]);
      if d + 1 < lens[s] then Refers(r, CodeBits(lens, s)[..d + 1], nodes) else r == s
  {
    hide CodeBits, LookAll, NotOver, NodesOk, Hung, Slot;
    var c, k := CodeBits(lens, s), NodeOf(e);
    if d + 1 < lens[s] {
      LongPrefix(look, tree, nodes, lens, s, d + 1);
    }
    WalkSlot(tree, nodes, lens, s, k, c[d], c[..d + 1]);
    assert c[..lens[s]] == c;
  }
}
