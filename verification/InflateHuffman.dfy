/** `TINFL_HUFF_DECODE` and `TINFL_HUFF_BITBUF_FILL`: decoding a symbol through the tables is canonical
    decoding, and no more input is fetched than the code needs once input runs short. */
module InflateHuffman {
  import opened Bits
  import opened Canonical
  import opened InflateTable
  import opened InflateBuild
  import opened InflateReader
  import opened InflateSteps

  /** The 10 bits the lookup table is indexed with: missing ones read as zero. */
  function LowBits(w: bits): (r: bits)
    ensures |r| == FAST_BITS
  {
    if |w| >= FAST_BITS then w[..FAST_BITS] else w + seq(FAST_BITS - |w|, i => false)
  }

  lemma {:induction false} ZerosVal(n: nat)
    ensures Val(seq(n, i => false)) == 0
  {
    if n > 0 {
      ZerosVal(n - 1);
      assert seq(n, i => false)[1..] == seq(n - 1, i => false);
    }
  }

  lemma PaddedVal(w: bits, z: bits)
    requires Val(z) == 0
    ensures Val(w + z) == Val(w)
  {
    ValAppend(w, z);
    assert Pow2(|w|) * 0 == 0;
  }

  lemma LowBitsVal(w: bits)
    ensures Val(LowBits(w)) == Val(w) % FAST_SIZE
    ensures forall l :: 0 <= l <= FAST_BITS && l <= |w| ==> LowBits(w)[..l] == w[..l]
  {
    hide Val;
    Pow2Table();
    if |w| >= FAST_BITS {
      ValSplit(w, FAST_BITS);
    } else {
      ZerosVal(FAST_BITS - |w|);
      PaddedVal(w, seq(FAST_BITS - |w|, i => false));
      ValBound(LowBits(w));
      SmallModulo(Val(w), FAST_SIZE);
    }
  }

  /** The table decodes `lens`, whose symbol `s` comes next in the stream; `w` is what is buffered. */
  ghost predicate Facing(look: seq<int>, tree: seq<int>, nodes: seq<bits>, lens: seq<nat>, s: nat, w: bits,
                         str: bits, pos: nat) {
    && TableOk(look, tree, nodes, lens, |lens|) && CodeAt(lens, s, str, pos)
    && pos + |w| <= |str| && w == str[pos..pos + |w|]
  }

  /** The code of the next symbol against the buffered bits. */
  lemma FacingCode(look: seq<int>, tree: seq<int>, nodes: seq<bits>, lens: seq<nat>, s: nat, w: bits, str: bits,
                   pos: nat)
    requires Facing(look, tree, nodes, lens, s, w, str, pos)
    ensures |look| == FAST_SIZE && |tree| == TREE_SIZE && s < |lens| <= MAX_CODES && 0 < lens[s] <= MAX_BITS
    ensures NotOver(lens) && Limited(lens, MAX_BITS)
    ensures lens[s] <= |w| ==> w[..lens[s]] == CodeBits(lens, s)
    ensures forall l :: 0 <= l <= lens[s] && l <= |w| ==> CodeBits(lens, s)[..l] == w[..l]
    ensures forall l :: 0 <= l <= |w| ==> str[pos..pos + l] == w[..l]
  {
    hide CodeBits, LookAll, TreeAll, NodesOk, Hung, NotOver;
    TableParts(look, tree, nodes, lens, |lens|);
    var c := CodeBits(lens, s);
    forall l | 0 <= l <= |w| ensures str[pos..pos + l] == w[..l] {
      assert str[pos..pos + |w|][..l] == str[pos..pos + l];
    }
    forall l | 0 <= l <= lens[s] && l <= |w| ensures c[..l] == w[..l] {
      assert str[pos..pos + lens[s]][..l] == str[pos..pos + l];
    }
  }

  lemma EntryShort(look: seq<int>, tree: seq<int>, nodes: seq<bits>, lens: seq<nat>, s: nat, w: bits, str: bits,
                   pos: nat)
    requires Facing(look, tree, nodes, lens, s, w, str, pos) && s < |lens| && lens[s] <= |w| && lens[s] <= FAST_BITS
    ensures Val(w) % FAST_SIZE < |look| && look[Val(w) % FAST_SIZE] == 512 * lens[s] + s && s < 512
  {
    hide CodeBits, TableOk, Val;
    LowBitsVal(w);
    TableParts(look, tree, nodes, lens, |lens|);
    FacingCode(look, tree, nodes, lens, s, w, str, pos);
    ShortLookup(look, tree, nodes, lens, s, LowBits(w));
  }

  lemma EntryFound(look: seq<int>, tree: seq<int>, nodes: seq<bits>, lens: seq<nat>, s: nat, w: bits, str: bits,
                   pos: nat)
    requires Facing(look, tree, nodes, lens, s, w, str, pos)
    requires Val(w) % FAST_SIZE < |look| && look[Val(w) % FAST_SIZE] > 0 && look[Val(w) % FAST_SIZE] / 512 <= |w|
    ensures lens[s] <= |w| && lens[s] <= FAST_BITS
  {
    hide CodeBits, TableOk, Val;
    LowBitsVal(w);
    LookupShort(look, tree, nodes, lens, LowBits(w));
    FacingCode(look, tree, nodes, lens, s, w, str, pos);
    var t := look[Val(w) % FAST_SIZE] % 512;
    assert str[pos..pos + lens[t]] == w[..lens[t]];
    CodeAtUnique(lens, s, t, str, pos);
  }

  lemma EntryLong(look: seq<int>, tree: seq<int>, nodes: seq<bits>, lens: seq<nat>, s: nat, w: bits, str: bits,
                  pos: nat)
    requires Facing(look, tree, nodes, lens, s, w, str, pos) && s < |lens| && lens[s] > FAST_BITS && |w| >= FAST_BITS
    ensures Val(w) % FAST_SIZE < |look|
    ensures Refers(look[Val(w) % FAST_SIZE], CodeBits(lens, s)[..FAST_BITS], nodes)
  {
    hide CodeBits, TableOk, Val;
    LowBitsVal(w);
    TableParts(look, tree, nodes, lens, |lens|);
    FacingCode(look, tree, nodes, lens, s, w, str, pos);
    LongPrefix(look, tree, nodes, lens, s, FAST_BITS);
    LookupNode(look, tree, nodes, lens, LowBits(w));
  }

  /** The lookup entry against the symbol that comes next. */
  lemma EntryFacts(look: seq<int>, tree: seq<int>, nodes: seq<bits>, lens: seq<nat>, s: nat, w: bits, str: bits,
                   pos: nat)
    requires Facing(look, tree, nodes, lens, s, w, str, pos)
    ensures s < |lens| && |look| == FAST_SIZE && |tree| == TREE_SIZE && 0 < lens[s] <= MAX_BITS
    ensures
      var e := look[Val(w) % FAST_SIZE];
      && (lens[s] <= |w| && lens[s] <= FAST_BITS ==> e == 512 * lens[s] + s && s < 512)
      && (e > 0 && e / 512 <= |w| ==> lens[s] <= |w| && lens[s] <= FAST_BITS)
      && (lens[s] > FAST_BITS && |w| >= FAST_BITS ==> Refers(e, CodeBits(lens, s)[..FAST_BITS], nodes))
  {
    FacingCode(look, tree, nodes, lens, s, w, str, pos);
    hide CodeBits, Facing, Val, Refers;
    if lens[s] <= |w| && lens[s] <= FAST_BITS {
      EntryShort(look, tree, nodes, lens, s, w, str, pos);
    }
    var e := look[Val(w) % FAST_SIZE];
    if e > 0 && e / 512 <= |w| {
      EntryFound(look, tree, nodes, lens, s, w, str, pos);
    }
    if lens[s] > FAST_BITS && |w| >= FAST_BITS {
      EntryLong(look, tree, nodes, lens, s, w, str, pos);
    }
  }

  lemma FacingBit(look: seq<int>, tree: seq<int>, nodes: seq<bits>, lens: seq<nat>, s: nat, w: bits, str: bits,
                  pos: nat, d: nat)
    requires Facing(look, tree, nodes, lens, s, w, str, pos) && s < |lens| && d < lens[s] && d < |w|
    ensures BitOf(Val(w), d) == BitVal(CodeBits(lens, s)[d])
  {
    FacingCode(look, tree, nodes, lens, s, w, str, pos);
    hide CodeBits, Val, BitOf, Facing;
    BitOfVal(w, d);
    assert w[d] == w[..d + 1][d] && CodeBits(lens, s)[..d + 1][d] == CodeBits(lens, s)[d];
  }

  lemma RefersSlot(tree: seq<int>, e: int, b: bool, w: bits, nodes: seq<bits>)
    requires Refers(e, w, nodes) && 2 * |nodes| <= |tree|
    ensures 0 <= -e - 1 + BitVal(b) < |tree| && tree[-e - 1 + BitVal(b)] == Slot(tree, NodeOf(e), b)
  {
  }

  lemma FacingTable(look: seq<int>, tree: seq<int>, nodes: seq<bits>, lens: seq<nat>, s: nat, w: bits,
                    str: bits, pos: nat)
    requires Facing(look, tree, nodes, lens, s, w, str, pos)
    ensures TableOk(look, tree, nodes, lens, |lens|) && s < |lens|
  {
    hide TableOk, CodeBits;
  }

  lemma WalkBit(look: seq<int>, tree: seq<int>, nodes: seq<bits>, lens: seq<nat>, s: nat, w: bits, str: bits, pos: nat,
                e: int, d: nat)
    requires Facing(look, tree, nodes, lens, s, w, str, pos)
    requires FAST_BITS <= d < lens[s] && d < |w| && Refers(e, CodeBits(lens, s)[..d], nodes)
    ensures 0 <= -e - 1 + BitOf(Val(w), d) < |tree|
    ensures
      var r := tree[-e - 1 + BitOf(Val(w), d)];
      if d + 1 < lens[s] then Refers(r, CodeBits(lens, s)[..d + 1], nodes) else r == s
  {
    hide CodeBits, Val, BitOf, TableOk, Facing, Refers, Slot;
    FacingTable(look, tree, nodes, lens, s, w, str, pos);
    var c := CodeBits(lens, s);
    FacingBit(look, tree, nodes, lens, s, w, str, pos, d);
    TableParts(look, tree, nodes, lens, |lens|);
    WalkStep(look, tree, nodes, lens, s, e, d);
    RefersSlot(tree, e, c[d], c[..d], nodes);
  }

  /** Symbol `s` of the code of `lens` comes next, and the table is for that code. */
  ghost predicate Next(r: Reader, t: Lookup, lens: seq<nat>, s: nat)
    reads r, t, t.look, t.tree
  {
    r.Valid() && t.For(lens) && CodeAt(lens, s, ByteBits(r.stream), r.pos)
  }

  ghost function Window(r: Reader): bits
    reads r
    requires r.Valid()
  {
    ByteBits(r.stream)[r.pos..r.pos + r.numBits]
  }

  lemma NextFacing(r: Reader, t: Lookup, lens: seq<nat>, s: nat)
    requires Next(r, t, lens, s)
    ensures r.Valid() && t.Shaped() && s < |lens|
    ensures Facing(t.look[..], t.tree[..], t.nodes, lens, s, Window(r), ByteBits(r.stream), r.pos)
    ensures r.bitBuf == Val(Window(r)) && |Window(r)| == r.numBits
    ensures 8 * r.eaten == r.pos + r.numBits && r.pos + lens[s] <= 8 * |r.stream| && r.capacity >= NARROW_BITS
  {
    hide TableOk, CodeBits, Val, Usable, ByteBits;
  }

  /** The test inside `TINFL_HUFF_BITBUF_FILL`: is the next code complete in the bit buffer? */
  method Complete(r: Reader, t: Lookup, ghost lens: seq<nat>, ghost s: nat) returns (done: bool)
    requires Next(r, t, lens, s)
    ensures done <==> lens[s] <= r.numBits
  {
    hide Next, Facing, BitOf, Val, CodeBits;
    NextFacing(r, t, lens, s);
    ghost var w, look, tree := Window(r), t.look[..], t.tree[..];
    EntryFacts(look, tree, t.nodes, lens, s, w, ByteBits(r.stream), r.pos);
    var temp := t.look[r.bitBuf % FAST_SIZE];
    if temp >= 0 {
      var codeLen := temp / 512;
      done := codeLen > 0 && r.numBits >= codeLen;
    } else if r.numBits > FAST_BITS {
      var codeLen := FAST_BITS;
      while true
        invariant FAST_BITS <= codeLen < lens[s] && codeLen < r.numBits
        invariant Refers(temp, CodeBits(lens, s)[..codeLen], t.nodes)
        decreases lens[s] - codeLen
      {
        WalkBit(look, tree, t.nodes, lens, s, w, ByteBits(r.stream), r.pos, temp, codeLen);
        temp := t.tree[-temp - 1 + BitOf(r.bitBuf, codeLen)];
        codeLen := codeLen + 1;
        if !(temp < 0 && r.numBits >= codeLen + 1) {
          break;
        }
      }
      done := temp >= 0;
    } else {
      done := false;
    }
  }

  /** `TINFL_HUFF_BITBUF_FILL` fetches no byte that the code does not need. */
  method FillBits(r: Reader, t: Lookup, ghost lens: seq<nat>, ghost s: nat) returns (ok: bool)
    requires Next(r, t, lens, s) && r.numBits < 15
    modifies r`inPos, r`bitBuf, r`numBits, r`eaten
    ensures Next(r, t, lens, s) && r.eaten - r.inPos == old(r.eaten - r.inPos)
    ensures ok ==> lens[s] <= r.numBits && (r.eaten == old(r.eaten) || r.numBits < lens[s] + 8)
    ensures !ok ==> r.Starved() && r.numBits < lens[s]
  {
    hide Lookup.For, CodeAt;
    LongestCode(r, t, lens, s);
    while true
      invariant Next(r, t, lens, s) && r.eaten - r.inPos == old(r.eaten - r.inPos) && r.numBits < 15
      invariant r.eaten == old(r.eaten) || r.numBits < lens[s] + 8
      decreases 8 * |r.stream| - r.numBits
    {
      var done := Complete(r, t, lens, s);
      if done {
        return true;
      }
      NextFacing(r, t, lens, s);
      ok := r.Fetch();
      if !ok {
        return;
      }
      if r.numBits >= 15 {
        return;
      }
    }
  }

  lemma LongestCode(r: Reader, t: Lookup, lens: seq<nat>, s: nat)
    requires Next(r, t, lens, s)
    ensures s < |lens| && 0 < lens[s] <= 15
  {
    hide TableOk, CodeBits, ByteBits;
  }

  /** The table entry and the code length of the next symbol. The entry may carry the code length above
      bit 9, as the lookup table stores it. */
  method Resolve(r: Reader, t: Lookup, ghost lens: seq<nat>, ghost s: nat) returns (entry: nat, codeLen: nat)
    requires Next(r, t, lens, s) && lens[s] <= r.numBits
    ensures codeLen == lens[s] && s < 512 && (entry == s || entry == 512 * codeLen + s)
  {
    hide Next, Facing, BitOf, Val, CodeBits;
    NextFacing(r, t, lens, s);
    ghost var w, look, tree := Window(r), t.look[..], t.tree[..];
    SymbolRange(r, t, lens, s);
    EntryFacts(look, tree, t.nodes, lens, s, w, ByteBits(r.stream), r.pos);
    var temp := t.look[r.bitBuf % FAST_SIZE];
    if temp >= 0 {
      return temp, temp / 512;
    }
    codeLen := FAST_BITS;
    while true
      invariant FAST_BITS <= codeLen < lens[s]
      invariant Refers(temp, CodeBits(lens, s)[..codeLen], t.nodes)
      decreases lens[s] - codeLen
    {
      WalkBit(look, tree, t.nodes, lens, s, w, ByteBits(r.stream), r.pos, temp, codeLen);
      temp := t.tree[-temp - 1 + BitOf(r.bitBuf, codeLen)];
      codeLen := codeLen + 1;
      if temp >= 0 {
        break;
      }
    }
    entry := temp;
  }

  lemma SymbolRange(r: Reader, t: Lookup, lens: seq<nat>, s: nat)
    requires Next(r, t, lens, s)
    ensures s < |lens| <= MAX_CODES
  {
    hide CodeBits, ByteBits;
  }

  /** What has been fetched of the stream. */
  ghost function Fed(r: Reader): bits
    reads r`eaten
  {
    if r.eaten <= |r.stream| then ByteBits(r.stream)[..8 * r.eaten] else []
  }

  /** A code that is not complete in the bit buffer cannot be decoded from what has been fetched. */
  lemma NotThere(r: Reader, t: Lookup, lens: seq<nat>, s: nat)
    requires Next(r, t, lens, s) && s < |lens| && r.numBits < lens[s]
    ensures DecodeSym(lens, Fed(r), r.pos).None?
  {
    NextFacing(r, t, lens, s);
    FacingCode(t.look[..], t.tree[..], t.nodes, lens, s, Window(r), ByteBits(r.stream), r.pos);
    hide ByteBits, CodeBits, Facing, DecodeSym, Next, CodeAt, Usable, NotOver, Limited;
    CodeIncomplete(lens, s, ByteBits(r.stream), r.pos, r.numBits);
  }

  /** `TINFL_HUFF_DECODE`. After a suspension it goes on in the careful loop. */
  method HuffDecode(r: Reader, t: Lookup, resumed: bool, ghost lens: seq<nat>, ghost s: nat)
    returns (ok: bool, sym: nat)
    requires Next(r, t, lens, s)
    modifies r`inPos, r`bitBuf, r`numBits, r`eaten, r`pos
    ensures r.Valid() && r.eaten - r.inPos == old(r.eaten - r.inPos)
    ensures ok ==> sym == s && r.pos == old(r.pos) + lens[s]
    ensures !ok ==> r.Starved() && r.pos == old(r.pos) && DecodeSym(lens, Fed(r), r.pos).None?
  {
    hide Lookup.For, CodeAt, Feeding, Buffered;
    ok, sym := true, 0;
    LongestCode(r, t, lens, s);
    if r.numBits < 15 {
      if resumed || |r.input| - r.inPos < 2 {
        ok := FillBits(r, t, lens, s);
        if !ok {
          NotThere(r, t, lens, s);
          return;
        }
      } else {
        r.FetchSome(2);
      }
    }
    var entry, codeLen := Resolve(r, t, lens, s);
    r.Drop(codeLen);
    sym := entry % 512;
  }
}
