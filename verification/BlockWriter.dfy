/** Writing one deflate block in each of its forms: `tdefl_compress_lz_codes`,
    `tdefl_start_dynamic_block`, `tdefl_start_static_block` and the raw branch of
    `tdefl_flush_block`. */
module BlockWriter {
  import opened Bits
  import opened Arrays
  import opened Canonical
  import opened Tokens
  import opened InflateSpec
  import opened Encoding
  import opened Sums
  import opened MinRedundancy
  import opened HuffTable
  import opened Rle
  import opened BitWriter
  import opened LzBuffer
  import opened Tally
  import opened BlockSize

  // ---- Reading the token buffer

  /** The reader of the token buffer is about to read token `i`. */
  ghost predicate ReaderAt(s: seq<byte>, toks: seq<Token>, i: nat, p: nat, flags: nat) {
    && i <= |toks|
    && (i % 8 == 0 ==> flags == 1 && p == Offset(toks, i) - 1)
    && (i % 8 != 0 ==> FlagAt(toks, i) < |s| && p == Offset(toks, i)
                       && flags == ShiftDown(256 + s[FlagAt(toks, i)] as nat, i % 8))
  }

  lemma ReaderStart(s: seq<byte>, toks: seq<Token>)
    ensures ReaderAt(s, toks, 0, 0, 1)
  {
  }

  lemma ReaderEnd(s: seq<byte>, toks: seq<Token>, i: nat, p: nat, flags: nat)
    requires ReaderAt(s, toks, i, p, flags)
    ensures p < SealedEnd(toks) <==> i < |toks|
  {
    assert toks[..|toks|] == toks;
    if i < |toks| {
      OffsetMono(toks, i, |toks|);
    }
  }

  lemma FlagStep(f: byte, r: nat)
    requires r < 8
    ensures ShiftDown(256 + f as nat, r) > 1 && ShiftDown(256 + f as nat, r) % 2 == BitOf(f, r)
    ensures ShiftDown(256 + f as nat, r) / 2 == ShiftDown(256 + f as nat, r + 1)
    ensures r == 7 ==> ShiftDown(256 + f as nat, r + 1) == 1
    ensures r == 0 ==> ShiftDown(256 + f as nat, r) == 256 + f as nat
  {
    FlagWord(f, r);
    FlagWord(f, r + 1);
    ShiftStep(256 + f as nat, r);
  }

  lemma PositionStep(toks: seq<Token>, i: nat)
    requires i < |toks|
    ensures i % 8 == 0 ==> FlagAt(toks, i) == Offset(toks, i) - 1
    ensures i % 8 < 7 ==> FlagAt(toks, i + 1) == FlagAt(toks, i) && (i + 1) % 8 == i % 8 + 1
    ensures Offset(toks, i + 1) == Offset(toks, i) + PackedSize(toks[i]) + if i % 8 == 7 then 1 else 0
  {
    OffsetStep(toks, i);
    hide Offset;
  }

  /** Reading one token: a fresh flag byte if the old one is used up, the flag, the payload. */
  lemma ReaderStep(s: seq<byte>, toks: seq<Token>, i: nat, p: nat, flags: nat)
    requires Sealed(s, toks) && ReaderAt(s, toks, i, p, flags) && i < |toks|
    ensures flags == 1 <==> i % 8 == 0
    ensures flags == 1 ==> p < |s|
    ensures
      var p1 := if flags == 1 then p + 1 else p;
      var f1 := if flags == 1 then 256 + s[p] as nat else flags;
      && PayloadAt(s, p1, toks[i]) && toks[i].Ok()
      && f1 % 2 == MatchBit(toks[i])
      && ReaderAt(s, toks, i + 1, p1 + PackedSize(toks[i]), f1 / 2)
  {
    hide PackedSum, PayloadAt, Offset, FlagAt, ShiftDown, BitOf;
    assert BitOf(s[FlagAt(toks, i)], i % 8) == MatchBit(toks[i]);
    assert PayloadAt(s, Offset(toks, i), toks[i]);
    FlagStep(s[FlagAt(toks, i)], i % 8);
    PositionStep(toks, i);
  }

  // ---- Codes

  /** The table holds the canonical codes of `lens`. */
  ghost predicate Holds(t: Table, lens: seq<nat>)
    reads t.codes, t.sizes
  {
    && t.Separate() && |lens| <= MAX_SYMBOLS && Limited(lens, MAX_BITS)
    && t.sizes[..|lens|] == lens && CodesFor(t.codes[..], lens)
  }

  method PutCode(w: Writer, t: Table, s: nat, ghost lens: seq<nat>)
    requires w.Valid() && Holds(t, lens) && s < |lens| && lens[s] > 0
    modifies w`outPos, w`bitBuffer, w`bitsIn, w`put, w`full, w.outBuf
    ensures w.Valid() && w.put == old(w.put) + CodeBits(lens, s)
    ensures old(w.outPos) <= w.outPos
  {
    hide MsbBits, Code;
    ValBound(CodeBits(lens, s));
    BitsOfVal(CodeBits(lens, s));
    assert t.sizes[s] == lens[s];
    w.PutBits(t.codes[s], t.sizes[s]);
  }

  /** The four pieces of a match. */
  method PutMatch(w: Writer, t0: Table, t1: Table, l: nat, d: nat, ghost lit: seq<nat>, ghost dist: seq<nat>)
    requires w.Valid() && Holds(t0, lit) && Holds(t1, dist)
    requires l <= 255 && d < DICT_SIZE && Coded(lit, dist, Match(l + MIN_MATCH, d + 1))
    modifies w`outPos, w`bitBuffer, w`bitsIn, w`put, w`full, w.outBuf
    ensures w.Valid() && w.put == old(w.put) + TokBits(lit, dist, Match(l + MIN_MATCH, d + 1))
    ensures old(w.outPos) <= w.outPos
  {
    hide LenSym, DistSym, LenExtra, DistExtra, CodeBits, BitsOf, Limited, CodesFor;
    ghost var p0 := w.put;
    PutCode(w, t0, LenSym(l), lit);
    ExtraFits(l, LenExtra(l));
    w.PutBits(l % Pow2(LenExtra(l)), LenExtra(l));
    PutCode(w, t1, DistSym(d), dist);
    ExtraFits(d, DistExtra(d));
    w.PutBits(d % Pow2(DistExtra(d)), DistExtra(d));
    Assoc4(p0, CodeBits(lit, LenSym(l)), BitsOf(l % Pow2(LenExtra(l)), LenExtra(l)),
           CodeBits(dist, DistSym(d)), BitsOf(d % Pow2(DistExtra(d)), DistExtra(d)));
  }

  lemma ExtraFits(v: nat, e: nat)
    ensures v % Pow2(e) < Pow2(e)
  {
  }

  lemma Assoc4(p: bits, a: bits, b: bits, c: bits, d: bits)
    ensures p + a + b + c + d == p + ((a + b) + (c + d))
  {
  }

  lemma AppendToks(lit: seq<nat>, dist: seq<nat>, toks: seq<Token>, i: nat)
    requires i < |toks| && AllCoded(lit, dist, toks)
    ensures AllCoded(lit, dist, toks[..i]) && AllCoded(lit, dist, toks[..i + 1])
    ensures ToksBits(lit, dist, toks[..i + 1]) == ToksBits(lit, dist, toks[..i]) + TokBits(lit, dist, toks[i])
  {
    hide Coded, TokBits;
    assert toks[..i + 1][..i] == toks[..i];
  }

  /** One token of the buffer, its flag already read. */
  method PutToken(w: Writer, lz: Codes, t0: Table, t1: Table, p: nat, flags: nat, ghost t: Token,
                  ghost lit: seq<nat>, ghost dist: seq<nat>) returns (next: nat)
    requires w.Valid() && Holds(t0, lit) && Holds(t1, dist) && w.outBuf != lz.buf
    requires PayloadAt(lz.buf[..], p, t) && flags % 2 == MatchBit(t) && Coded(lit, dist, t)
    modifies w`outPos, w`bitBuffer, w`bitsIn, w`put, w`full, w.outBuf
    ensures next == p + PackedSize(t)
    ensures w.Valid() && w.put == old(w.put) + TokBits(lit, dist, t)
    ensures old(w.outPos) <= w.outPos
  {
    hide Holds, LenSym, DistSym, CodeBits;
    if flags % 2 == 1 {
      var l: nat, d: nat := lz.buf[p], lz.buf[p + 1] as nat + 256 * lz.buf[p + 2] as nat;
      assert t == Match(l + MIN_MATCH, d + 1);
      PutMatch(w, t0, t1, l, d, lit, dist);
      next := p + 3;
    } else {
      PutCode(w, t0, lz.buf[p], lit);
      next := p + 1;
    }
  }

  /** `tdefl_compress_lz_codes`: the tokens of the sealed buffer, then the end-of-block code. */
  method CompressLzCodes(w: Writer, lz: Codes, t0: Table, t1: Table, ghost lit: seq<nat>, ghost dist: seq<nat>)
    returns (ok: bool)
    requires w.Valid() && Holds(t0, lit) && Holds(t1, dist) && w.outBuf != lz.buf
    requires Sealed(lz.buf[..], lz.toks) && lz.pos == SealedEnd(lz.toks)
    requires AllCoded(lit, dist, lz.toks) && |lit| > 256 && lit[256] > 0
    modifies w`outPos, w`bitBuffer, w`bitsIn, w`put, w`full, w.outBuf
    ensures w.Valid() && w.put == old(w.put) + BodyBits(lit, dist, lz.toks)
    ensures old(w.outPos) <= w.outPos
    ensures ok == (w.outPos < OUT_END)
  {
    hide Holds, Sealed, ReaderAt, SealedEnd, TokBits, CodeBits, Coded, PayloadAt;
    ghost var toks, s, p0 := lz.toks, lz.buf[..], w.put;
    ghost var i: nat := 0;
    var p: nat, flags: nat := 0, 1;
    ReaderStart(s, toks);
    assert toks[..0] == [];
    while p < lz.pos
      invariant lz.buf[..] == s
      invariant w.Valid() && Holds(t0, lit) && Holds(t1, dist)
      invariant ReaderAt(s, toks, i, p, flags) && i <= |toks| && AllCoded(lit, dist, toks[..i])
      invariant w.put == p0 + ToksBits(lit, dist, toks[..i])
      invariant old(w.outPos) <= w.outPos
      decreases |toks| - i
    {
      ReaderEnd(s, toks, i, p, flags);
      ReaderStep(s, toks, i, p, flags);
      AppendToks(lit, dist, toks, i);
      if flags == 1 {
        flags := 256 + lz.buf[p] as nat;
        p := p + 1;
      }
      p := PutToken(w, lz, t0, t1, p, flags, toks[i], lit, dist);
      flags := flags / 2;
      i := i + 1;
    }
    ReaderEnd(s, toks, i, p, flags);
    assert toks[..i] == toks;
    PutCode(w, t0, 256, lit);
    ok := w.outPos < OUT_END;
  }

  // ---- Static blocks

  ghost predicate Apart(t: Table, u: Table) {
    && t.Separate() && u.Separate()
    && {t.count, t.codes, t.sizes} !! {u.count, u.codes, u.sizes}
  }

  lemma FixedHolds()
    ensures Limited(FixedLit(), MAX_BITS) && Limited(FixedDist(), MAX_BITS)
    ensures |FixedLit()| == 288 && |FixedDist()| == 32
  {
    FixedUsable();
  }

  /** The fixed code lengths of section 3.2.6. */
  method FixedSizes(t0: Table, t1: Table)
    requires Apart(t0, t1)
    modifies t0.sizes, t1.sizes
    ensures t0.sizes[..288] == FixedLit() && t1.sizes[..32] == FixedDist()
  {
    Fill(t0.sizes, 0, 144, 8);
    Fill(t0.sizes, 144, 256, 9);
    Fill(t0.sizes, 256, 280, 7);
    Fill(t0.sizes, 280, 288, 8);
    assert t0.sizes[..] == FixedLit();
    assert t0.sizes[..288] == t0.sizes[..];
    Fill(t1.sizes, 0, 32, 5);
    assert t1.sizes[..32] == FixedDist();
  }

  /** `tdefl_start_static_block` */
  method StartStaticBlock(w: Writer, t0: Table, t1: Table)
    requires w.Valid() && Apart(t0, t1)
    modifies t0.sizes, t0.codes, t1.sizes, t1.codes
    modifies w`outPos, w`bitBuffer, w`bitsIn, w`put, w`full, w.outBuf
    ensures w.Valid() && w.put == old(w.put) + BitsOf(1, 2) && old(w.outPos) <= w.outPos
    ensures Holds(t0, FixedLit()) && Holds(t1, FixedDist())
  {
    hide FixedLit, FixedDist, Limited, CodesFor;
    FixedHolds();
    FixedSizes(t0, t1);
    OptimizeHuffmanTable(t0, 288, MAX_BITS, true);
    OptimizeHuffmanTable(t1, 32, MAX_BITS, true);
    Pow2Table();
    w.PutBits(1, 2);
  }

  // ---- Dynamic blocks

  /** Counting down to the last symbol in use. */
  method CountCodes(sizes: array<nat>, low: nat, high: nat) returns (n: nat)
    requires low <= high <= sizes.Length
    ensures low <= n <= high && (n == low || sizes[n - 1] != 0)
    ensures forall s :: n <= s < high ==> sizes[s] == 0
  {
    n := high;
    while n > low && sizes[n - 1] == 0
      invariant low <= n <= high
      invariant forall s :: n <= s < high ==> sizes[s] == 0
    {
      n := n - 1;
    }
  }

  /** The literal/length and distance codes of a dynamic block are made from the counts. */
  method MakeCodes(t0: Table, t1: Table, ghost toks: seq<Token>) returns (n0: nat, n1: nat)
    requires Apart(t0, t1) && Tallied(t0.count[..], t1.count[..], toks) && |toks| < 65535
    modifies t0.count, t0.sizes, t0.codes, t1.sizes, t1.codes
    ensures 257 <= n0 <= 286 && 1 <= n1 <= 30
    ensures (n0 == 257 || t0.sizes[n0 - 1] != 0) && (n1 == 1 || t1.sizes[n1 - 1] != 0)
    ensures Usable(t0.sizes[..n0]) && Usable(t1.sizes[..n1]) && t0.sizes[256] > 0
    ensures Holds(t0, t0.sizes[..n0]) && Holds(t1, t1.sizes[..n1])
    ensures AllCoded(t0.sizes[..n0], t1.sizes[..n1], toks) && Dense(t0.sizes[..n0], t1.sizes[..n1], toks)
  {
    hide LengthsFor, CodesFor, Usable, Tallied, Sum, NearOptimal, Dense, AllCoded;
    ghost var c0, c1 := t0.count[..], t1.count[..32];
    ghost var c := c0[256 := 1];
    TalliedCounts(c0, t1.count[..], toks);
    t0.count[256] := 1;
    assert t0.count[..288] == c;
    OptimizeHuffmanTable(t0, 288, MAX_BITS, false);
    OptimizeHuffmanTable(t1, 32, MAX_BITS, false);
    n0 := CountCodes(t0.sizes, 257, 286);
    n1 := CountCodes(t1.sizes, 1, 30);
    TrimmedCodes(t0.codes[..], t0.sizes[..288], c, n0, 286);
    TrimmedCodes(t1.codes[..], t1.sizes[..32], c1, n1, 30);
    assert t0.sizes[..288][..n0] == t0.sizes[..n0] && t1.sizes[..32][..n1] == t1.sizes[..n1];
    CodedByCounts(t0.sizes[..288], t1.sizes[..32], c0, c, c1, n0, n1, toks);
    DynamicRatio(t0.sizes[..288], t1.sizes[..32], c0, c, c1, toks);
    DenseReady(t0.sizes[..288], t1.sizes[..32], n0, n1, toks);
  }

  lemma TalliedCounts(c0: seq<nat>, c1: seq<nat>, toks: seq<Token>)
    requires Tallied(c0, c1, toks)
    ensures |c0| == 288 && |c1| >= 32 && AllOk(toks) && Sum(c0[256 := 1]) == |toks| + 1 && Sum(c1[..32]) <= |toks|
    ensures Tallied(c0, c1[..32], toks)
    ensures c0[256] == 0 && forall s :: 286 <= s < 288 ==> c0[s] == 0
    ensures forall s :: 30 <= s < 32 ==> c1[s] == 0
  {
    TalliedSum(c0, c1[..32], toks);
    SumChange(c0, 256, 1);
    LitFreqBound(toks, 256);
    LitFreqBound(toks, 286);
    LitFreqBound(toks, 287);
    LitFreqBound(toks, 30);
    LitFreqBound(toks, 31);
  }

  lemma TrimmedCodes(codes: seq<nat>, lens: seq<nat>, count: seq<nat>, n: nat, high: nat)
    requires LengthsFor(lens, count, MAX_BITS) && CodesFor(codes, lens)
    requires n <= high <= |lens| && forall s :: high <= s < |lens| ==> count[s] == 0
    requires forall s :: n <= s < high ==> lens[s] == 0
    ensures Usable(lens[..n]) && CodesFor(codes, lens[..n]) && Limited(lens[..n], MAX_BITS)
    ensures forall s :: 0 <= s < |lens| && count[s] > 0 ==> s < n && lens[s] > 0
  {
    hide CodesFor, Complete;
    Trim(codes, lens, n);
  }

  lemma CodedByCounts(lit: seq<nat>, dist: seq<nat>, c0: seq<nat>, c: seq<nat>, c1: seq<nat>, n0: nat, n1: nat,
                      toks: seq<Token>)
    requires Tallied(c0, c1, toks) && c == c0[256 := 1] && |c1| == 32 && |lit| == 288 && |dist| == 32
    requires 257 <= n0 <= 286 && 1 <= n1 <= 30
    requires forall s :: 0 <= s < 288 && c[s] > 0 ==> s < n0 && lit[s] > 0
    requires forall s :: 0 <= s < 32 && c1[s] > 0 ==> s < n1 && dist[s] > 0
    ensures AllCoded(lit[..n0], dist[..n1], toks)
  {
    hide LitFreq, DistFreq, Coded;
    TokensCoded(lit[..n0], dist[..n1], c, c1, toks);
  }

  lemma {:induction false} FlattenSize(items: seq<Item>)
    ensures |items| <= |Flatten(items)|
  {
    if items != [] { FlattenSize(items[..|items| - 1]); }
  }

  /** The run-length packing of all code lengths, counted. */
  method PackLengths(t2: Table, lens: seq<nat>) returns (packed: array<nat>, n: nat, ghost items: seq<Item>)
    requires t2.Separate() && |lens| <= MAX_PACKED && Limited(lens, MAX_BITS)
    modifies t2.count
    ensures fresh(packed) && n <= packed.Length == MAX_PACKED && packed[..n] == Flatten(items)
    ensures ItemShapes(items) && Unpack(items) == Some(lens) && Counted(t2.count[..19], items)
    ensures items == PackedItems(lens)
  {
    Fill(t2.count, 0, 19, 0);
    var p := new Packer(t2.count);
    assert forall s :: 0 <= s < 19 ==> t2.count[..][s] == 0;
    p.Pack(lens);
    packed, n, items := p.packed, p.n, p.items;
  }

  /** The code length code is made from the counts of the packing. */
  method MakeLengthCode(t2: Table, ghost items: seq<Item>)
    requires t2.Separate() && Counted(t2.count[..19], items) && ItemShapes(items)
    requires |Flatten(items)| <= MAX_PACKED
    modifies t2.sizes, t2.codes
    ensures Usable(t2.sizes[..19]) && Limited(t2.sizes[..19], 7) && Holds(t2, t2.sizes[..19])
    ensures ItemsOk(t2.sizes[..19], items)
  {
    hide Usable, Sum, CodesFor, Counted;
    FlattenSize(items);
    CountedSum(t2.count[..19], items);
    Pow2Table();
    OptimizeHuffmanTable(t2, 19, 7, false);
    ItemsCoded(t2.sizes[..19], t2.count[..19], items);
  }

  lemma ItemsCoded(cl: seq<nat>, count: seq<nat>, items: seq<Item>)
    requires LengthsFor(cl, count, 7) && |count| == 19 && Counted(count, items) && ItemShapes(items)
    ensures Limited(cl, 7) && Limited(cl, MAX_BITS) && ItemsOk(cl, items)
  {
    hide Complete;
    forall i | 0 <= i < |items| ensures ItemOk(cl, items[i]) {
      assert ItemShape(items[i]);
      EmittedPositive(items, i);
    }
  }

  /** How many code length code lengths have to be sent: at least 4, and none of the others is used. */
  method CountOrdered(sizes: array<nat>) returns (n: nat)
    requires sizes.Length >= 19
    ensures 4 <= n <= 19 && forall i :: n <= i < 19 ==> sizes[CL_ORDER[i]] == 0
    ensures n == 4 || sizes[CL_ORDER[n - 1]] != 0
  {
    var k: int := 18;
    while k >= 0 && sizes[CL_ORDER[k]] == 0
      invariant -1 <= k <= 18 && forall i :: k < i < 19 ==> sizes[CL_ORDER[i]] == 0
      decreases k + 1
    {
      k := k - 1;
    }
    n := if k + 1 < 4 then 4 else k + 1;
  }

  /** The packed code lengths, each symbol with its repeat count. */
  method PutItems(w: Writer, t2: Table, packed: array<nat>, n: nat, ghost cl: seq<nat>, ghost items: seq<Item>)
    requires w.Valid() && Holds(t2, cl) && ItemsOk(cl, items)
    requires n <= packed.Length && packed[..n] == Flatten(items)
    modifies w`outPos, w`bitBuffer, w`bitsIn, w`put, w`full, w.outBuf
    ensures w.Valid() && w.put == old(w.put) + ItemsBits(cl, items) && old(w.outPos) <= w.outPos
  {
    hide Holds, CodeBits, BitsOf, Flatten, ItemsBits, ItemsOk, ItemBits;
    ghost var k: nat := 0;
    ghost var all := Flatten(items);
    var p: nat := 0;
    ItemsStart(cl, items);
    while p < n
      invariant w.Valid() && Holds(t2, cl) && packed[..n] == all && old(w.outPos) <= w.outPos
      invariant k <= |items| && ItemsOk(cl, items[..k]) && p == |Flatten(items[..k])|
      invariant w.put == old(w.put) + ItemsBits(cl, items[..k])
      decreases |items| - k
    {
      ItemNext(cl, items, k, p);
      p := PutItem(w, t2, packed, n, p, cl, items[k]);
      k := k + 1;
    }
    FlattenLess(items, k);
  }

  /** One item of the packing. */
  method PutItem(w: Writer, t2: Table, packed: array<nat>, n: nat, p: nat, ghost cl: seq<nat>, ghost it: Item)
    returns (next: nat)
    requires w.Valid() && Holds(t2, cl) && ItemOk(cl, it) && n <= packed.Length
    requires p < n && packed[p] == it.sym && (it.sym >= 16 ==> p + 1 < n && packed[p + 1] == it.extra)
    modifies w`outPos, w`bitBuffer, w`bitsIn, w`put, w`full, w.outBuf
    ensures next == p + |ItemBytes(it)|
    ensures w.Valid() && w.put == old(w.put) + ItemBits(cl, it) && old(w.outPos) <= w.outPos
  {
    hide Holds, CodeBits, BitsOf;
    var code := packed[p];
    next := p + 1;
    ghost var p0 := w.put;
    PutCode(w, t2, code, cl);
    if code >= 16 {
      w.PutBits(packed[next], RepeatBits(code));
      next := next + 1;
      assert w.put == p0 + CodeBits(cl, it.sym) + BitsOf(it.extra, RepeatBits(it.sym));
    }
    assert w.put == p0 + ItemBits(cl, it);
  }

  lemma ItemsStart(cl: seq<nat>, items: seq<Item>)
    ensures Flatten(items[..0]) == [] && ItemsOk(cl, items[..0]) && ItemsBits(cl, items[..0]) == []
  {
  }

  lemma {:induction false} FlattenPrefix(items: seq<Item>, k: nat)
    requires k <= |items|
    ensures Flatten(items[..k]) <= Flatten(items)
  {
    if k < |items| {
      FlattenPrefix(items[..|items| - 1], k);
      assert items[..|items| - 1][..k] == items[..k];
    } else {
      assert items[..k] == items;
    }
  }

  lemma FlattenLess(items: seq<Item>, k: nat)
    requires k <= |items|
    ensures k < |items| <==> |Flatten(items[..k])| < |Flatten(items)|
    ensures items[..|items|] == items
  {
    assert items[..|items|] == items;
    if k < |items| {
      FlattenPrefix(items, k + 1);
      assert items[..k + 1][..k] == items[..k];
    }
  }

  lemma ItemNext(cl: seq<nat>, items: seq<Item>, k: nat, p: nat)
    requires k <= |items| && ItemsOk(cl, items) && p == |Flatten(items[..k])| < |Flatten(items)|
    ensures k < |items| && ItemOk(cl, items[k])
    ensures Flatten(items)[p] == items[k].sym
    ensures items[k].sym >= 16 ==> p + 1 < |Flatten(items)| && Flatten(items)[p + 1] == items[k].extra
    ensures |Flatten(items[..k + 1])| == p + |ItemBytes(items[k])|
    ensures ItemsOk(cl, items[..k + 1])
    ensures ItemsBits(cl, items[..k + 1]) == ItemsBits(cl, items[..k]) + ItemBits(cl, items[k])
  {
    hide ItemBits, ItemBytes, Flatten, ItemsOk, ItemsBits, ItemOk;
    FlattenLess(items, k);
    ItemsOneMore(cl, items, k);
    ItemAt(items, k, p);
  }

  lemma ItemsOneMore(cl: seq<nat>, items: seq<Item>, k: nat)
    requires k < |items| && ItemsOk(cl, items)
    ensures ItemOk(cl, items[k]) && ItemsOk(cl, items[..k + 1])
    ensures ItemsBits(cl, items[..k + 1]) == ItemsBits(cl, items[..k]) + ItemBits(cl, items[k])
  {
    hide ItemBits, ItemOk;
    assert items[..k + 1][..k] == items[..k];
  }

  lemma ItemAt(items: seq<Item>, k: nat, p: nat)
    requires k < |items| && p == |Flatten(items[..k])|
    ensures |Flatten(items[..k + 1])| == p + |ItemBytes(items[k])| <= |Flatten(items)|
    ensures p < |Flatten(items)| && Flatten(items)[p] == items[k].sym
    ensures items[k].sym >= 16 ==> p + 1 < |Flatten(items)| && Flatten(items)[p + 1] == items[k].extra
  {
    assert items[..k + 1][..k] == items[..k];
    assert Flatten(items[..k + 1]) == Flatten(items[..k]) + ItemBytes(items[k]);
    hide Flatten;
    FlattenPrefix(items, k + 1);
    assert Flatten(items)[p] == Flatten(items[..k + 1])[p];
    if items[k].sym >= 16 {
      assert Flatten(items)[p + 1] == Flatten(items[..k + 1])[p + 1];
    }
  }

  /** The lengths of the code length code, in transmission order. */
  method PutLengthCode(w: Writer, t2: Table, n: nat, ghost cl: seq<nat>)
    requires w.Valid() && Holds(t2, cl) && |cl| == 19 && Limited(cl, 7) && n <= 19
    modifies w`outPos, w`bitBuffer, w`bitsIn, w`put, w`full, w.outBuf
    ensures w.Valid() && w.put == old(w.put) + ClBits(cl, n) && old(w.outPos) <= w.outPos
  {
    hide CodesFor, Writer.Valid, Pow2;
    hide BitsOf, Holds, Limited;
    for i := 0 to n
      invariant w.Valid() && Holds(t2, cl) && w.put == old(w.put) + ClBits(cl, i) && old(w.outPos) <= w.outPos
    {
      var size := OrderedSize(t2, i, cl);
      w.PutBits(size, 3);
      assert ClBits(cl, i + 1) == ClBits(cl, i) + BitsOf(cl[CL_ORDER[i]], 3);
    }
  }

  method OrderedSize(t: Table, i: nat, ghost cl: seq<nat>) returns (size: nat)
    requires Holds(t, cl) && |cl| == 19 && Limited(cl, 7) && i < 19
    ensures size == cl[CL_ORDER[i]] && size < Pow2(3)
  {
    size := t.sizes[CL_ORDER[i]];
    assert size == t.sizes[..|cl|][CL_ORDER[i]];
  }

  /** No unused symbol at the end of a code is described, and runs are packed as far as they go. */
  ghost predicate Trimmed(h: Dyn) {
    && (|h.lit| > 257 ==> h.lit[|h.lit| - 1] > 0) && (|h.dist| > 1 ==> h.dist[|h.dist| - 1] > 0)
    && (h.hclen > 4 ==> h.hclen <= 19 == |h.cl| && h.cl[CL_ORDER[h.hclen - 1]] > 0)
    && h.items == PackedItems(h.lit + h.dist)
  }

  /** `tdefl_start_dynamic_block`: the header describes exactly the codes the tables then hold. */
  method StartDynamicBlock(w: Writer, t0: Table, t1: Table, t2: Table, ghost toks: seq<Token>) returns (ghost h: Dyn)
    requires w.Valid() && Apart(t0, t1) && Apart(t0, t2) && Apart(t1, t2)
    requires Tallied(t0.count[..], t1.count[..], toks) && |toks| < 65535
    modifies t0.count, t0.sizes, t0.codes, t1.sizes, t1.codes, t2.count, t2.sizes, t2.codes
    modifies w`outPos, w`bitBuffer, w`bitsIn, w`put, w`full, w.outBuf
    ensures h.Ok() && h.lit[256] > 0 && AllCoded(h.lit, h.dist, toks) && Dense(h.lit, h.dist, toks)
    ensures Holds(t0, h.lit) && Holds(t1, h.dist) && Trimmed(h)
    ensures w.Valid() && w.put == old(w.put) + (BitsOf(2, 2) + DynHeader(h)) && old(w.outPos) <= w.outPos
  {
    hide Usable, CodesFor, BitsOf, ClBits, ItemsBits, AllCoded, ItemsOk, Unpack, Tallied, Limited, Counted, Dense;
    hide PackedItems, Flatten, Writer.Valid;
    var n0, n1 := MakeCodes(t0, t1, toks);
    ghost var lit, dist := t0.sizes[..n0], t1.sizes[..n1];
    var packed, n, hclen;
    ghost var items;
    packed, n, hclen, items := DescribeCodes(t0, t1, t2, n0, n1);
    h := Dyn(lit, dist, hclen, t2.sizes[..19], items);
    assert Trimmed(h);
    hide Trimmed;
    PutHeader(w, t2, packed, n, n0, n1, hclen, h);
  }

  /** The packing of the code lengths and its code. */
  method DescribeCodes(t0: Table, t1: Table, t2: Table, n0: nat, n1: nat)
    returns (packed: array<nat>, n: nat, hclen: nat, ghost items: seq<Item>)
    requires t0.Separate() && Apart(t0, t2) && Apart(t1, t2) && n0 <= 288 && n1 <= 32
    requires Limited(t0.sizes[..n0], MAX_BITS) && Limited(t1.sizes[..n1], MAX_BITS)
    modifies t2.count, t2.sizes, t2.codes
    ensures n <= packed.Length == MAX_PACKED && packed[..n] == Flatten(items)
    ensures Unpack(items) == Some(t0.sizes[..n0] + t1.sizes[..n1])
    ensures Usable(t2.sizes[..19]) && Limited(t2.sizes[..19], 7) && Holds(t2, t2.sizes[..19])
    ensures ItemsOk(t2.sizes[..19], items)
    ensures 4 <= hclen <= 19 && forall i :: hclen <= i < 19 ==> t2.sizes[CL_ORDER[i]] == 0
    ensures hclen == 4 || t2.sizes[CL_ORDER[hclen - 1]] != 0
    ensures items == PackedItems(t0.sizes[..n0] + t1.sizes[..n1])
  {
    hide Usable, CodesFor, ItemsOk, Unpack, Limited, Counted, ItemShapes, Holds, Flatten, PackedItems;
    ghost var lit, dist := t0.sizes[..n0], t1.sizes[..n1];
    var lens := t0.sizes[..n0] + t1.sizes[..n1];
    BothLimited(lit, dist);
    packed, n, items := PackLengths(t2, lens);
    MakeLengthCode(t2, items);
    hclen := CountOrdered(t2.sizes);
  }

  method PutHeader(w: Writer, t2: Table, packed: array<nat>, n: nat, n0: nat, n1: nat, hclen: nat, ghost h: Dyn)
    requires n0 == |h.lit| && n1 == |h.dist| && hclen == h.hclen
    requires w.Valid() && h.Ok() && Holds(t2, h.cl)
    requires n <= packed.Length && packed[..n] == Flatten(h.items)
    modifies w`outPos, w`bitBuffer, w`bitsIn, w`put, w`full, w.outBuf
    ensures w.Valid() && w.put == old(w.put) + (BitsOf(2, 2) + DynHeader(h)) && old(w.outPos) <= w.outPos
  {
    hide Usable, BitsOf, ClBits, ItemsBits, Unpack, Flatten, ItemsOk, Holds, Limited, Pow2, Writer.Valid;
    Pow2Table();
    ghost var p0, cl := w.put, h.cl;
    assert 257 <= n0 <= 288 && 1 <= n1 <= 32 && 4 <= hclen <= 19 && |cl| == 19;
    assert Limited(cl, 7) && ItemsOk(cl, h.items);
    hide Dyn.Ok;
    w.PutBits(2, 2);
    w.PutBits(n0 - 257, 5);
    w.PutBits(n1 - 1, 5);
    w.PutBits(hclen - 4, 4);
    PutLengthCode(w, t2, hclen, cl);
    PutItems(w, t2, packed, n, cl, h.items);
    Assoc6(p0, BitsOf(2, 2), BitsOf(n0 - 257, 5), BitsOf(n1 - 1, 5), BitsOf(hclen - 4, 4),
           ClBits(cl, hclen), ItemsBits(cl, h.items));
  }

  lemma BothLimited(a: seq<nat>, b: seq<nat>)
    requires Limited(a, MAX_BITS) && Limited(b, MAX_BITS)
    ensures Limited(a + b, MAX_BITS)
  {
  }

  lemma Assoc6(p: bits, k: bits, a: bits, b: bits, c: bits, d: bits, e: bits)
    ensures p + k + a + b + c + d + e == p + (k + (a + b + c + d + e))
  {
  }
}
