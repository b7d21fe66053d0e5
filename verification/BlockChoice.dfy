/** Choosing the form of a block (`tdefl_flush_block`): a coded attempt, a raw block if that is no
    longer, fixed codes if the dynamic block does not fit. Whatever is kept means the same bytes. */
module BlockChoice {
  import opened Bits
  import opened Canonical
  import opened Tokens
  import opened InflateSpec
  import opened Encoding
  import opened HuffTable
  import opened BitWriter
  import opened LzBuffer
  import opened Tally
  import opened BlockSize
  import opened BlockWriter
  import opened Dictionary

  /** A block of tokens with fixed or with described codes. */
  ghost predicate IsCoded(final: bool, all: bits, toks: seq<Token>) {
    IsFixed(final, all, toks) || IsDescribed(final, all, toks)
  }

  ghost predicate IsDescribed(final: bool, all: bits, toks: seq<Token>) {
    exists h: Dyn :: IsDynamic(final, all, toks, h) && Trimmed(h)
  }

  ghost predicate IsFixed(final: bool, all: bits, toks: seq<Token>) {
    && |FixedLit()| > 256 && AllCoded(FixedLit(), FixedDist(), toks)
    && all == FixedBits(final, toks)
  }

  ghost predicate IsDynamic(final: bool, all: bits, toks: seq<Token>, h: Dyn) {
    && h.Ok() && h.lit[256] > 0 && AllCoded(h.lit, h.dist, toks)
    && all == DynamicBits(final, h, toks)
  }

  ghost predicate IsStored(pos: nat, final: bool, all: bits, data: seq<byte>) {
    |data| <= 65535 && all == StoredBits(pos, final, data)
  }

  /** A block starting at bit `pos` in any of its three forms. */
  ghost predicate IsBlock(pos: nat, final: bool, all: bits, toks: seq<Token>, data: seq<byte>) {
    IsCoded(final, all, toks) || IsStored(pos, final, all, data)
  }

  /** One block, three encodings, one meaning. */
  lemma BlockMeaning(s: bits, a: State, final: bool, all: bits, toks: seq<Token>, data: seq<byte>)
    requires a.pc == Header && At(s, a.pos, all)
    requires IsBlock(a.pos, final, all, toks, data) && Expand(a.out, toks) == Some(a.out + data)
    ensures Reaches(s, a, Between(a.mode, final, a.pos + |all|, a.out + data))
  {
    hide Reaches, FixedBits, DynamicBits, StoredBits, AllCoded, Expand, FixedLit, FixedDist, Dyn.Ok;
    if IsStored(a.pos, final, all, data) {
      StoredRun(s, a, final, data);
    } else if IsFixed(final, all, toks) {
      FixedRun(s, a, final, toks);
    } else {
      var h: Dyn :| IsDynamic(final, all, toks, h);
      DynamicRun(s, a, final, h, toks);
    }
  }

  // ---- Static blocks fit

  lemma FixedCodes(s: nat)
    ensures |FixedLit()| == 288 && |FixedDist()| == 32
    ensures s < 288 ==> 7 <= FixedLit()[s] <= 9
    ensures 144 <= s < 256 ==> FixedLit()[s] == 9
    ensures 256 < s < 288 ==> FixedLit()[s] <= 8
    ensures s < 32 ==> FixedDist()[s] == 5
    ensures FixedLit()[256] == 7
  {
  }

  lemma TokFits(t: Token)
    requires t.Ok()
    ensures Coded(FixedLit(), FixedDist(), t)
    ensures |TokBits(FixedLit(), FixedDist(), t)| <= if t.Lit? then 9 else 31
  {
    hide FixedLit, FixedDist, LenExtra, DistExtra, CodeBits, BitsOf, Pow2;
    SymBounds(t);
    match t
    case Lit(b) =>
      FixedCodes(b);
    case Match(len, d) =>
      LengthSymbolRange(len - MIN_MATCH);
      FixedCodes(LenSym(len - MIN_MATCH));
      FixedCodes(DistSym(d - 1));
      hide LenSym, DistSym;
  }

  lemma LengthSymbolRange(l: nat)
    requires l <= 255
    ensures 257 <= LenSym(l) <= 285
  {
  }

  /** At most 31 output bits for every 25 bits of the token buffer. */
  lemma {:induction false} StaticRatio(toks: seq<Token>)
    requires AllOk(toks)
    ensures AllCoded(FixedLit(), FixedDist(), toks)
    ensures 25 * |ToksBits(FixedLit(), FixedDist(), toks)| <= 31 * PackedBits(toks)
  {
    hide FixedLit, FixedDist, Coded, TokBits;
    if toks != [] {
      StaticRatio(toks[..|toks| - 1]);
      TokFits(toks[|toks| - 1]);
    }
  }

  /** What a block of any form takes at most: more than 3000 bytes of the output buffer stay free. */
  const BLOCK_LIMIT: nat := 655000

  ghost predicate Compact(all: bits) { |all| <= BLOCK_LIMIT }

  lemma StaticFits(final: bool, toks: seq<Token>)
    requires AllOk(toks) && SealedEnd(toks) <= LZ_CODE_BUF_SIZE
    ensures |FixedLit()| > 256 && AllCoded(FixedLit(), FixedDist(), toks)
    ensures FixedLit()[256] == 7
    ensures Compact(FixedBits(final, toks))
  {
    hide FixedLit, FixedDist, AllCoded, ToksBits;
    StaticRatio(toks);
    FixedCodes(256);
  }

  /** A dynamic block made from the counts of its tokens fits as well. */
  lemma DynamicFits(final: bool, h: Dyn, toks: seq<Token>)
    requires h.Ok() && AllCoded(h.lit, h.dist, toks) && Dense(h.lit, h.dist, toks)
    requires SealedEnd(toks) <= LZ_CODE_BUF_SIZE
    ensures Compact(DynamicBits(final, h, toks))
  {
    hide AllCoded, ToksBits, DynHeader, Usable, BodyBits;
    HeaderLength(h);
    hide Dyn.Ok;
  }

  // ---- Raw blocks

  function RingSlice(s: seq<byte>, start: nat, len: nat): (r: seq<byte>)
    requires |s| >= DICT_SIZE
    ensures |r| == len
  {
    seq(len, i requires 0 <= i => s[(start + i) % DICT_SIZE])
  }

  lemma RingSliceIs(s: seq<byte>, hist: seq<byte>, start: nat, len: nat)
    requires Ring(s, hist) && start + len <= |hist| <= start + DICT_SIZE
    ensures RingSlice(s, start, len) == hist[start..start + len]
  {
    var r := RingSlice(s, start, len);
    forall i | 0 <= i < len ensures r[i] == hist[start..start + len][i] {
      assert hist[start + i] == hist[start..start + len][i];
    }
  }

  /** The data bytes of a raw block. */
  method PutBytes(w: Writer, ring: array<byte>, start: nat, len: nat)
    requires w.Valid() && ring.Length >= DICT_SIZE && ring != w.outBuf
    modifies w`outPos, w`bitBuffer, w`bitsIn, w`put, w`full, w.outBuf
    ensures w.Valid() && w.put == old(w.put) + ByteBits(RingSlice(ring[..], start, len))
    ensures old(w.outPos) <= w.outPos
  {
    hide Writer.Valid, ByteBits, BitsOf;
    ghost var s, p0 := ring[..], w.put;
    SliceStart(s, start);
    for i := 0 to len
      invariant w.Valid() && ring[..] == s && old(w.outPos) <= w.outPos
      invariant w.put == p0 + ByteBits(RingSlice(s, start, i))
    {
      SliceStep(s, start, i);
      w.PutBits(ring[(start + i) % DICT_SIZE], 8);
    }
  }

  lemma SliceStart(s: seq<byte>, start: nat)
    requires |s| >= DICT_SIZE
    ensures ByteBits(RingSlice(s, start, 0)) == []
  {
  }

  lemma SliceStep(s: seq<byte>, start: nat, i: nat)
    requires |s| >= DICT_SIZE
    ensures s[(start + i) % DICT_SIZE] < Pow2(8)
    ensures ByteBits(RingSlice(s, start, i + 1))
         == ByteBits(RingSlice(s, start, i)) + BitsOf(s[(start + i) % DICT_SIZE], 8)
  {
    Pow2Table();
    assert RingSlice(s, start, i + 1) == RingSlice(s, start, i) + [s[(start + i) % DICT_SIZE]];
    ByteBitsPush(RingSlice(s, start, i), s[(start + i) % DICT_SIZE]);
  }

  lemma Phase(w: Writer)
    requires w.Valid()
    ensures |w.put| == 8 * (w.base + w.full) + w.bitsIn && w.bitsIn < 8
    ensures w.outPos == Min(w.full, OUT_END)
    ensures w.bitBuffer == Val(w.put[8 * (w.base + w.full)..])
  {
  }

  lemma PadLength(n: nat, full: nat, k: nat)
    requires n == 8 * full + k && k < 8
    ensures AlignUp(n) - n == if k == 0 then 0 else 8 - k
  {
  }

  /** The start of a raw block after its final flag, up to the byte boundary. */
  method PutRawHeader(w: Writer, ghost final: bool, ghost p: bits)
    requires w.Valid() && w.put == p + [final]
    modifies w`outPos, w`bitBuffer, w`bitsIn, w`put, w`full, w.outBuf
    ensures w.Valid() && w.put == p + [final] + BitsOf(0, 2) + Zeros(AlignUp(|p| + 3) - (|p| + 3))
  {
    hide Writer.Valid, BitsOf, AlignUp;
    w.PutBits(0, 2);
    Phase(w);
    PadLength(|w.put|, w.base + w.full, w.bitsIn);
    w.Pad();
  }

  /** A raw block after its final flag. */
  method PutRaw(w: Writer, ring: array<byte>, start: nat, total: nat, ghost final: bool, ghost p: bits)
    requires w.Valid() && w.put == p + [final] && ring.Length >= DICT_SIZE && ring != w.outBuf
    requires total <= 65535
    modifies w`outPos, w`bitBuffer, w`bitsIn, w`put, w`full, w.outBuf
    ensures w.Valid() && w.put == p + StoredBits(|p|, final, RingSlice(ring[..], start, total))
  {
    hide Writer.Valid, ByteBits, BitsOf, Pow2, RingSlice, AlignUp, Zeros;
    Pow2Table();
    ghost var data := RingSlice(ring[..], start, total);
    PutRawHeader(w, final, p);
    var n := total;
    w.PutBits(n, 16);
    n := 65535 - n;
    w.PutBits(n, 16);
    n := 65535 - n;
    PutBytes(w, ring, start, n);
    Assoc6(p, [final], BitsOf(0, 2), Zeros(AlignUp(|p| + 3) - (|p| + 3)),
           BitsOf(total, 16), BitsOf(65535 - total, 16), ByteBits(data));
  }

  // ---- Coded blocks

  /** `tdefl_compress_block`, after the final flag. */
  method CompressBlock(w: Writer, lz: Codes, t0: Table, t1: Table, t2: Table, isStatic: bool,
                       ghost final: bool, ghost p: bits)
    returns (ok: bool, ghost all: bits)
    requires w.Valid() && w.put == p + [final] && w.outBuf != lz.buf
    requires Apart(t0, t1) && Apart(t0, t2) && Apart(t1, t2)
    requires Sealed(lz.buf[..], lz.toks) && lz.pos == SealedEnd(lz.toks) && |lz.toks| < 65535
    requires lz.buf.Length == LZ_CODE_BUF_SIZE
    requires !isStatic ==> Tallied(t0.count[..], t1.count[..], lz.toks)
    modifies t0.count, t0.sizes, t0.codes, t1.sizes, t1.codes, t2.count, t2.sizes, t2.codes
    modifies w`outPos, w`bitBuffer, w`bitsIn, w`put, w`full, w.outBuf
    ensures w.Valid() && w.put == p + all && old(w.put) <= w.put && old(w.outPos) <= w.outPos
    ensures if isStatic then IsFixed(final, all, lz.toks) else IsDescribed(final, all, lz.toks)
    ensures ok == (w.outPos < OUT_END) && Compact(all)
  {
    hide Writer.Valid, Holds, BitsOf, FixedLit, FixedDist, Sealed, SealedEnd, Tallied, Coded;
    hide Dyn.Ok, DynHeader, BodyBits;
    hide Dense, Compact, Trimmed;
    if isStatic {
      StaticCoded(lz.buf[..], final, lz.toks);
      StartStaticBlock(w, t0, t1);
      ok := CompressLzCodes(w, lz, t0, t1, FixedLit(), FixedDist());
      all := FixedBits(final, lz.toks);
      Assoc3(p, [final], BitsOf(1, 2), BodyBits(FixedLit(), FixedDist(), lz.toks));
    } else {
      ghost var h := StartDynamicBlock(w, t0, t1, t2, lz.toks);
      DynSize(h);
      ok := CompressLzCodes(w, lz, t0, t1, h.lit, h.dist);
      all := DynamicBits(final, h, lz.toks);
      Assoc4(p, [final], BitsOf(2, 2), DynHeader(h), BodyBits(h.lit, h.dist, lz.toks));
      DynamicCompact(lz.buf[..], final, h, lz.toks);
      assert IsDynamic(final, all, lz.toks, h);
    }
  }

  lemma DynSize(h: Dyn)
    requires h.Ok()
    ensures |h.lit| > 256
  {
  }

  lemma StaticCoded(s: seq<byte>, final: bool, toks: seq<Token>)
    requires Sealed(s, toks) && |s| == LZ_CODE_BUF_SIZE
    ensures |FixedLit()| == 288 && FixedLit()[256] == 7 && AllCoded(FixedLit(), FixedDist(), toks)
    ensures Compact(FixedBits(final, toks))
  {
    StaticFits(final, toks);
    FixedCodes(256);
  }

  lemma DynamicCompact(s: seq<byte>, final: bool, h: Dyn, toks: seq<Token>)
    requires Sealed(s, toks) && |s| == LZ_CODE_BUF_SIZE
    requires h.Ok() && AllCoded(h.lit, h.dist, toks) && Dense(h.lit, h.dist, toks)
    ensures Compact(DynamicBits(final, h, toks))
  {
    DynamicFits(final, h, toks);
  }

  lemma Assoc3(p: bits, a: bits, b: bits, c: bits)
    ensures p + a + b + c == p + ((a + b) + c)
  {
  }

  // ---- The whole block

  lemma StoredSize(pos: nat, final: bool, data: seq<byte>)
    requires |data| <= DICT_SIZE
    ensures Compact(StoredBits(pos, final, data)) && IsStored(pos, final, StoredBits(pos, final, data), data)
  {
    AlignGap(pos + 3);
    hide AlignUp, ByteBits;
  }

  lemma AlignGap(n: nat)
    ensures n <= AlignUp(n) < n + 8 && AlignUp(n) % 8 == 0
  {
  }

  /** A block written into a buffer that is empty but for a zlib header leaves room for what follows. */
  lemma Fits(w: Writer, p: bits, all: bits)
    requires w.Valid() && w.put == p + all && |p| < 8 * w.base + 24 && Compact(all)
    ensures w.full <= OUT_END - 3000
  {
    Phase(w);
  }

  /** The source's "extremely unlikely (if not impossible) case" of a block that does not fit is impossible:
      whatever `CompressBlock` has written, it reports success. */
  lemma FallbackUnused(w: Writer, p: bits, all: bits)
    requires w.Valid() && w.put == p + all && |p| < 8 * w.base + 24 && Compact(all)
    ensures w.outPos < OUT_END
  {
    Fits(w, p, all);
    Phase(w);
  }

  lemma FlagBit(final: bool)
    ensures BitsOf(if final then 1 else 0, 1) == [final]
    ensures (if final then 1 else 0) < Pow2(1)
  {
    assert BitsOf(if final then 1 else 0, 1) == [final] + BitsOf(0, 0);
  }

  /** Where the coded form of a block is no shorter than its bytes, those are stored instead. `n` is the position
      behind the final flag. */
  predicate NoShorter(n: nat, end: nat, total: nat) { total > 0 && end / 8 - n / 8 + 1 >= total }

  /** The form a block takes: `tried` is the coded form, `all` what is written. */
  ghost predicate Chosen(pos: nat, final: bool, all: bits, tried: bits, toks: seq<Token>, data: seq<byte>,
                         total: nat, inRing: bool, useRaw: bool, forceStatic: bool) {
    && (!useRaw ==> if forceStatic || total < 48 then IsFixed(final, tried, toks) else IsDescribed(final, tried, toks))
    && if useRaw || (inRing && NoShorter(pos + 1, pos + |tried|, total)) then IsStored(pos, final, all, data)
       else all == tried
  }

  lemma ChosenIsBlock(pos: nat, final: bool, all: bits, tried: bits, toks: seq<Token>, data: seq<byte>,
                      total: nat, inRing: bool, useRaw: bool, forceStatic: bool)
    requires Chosen(pos, final, all, tried, toks, data, total, inRing, useRaw, forceStatic)
    ensures IsBlock(pos, final, all, toks, data)
  {
    hide IsFixed, IsDescribed, IsStored;
  }

  method PutFlag(w: Writer, final: bool)
    requires w.Valid() && w.full <= 2
    modifies w`outPos, w`bitBuffer, w`bitsIn, w`put, w`full, w.outBuf
    ensures w.Valid() && w.put == old(w.put) + [final] && w.outPos == w.full <= 3 && old(|w.put|) < 8 * w.base + 24
    ensures |w.put| == 8 * (w.base + w.full) + w.bitsIn && w.bitsIn < 8
    ensures w.bitBuffer == Val(w.put[8 * (w.base + w.full)..])
  {
    hide Writer.Valid, BitsOf, Pow2, Val;
    Phase(w);
    FlagBit(final);
    w.PutBits(if final then 1 else 0, 1);
    Phase(w);
  }

  method PutStored(w: Writer, ring: array<byte>, start: nat, total: nat, ghost final: bool, ghost p: bits,
                   ghost data: seq<byte>)
    returns (ghost all: bits)
    requires w.Valid() && w.put == p + [final] && ring.Length >= DICT_SIZE && ring != w.outBuf
    requires total <= DICT_SIZE && data == RingSlice(ring[..], start, total)
    modifies w`outPos, w`bitBuffer, w`bitsIn, w`put, w`full, w.outBuf
    ensures w.Valid() && w.put == p + all && IsStored(|p|, final, all, data) && Compact(all)
  {
    hide Writer.Valid, StoredBits, RingSlice, Compact;
    PutRaw(w, ring, start, total, final, p);
    all := StoredBits(|p|, final, data);
    StoredSize(|p|, final, data);
  }

  /** `inRing`: the bytes of the block are all still in the ring. */
  method WriteBlock(w: Writer, lz: Codes, t0: Table, t1: Table, t2: Table, ring: array<byte>, start: nat,
                    total: nat, inRing: bool, useRaw: bool, forceStatic: bool, final: bool, ghost data: seq<byte>)
    returns (ghost all: bits, ghost tried: bits)
    requires w.Valid() && w.full <= 2 && w.outBuf != lz.buf && w.outBuf != ring && ring.Length >= DICT_SIZE
    requires Apart(t0, t1) && Apart(t0, t2) && Apart(t1, t2)
    requires Sealed(lz.buf[..], lz.toks) && lz.pos == SealedEnd(lz.toks) && lz.buf.Length == LZ_CODE_BUF_SIZE
    requires |lz.toks| < 65535 && Tallied(t0.count[..], t1.count[..], lz.toks)
    requires useRaw ==> inRing
    requires inRing ==> total <= DICT_SIZE && data == RingSlice(ring[..], start, total)
    modifies t0.count, t0.sizes, t0.codes, t1.sizes, t1.codes, t2.count, t2.sizes, t2.codes
    modifies w`outPos, w`bitBuffer, w`bitsIn, w`put, w`full, w.outBuf
    ensures w.Valid() && w.put == old(w.put) + all && w.full <= OUT_END - 3000
    ensures Chosen(|old(w.put)|, final, all, tried, lz.toks, data, total, inRing, useRaw, forceStatic)
  {
    hide Writer.Valid, BitsOf, Sealed, SealedEnd, Tallied, RingSlice, StoredBits, IsDescribed, IsFixed;
    hide NoShorter, IsStored, Val, Min, Held, Apart, Pow2, Zeros, AlignUp, ByteBits, Compact;
    ghost var p := w.put;
    PutFlag(w, final);
    var pos, buffer, n := w.outPos, w.bitBuffer, w.bitsIn;
    ghost var q, f := w.put, w.full;
    var ok := false;
    tried := [];
    if !useRaw {
      ok, tried := CompressBlock(w, lz, t0, t1, t2, forceStatic || total < 48, final, p);
      Phase(w);
    }
    ghost var end, reach := w.outPos, w.full;
    if (useRaw || (total > 0 && w.outPos - pos + 1 >= total)) && inRing {
      w.Restore(pos, buffer, n, q, f);
      all := PutStored(w, ring, start, total, final, p, data);
    } else if !ok {
      w.Restore(pos, buffer, n, q, f);
      ok, all := CompressBlock(w, lz, t0, t1, t2, true, final, p);
    } else {
      all := tried;
    }
    Fits(w, p, all);
    if !useRaw { Reached(|p|, tried, w.base, f, pos, reach, end, total); }
  }

  /** The bytes counted while a block is tried are all the bytes it has. */
  lemma Reached(p: nat, tried: bits, base: nat, full: nat, pos: nat, reach: nat, end: nat, total: nat)
    requires full <= 3 && pos == full && 8 * (base + full) <= p + 1 < 8 * (base + full) + 8
    requires 8 * (base + reach) <= p + |tried| < 8 * (base + reach) + 8
    requires Compact(tried) && end == Min(reach, OUT_END)
    ensures end < OUT_END && (NoShorter(p + 1, p + |tried|, total) <==> total > 0 && end - pos + 1 >= total)
  {
  }
}
