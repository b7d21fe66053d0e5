/** What the bits of a whole stream stand for, and what frames its blocks: the zlib header, the marker of a
    flush, the padding and the checksum at the end. */
module Stream {
  import opened Bits
  import opened Canonical
  import opened Tokens
  import opened InflateSpec
  import opened Encoding
  import opened BitWriter
  import opened BlockChoice
  import opened Checksums

  datatype Flush = NoFlush | SyncFlush | FullFlush | Finish

  /** The decompressors a stream is meant for: those that expect a zlib header if it has one, with any
      window of 32 KB or more. */
  ghost predicate Suits(m: Mode, zlib: bool) {
    m.zlib == zlib && m.limit >= DICT_SIZE
  }

  /** Whatever follows, the machine reads `put` as finished blocks that stand for `out`. */
  ghost predicate Encoded(zlib: bool, put: bits, final: bool, out: seq<byte>) {
    forall m: Mode, t: bits :: Suits(m, zlib) ==> Reaches(put + t, Start(m), Between(m, final, |put|, out))
  }

  lemma EncodedStart()
    ensures Encoded(false, [], false, [])
  {
    hide Reaches;
    var none: bits := [];
    forall m: Mode, t: bits | Suits(m, false) ensures Reaches(none + t, Start(m), Between(m, false, |none|, [])) {
      ReachSelf(none + t, Start(m));
    }
  }

  lemma EncodedHead()
    ensures Encoded(true, ByteBits(ZLIB_HEAD), false, [])
  {
    hide Reaches, ByteBits;
    var head := ByteBits(ZLIB_HEAD);
    forall m: Mode, t: bits | Suits(m, true) ensures Reaches(head + t, Start(m), Between(m, false, |head|, [])) {
      assert (head + t)[0..0 + |head|] == head;
      ZlibHeadRun(head + t, m);
    }
  }

  lemma EncodedBlock(zlib: bool, put: bits, out: seq<byte>, final: bool, all: bits, toks: seq<Token>, data: seq<byte>)
    requires Encoded(zlib, put, false, out) && IsBlock(|put|, final, all, toks, data)
    requires Expand(out, toks) == Some(out + data)
    ensures Encoded(zlib, put + all, final, out + data)
  {
    hide Reaches, IsBlock, Expand;
    forall m: Mode, t: bits | Suits(m, zlib)
      ensures Reaches((put + all) + t, Start(m), Between(m, final, |put + all|, out + data))
    {
      var s, a := put + (all + t), Between(m, false, |put|, out);
      assert s == (put + all) + t;
      assert s[|put|..|put| + |all|] == all;
      assert Reaches(s, Start(m), a);
      BlockMeaning(s, a, final, all, toks, data);
      ReachTrans(s, Start(m), a, Between(m, final, |put + all|, out + data));
    }
  }

  /** `put` stands for `out`; and from bit `cut` on, where the dictionary was last emptied, it stands by itself for
      what follows the first `base` bytes of it. */
  ghost predicate Tells(zlib: bool, put: bits, cut: nat, final: bool, out: seq<byte>, base: nat) {
    && Encoded(zlib, put, final, out) && cut <= |put| && cut % 8 == 0 && base <= |out|
    && (cut > 0 ==> Encoded(false, put[cut..], final, out[base..]))
  }

  /** A block whose tokens do not reach behind `base`. */
  lemma TellsBlock(zlib: bool, put: bits, cut: nat, out: seq<byte>, base: nat,
                   final: bool, all: bits, toks: seq<Token>, data: seq<byte>)
    requires Tells(zlib, put, cut, false, out, base) && IsBlock(|put|, final, all, toks, data)
    requires Expand(out[base..], toks) == Some(out[base..] + data)
    ensures Tells(zlib, put + all, cut, final, out + data, base)
  {
    hide Encoded, IsBlock, Expand;
    ExpandBehind(out[..base], out[base..], toks);
    assert out[..base] + out[base..] == out;
    assert out[..base] + (out[base..] + data) == out + data;
    EncodedBlock(zlib, put, out, final, all, toks, data);
    if cut > 0 {
      BlockMoved(|put|, cut, final, all, toks, data);
      EncodedBlock(false, put[cut..], out[base..], final, all, toks, data);
      assert (put + all)[cut..] == put[cut..] + all;
      assert (out + data)[base..] == out[base..] + data;
    }
  }

  /** A block may begin any number of bytes earlier. */
  lemma BlockMoved(pos: nat, cut: nat, final: bool, all: bits, toks: seq<Token>, data: seq<byte>)
    requires IsBlock(pos, final, all, toks, data) && cut <= pos && cut % 8 == 0
    ensures IsBlock(pos - cut, final, all, toks, data)
  {
    hide IsCoded, ByteBits;
    Realigned(pos + 3, cut);
    hide AlignUp;
  }

  lemma Realigned(pos: nat, cut: nat)
    requires cut <= pos && cut % 8 == 0
    ensures AlignUp(pos - cut) == AlignUp(pos) - cut
  {
    var k := cut / 8;
    assert pos - cut + 7 == pos + 7 - 8 * k;
  }

  /** At a byte boundary, the stream may be taken up again with no memory of what came before. */
  lemma TellsFresh(zlib: bool, put: bits, cut: nat, out: seq<byte>, base: nat)
    requires Tells(zlib, put, cut, false, out, base) && |put| % 8 == 0
    ensures Tells(zlib, put, |put|, false, out, |out|)
  {
    hide Encoded;
    EncodedStart();
    assert put[|put|..] == [] && out[|out|..] == [];
  }

  /** The byte string is a complete stream: the machine stops in its last byte having produced `out`,
      whatever bytes follow. */
  ghost predicate InflatesTo(zlib: bool, s: seq<byte>, out: seq<byte>) {
    exists pos: nat :: pos <= 8 * |s| < pos + 8 && EndsAt(zlib, s, out, pos)
  }

  ghost predicate EndsAt(zlib: bool, s: seq<byte>, out: seq<byte>, pos: nat) {
    forall m: Mode, t: bits :: Suits(m, zlib) ==> Reaches(ByteBits(s) + t, Start(m), Ended(m, pos, out))
  }

  /** What follows the last block: padding, and in a zlib stream the checksum. */
  ghost function Ending(zlib: bool, n: nat, out: seq<byte>): (e: bits)
    ensures |e| == AlignUp(n) - n + if zlib then 32 else 0
  {
    Zeros(AlignUp(n) - n) + if zlib then ByteBits(BigEndian(Adler(1, out) as nat)) else []
  }

  lemma EncodedFinal(zlib: bool, put: bits, s: seq<byte>, out: seq<byte>)
    requires Encoded(zlib, put, true, out) && ByteBits(s) == put + Ending(zlib, |put|, out)
    ensures InflatesTo(zlib, s, out)
  {
    hide Reaches, ByteBits, AlignUp, Adler;
    var e, n := Ending(zlib, |put|, out), |put|;
    var pos := if zlib then AlignUp(n) + 32 else n;
    forall m: Mode, t: bits | Suits(m, zlib) ensures Reaches(ByteBits(s) + t, Start(m), Ended(m, pos, out)) {
      var w, b := ByteBits(s) + t, Between(m, true, n, out);
      assert put + (e + t) == w;
      assert Reaches(w, Start(m), b);
      if zlib {
        EndingAt(put, e, t, n, out);
        TrailerRun(w, m, n, out);
      } else {
        RawEndRun(w, m, n, out);
      }
      ReachTrans(w, Start(m), b, Ended(m, pos, out));
    }
    assert EndsAt(zlib, s, out, pos);
    AlignGap(n);
  }

  lemma EndingAt(put: bits, e: bits, t: bits, n: nat, out: seq<byte>)
    requires n == |put| && e == Ending(true, n, out)
    ensures At(put + (e + t), AlignUp(n), ByteBits(BigEndian(Adler(1, out) as nat)))
  {
    hide ByteBits, Adler;
    var z, d := Zeros(AlignUp(n) - n), ByteBits(BigEndian(Adler(1, out) as nat));
    hide AlignUp;
    assert put + (e + t) == (put + z) + (d + t);
  }

  /** `s` is all of a stream that stands for `out`; and from bit `cut` on, without the checksum at the end, all of a
      raw stream that stands for what follows the first `base` bytes. */
  ghost predicate TellsAll(zlib: bool, s: seq<byte>, cut: nat, out: seq<byte>, base: nat) {
    && InflatesTo(zlib, s, out) && base <= |out| && cut / 8 + (if zlib then 4 else 0) <= |s|
    && (cut > 0 ==> InflatesTo(false, s[cut / 8..|s| - if zlib then 4 else 0], out[base..]))
  }

  lemma TellsFinal(zlib: bool, put: bits, cut: nat, s: seq<byte>, out: seq<byte>, base: nat)
    requires Tells(zlib, put, cut, true, out, base) && ByteBits(s) == put + Ending(zlib, |put|, out)
    ensures TellsAll(zlib, s, cut, out, base)
  {
    hide Encoded, InflatesTo, ByteBits, BigEndian, Adler;
    EncodedFinal(zlib, put, s, out);
    AlignGap(|put|);
    Realigned(|put|, cut);
    hide AlignUp;
    var i, j := cut / 8, |s| - if zlib then 4 else 0;
    assert cut == 8 * i;
    if cut > 0 {
      BytesBetween(s, i, j);
      var z := Zeros(AlignUp(|put|) - |put|);
      EndPart(put, z, if zlib then ByteBits(BigEndian(Adler(1, out) as nat)) else [], cut);
      assert z + [] == z;
      EncodedFinal(false, put[cut..], s[i..j], out[base..]);
    }
  }

  lemma EndPart(put: bits, z: bits, t: bits, cut: nat)
    requires cut <= |put|
    ensures (put + (z + t))[cut..|put| + |z|] == put[cut..] + z
  {
  }

  lemma BytesBetween(s: seq<byte>, i: nat, j: nat)
    requires i <= j <= |s|
    ensures ByteBits(s[i..j]) == ByteBits(s)[8 * i..8 * j]
  {
    hide ByteBits;
    BytesAmid(s[..i], s[i..j], s[j..]);
    assert s[..i] + s[i..j] + s[j..] == s;
  }

  lemma BytesAmid(a: seq<byte>, b: seq<byte>, c: seq<byte>)
    ensures ByteBits(a + b + c)[8 * |a|..8 * |a| + 8 * |b|] == ByteBits(b)
  {
    hide ByteBits;
    ByteBitsAppend(a, b);
    ByteBitsAppend(a + b, c);
    Middle(ByteBits(a), ByteBits(b), ByteBits(c));
  }

  lemma Middle(a: bits, b: bits, c: bits)
    ensures (a + b + c)[|a|..|a| + |b|] == b
  {
  }

  // ---- Writing the frame

  method PutHead(w: Writer)
    requires w.Valid() && w.full == 0 && w.put == [] && w.base == 0
    modifies w`outPos, w`bitBuffer, w`bitsIn, w`put, w`full, w.outBuf
    ensures w.Valid() && w.full == 2 && Encoded(true, w.put, false, [])
    ensures w.put == BitsOf(0x78, 8) + BitsOf(0x01, 8)
  {
    hide Writer.Valid, Encoded, ByteBits, BitsOf;
    HeadBits();
    w.PutBits(0x78, 8);
    w.PutBits(0x01, 8);
    Phase(w);
    EncodedHead();
    assert w.put == ByteBits(ZLIB_HEAD);
  }

  /** An empty raw block brings the output to a byte boundary. */
  method PutMarker(w: Writer)
    requires w.Valid() && w.full <= OUT_END - 3000
    modifies w`outPos, w`bitBuffer, w`bitsIn, w`put, w`full, w.outBuf
    ensures w.Valid() && w.full <= OUT_END && w.bitsIn == 0
    ensures w.put == old(w.put) + StoredBits(|old(w.put)|, false, [])
  {
    hide Writer.Valid, BitsOf, ByteBits, Pow2, AlignUp, StoredBits;
    ghost var p := w.put;
    Pow2Table();
    MarkerBits(p);
    Phase(w);
    w.PutBits(0, 3);
    Phase(w);
    PadLength(|w.put|, w.base + w.full, w.bitsIn);
    AlignGap(|p| + 3);
    w.Pad();
    w.PutBits(0, 16);
    w.PutBits(0xFFFF, 16);
    Phase(w);
    assert |w.put| == AlignUp(|p| + 3) + 32;
  }

  /** After the last block: padding, and in a zlib stream the checksum. */
  method PutEnding(w: Writer, zlib: bool, adler: uint32, ghost out: seq<byte>)
    requires w.Valid() && w.full <= OUT_END - 3000 && (zlib ==> adler == Adler(1, out))
    modifies w`outPos, w`bitBuffer, w`bitsIn, w`put, w`full, w.outBuf
    ensures w.Valid() && w.full <= OUT_END && w.bitsIn == 0
    ensures w.put == old(w.put) + Ending(zlib, |old(w.put)|, out)
  {
    hide Writer.Valid, BitsOf, ByteBits, Pow2, AlignUp, Adler, BigEndian;
    ghost var p := w.put;
    Phase(w);
    PadLength(|p|, w.base + w.full, w.bitsIn);
    AlignGap(|p|);
    w.Pad();
    if zlib {
      PutChecksum(w, adler);
    }
    Phase(w);
    assert |w.put| == AlignUp(|p|) + if zlib then 32 else 0;
  }

  /** `put` is all of a stream that stands for `out`, and from `cut` on for what follows `base`. */
  ghost predicate Closed(zlib: bool, put: bits, cut: nat, out: seq<byte>, base: nat) {
    forall s: seq<byte> :: ByteBits(s) == put ==> TellsAll(zlib, s, cut, out, base)
  }

  lemma ClosedStream(zlib: bool, put: bits, cut: nat, s: seq<byte>, out: seq<byte>, base: nat)
    requires Closed(zlib, put, cut, out, base) && ByteBits(s) == put
    ensures TellsAll(zlib, s, cut, out, base)
  {
    hide TellsAll;
  }

  /** The marker of a flush: zeros up to a byte boundary, at least three, then sixteen zeros and sixteen ones. */
  ghost predicate IsMarked(p: bits, q: bits) {
    && p <= q && |q| % 8 == 0 && |p| + 35 <= |q| < |p| + 43
    && forall i :: |p| <= i < |q| ==> q[i] == (i >= |q| - 16)
  }

  /** After the block that ends `p` nothing follows, or a marker, or the padding and checksum. */
  ghost predicate Tailed(zlib: bool, p: bits, flush: Flush, out: seq<byte>, q: bits) {
    match flush
    case NoFlush => q == p
    case SyncFlush => IsMarked(p, q)
    case FullFlush => IsMarked(p, q)
    case Finish => q == p + Ending(zlib, |p|, out)
  }

  lemma TailOf(zlib: bool, p: bits, flush: Flush, out: seq<byte>, same: seq<byte>, q: bits)
    requires Tailed(zlib, p, flush, same, q) && (flush.Finish? ==> same == out)
    ensures Tailed(zlib, p, flush, out, q)
    ensures flush.SyncFlush? || flush.FullFlush? ==> q != []
  {
    hide Ending;
  }

  /** What `tdefl_flush_block` writes after a block: nothing, a marker, or the end of the stream. */
  method PutTail(w: Writer, zlib: bool, flush: Flush, adler: uint32,
                 ghost cut: nat, ghost out: seq<byte>, ghost base: nat)
    requires w.Valid() && w.full <= OUT_END - 3000 && (flush.Finish? && zlib ==> adler == Adler(1, out))
    requires Tells(zlib, w.put, cut, flush.Finish?, out, base)
    modifies w`outPos, w`bitBuffer, w`bitsIn, w`put, w`full, w.outBuf
    ensures w.Valid() && w.full <= OUT_END && old(w.put) <= w.put && (!flush.NoFlush? ==> w.bitsIn == 0)
    ensures if flush.Finish? then Closed(zlib, w.put, cut, out, base) else Tells(zlib, w.put, cut, false, out, base)
    ensures Tailed(zlib, old(w.put), flush, out, w.put)
  {
    hide Writer.Valid, Encoded, ByteBits, InflatesTo, Ending, StoredBits, Adler, Tells, TellsAll, IsMarked;
    ghost var p := w.put;
    if flush.Finish? {
      PutEnding(w, zlib, adler, out);
      forall s: seq<byte> | ByteBits(s) == w.put ensures TellsAll(zlib, s, cut, out, base) {
        TellsFinal(zlib, p, cut, s, out, base);
      }
    } else if !flush.NoFlush? {
      TellsMarker(zlib, p, cut, out, base);
      MarkerIs(p);
      PutMarker(w);
    }
  }

  /** Four bytes, most significant first. */
  method PutChecksum(w: Writer, adler: uint32)
    requires w.Valid()
    modifies w`outPos, w`bitBuffer, w`bitsIn, w`put, w`full, w.outBuf
    ensures w.Valid() && w.put == old(w.put) + ByteBits(BigEndian(adler as nat))
  {
    hide Writer.Valid, BitsOf, ByteBits, Pow2, BigEndian, Word;
    Pow2Table();
    var a: nat := adler as nat;
    ghost var all := BigEndian(a);
    assert all[..0] == [];
    EmptyBits();
    WordStart(a);
    ghost var p := w.put;
    for i := 0 to 4
      invariant w.Valid() && w.put == p + ByteBits(all[..i])
      invariant a == Word(all, i)
    {
      WordStep(all, i);
      ByteBitsPush(all[..i], all[i]);
      assert all[..i + 1] == all[..i] + [all[i]];
      w.PutBits(a / 0x100_0000 % 256, 8);
      a := a * 256 % 0x1_0000_0000;
    }
    assert all[..4] == all;
  }

  lemma HeadBits()
    ensures ByteBits(ZLIB_HEAD) == BitsOf(0x78, 8) + BitsOf(0x01, 8) && Pow2(8) == 256
  {
    Pow2Table();
    EmptyBits();
    hide BitsOf, ByteBits, Pow2;
    var none: seq<byte> := [];
    ByteBitsPush(none, 0x78);
    assert none + [0x78] == [0x78];
    ByteBitsPush([0x78], 0x01);
    assert [0x78] + [0x01] == ZLIB_HEAD;
  }

  lemma EmptyBits()
    ensures ByteBits([]) == []
  {
  }

  /** An empty raw block, bit by bit. */
  lemma MarkerBits(p: bits)
    ensures p + StoredBits(|p|, false, [])
         == p + BitsOf(0, 3) + Zeros(AlignUp(|p| + 3) - (|p| + 3)) + BitsOf(0, 16) + BitsOf(65535, 16)
  {
    assert BitsOf(0, 3) == [false] + BitsOf(0, 2);
    EmptyBits();
  }

  lemma TellsMarker(zlib: bool, p: bits, cut: nat, out: seq<byte>, base: nat)
    requires Tells(zlib, p, cut, false, out, base)
    ensures Tells(zlib, p + StoredBits(|p|, false, []), cut, false, out, base)
  {
    assert out + [] == out && out[base..] + [] == out[base..];
    TellsBlock(zlib, p, cut, out, base, false, StoredBits(|p|, false, []), [], []);
    hide Encoded, StoredBits;
  }

  lemma MarkerIs(p: bits)
    ensures IsMarked(p, p + StoredBits(|p|, false, []))
  {
    hide AlignUp, BitsOf, StoredBits, Pow2;
    MarkerBits(p);
    AlignGap(|p| + 3);
    Pow2Table();
    ZeroBits(3);
    ZeroBits(16);
    OneBits(16);
  }

  lemma {:induction false} OneBits(n: nat)
    ensures BitsOf(Pow2(n) - 1, n) == seq(n, i => true)
  {
    if n > 0 {
      OneBits(n - 1);
      var v, half := Pow2(n) - 1, Pow2(n - 1) - 1;
      assert v % 2 == 1 && v / 2 == half;
      assert BitsOf(v, n) == [true] + BitsOf(half, n - 1);
    }
  }

  /** Four bytes of `d` from `i` on as a 32-bit word, zeros where there are no more. */
  function Word(d: seq<byte>, i: nat): nat {
    0x100_0000 * ByteOr(d, i) + 0x1_0000 * ByteOr(d, i + 1) + 256 * ByteOr(d, i + 2) + ByteOr(d, i + 3)
  }

  function ByteOr(d: seq<byte>, i: nat): (b: nat)
    ensures b < 256
  {
    if i < |d| then d[i] else 0
  }

  /** Its top byte, and the word shifted by eight bits. */
  lemma WordStep(d: seq<byte>, i: nat)
    requires |d| == 4 && i < 4
    ensures Word(d, i) / 0x100_0000 % 256 == d[i] as nat
    ensures Word(d, i) * 256 % 0x1_0000_0000 == Word(d, i + 1)
  {
    TopByte(d[i], 0x1_0000 * ByteOr(d, i + 1) + 256 * ByteOr(d, i + 2) + ByteOr(d, i + 3));
  }

  lemma TopByte(b: nat, rest: nat)
    requires b < 256 && rest < 0x100_0000
    ensures (0x100_0000 * b + rest) / 0x100_0000 % 256 == b
    ensures (0x100_0000 * b + rest) * 256 % 0x1_0000_0000 == 256 * rest
  {
  }

  lemma WordStart(a: nat)
    requires a < 0x1_0000_0000
    ensures Word(BigEndian(a), 0) == a
  {
    BytesOf(a);
  }
}
