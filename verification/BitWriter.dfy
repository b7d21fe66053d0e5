/** The compressor's bit writer: `m_bit_buffer`, `m_bits_in` and the output buffer. */
module BitWriter {
  import opened Bits

  const LZ_CODE_BUF_SIZE: nat := 65536
  const OUT_BUF_SIZE: nat := 85196
  /** Where `m_pOutput_buf_end` points: bytes beyond it are dropped. */
  const OUT_END: nat := OUT_BUF_SIZE - 16

  /** The bits `put`, of which the first `8 * base` left with earlier buffers: `full` bytes have been
      completed since, those that fit make up `done`, and the last `n` bits wait in `buffer`. */
  ghost predicate Held(done: seq<byte>, put: bits, base: nat, full: nat, buffer: nat, n: nat) {
    && |put| == 8 * (base + full) + n
    && buffer == Val(put[8 * (base + full)..])
    && |done| == (if full <= OUT_END then full else OUT_END)
    && ByteBits(done) == put[8 * base..8 * (base + |done|)]
  }

  lemma HeldAppend(done: seq<byte>, put: bits, base: nat, full: nat, buffer: nat, n: nat, b: nat, l: nat)
    requires Held(done, put, base, full, buffer, n) && b < Pow2(l)
    ensures Held(done, put + BitsOf(b, l), base, full, buffer + b * Pow2(n), n + l)
  {
    hide ByteBits, Val, BitsOf, Pow2;
    var start, more := 8 * (base + full), BitsOf(b, l);
    ValAppend(put[start..], more);
    ValBitsOf(b, l);
    assert (put + more)[start..] == put[start..] + more;
    assert b * Pow2(n) == Pow2(n) * b;
    assert (put + more)[8 * base..8 * (base + |done|)] == put[8 * base..8 * (base + |done|)];
  }

  lemma HeldSpill(done: seq<byte>, put: bits, base: nat, full: nat, buffer: nat, n: nat)
    requires Held(done, put, base, full, buffer, n) && n >= 8
    ensures Held(if full < OUT_END then done + [buffer % 256] else done, put, base, full + 1, buffer / 256, n - 8)
  {
    hide ByteBits, BitsOf, Val;
    var w := put[8 * (base + full)..];
    Pow2Table();
    ValSplit(w, 8);
    assert w[8..] == put[8 * (base + full + 1)..];
    if full < OUT_END {
      ByteBitsPush(done, buffer % 256);
      BitsOfVal(w[..8]);
      var mid := 8 * (base + full);
      assert w[..8] == put[mid..mid + 8];
      assert put[8 * base..mid + 8] == put[8 * base..mid] + put[mid..mid + 8];
    }
  }

  lemma HeldPrefix(done: seq<byte>, put: bits, base: nat, full: nat, buffer: nat, n: nat,
                   p: bits, f: nat, b: nat, m: nat)
    requires Held(done, put, base, full, buffer, n) && p <= put
    requires |p| == 8 * (base + f) + m && b == Val(p[8 * (base + f)..])
    requires (if f <= OUT_END then f else OUT_END) <= |done|
    ensures Held(done[..if f <= OUT_END then f else OUT_END], p, base, f, b, m)
  {
    hide Val;
    var k := if f <= OUT_END then f else OUT_END;
    BytesPrefix(done, k);
    assert put[8 * base..8 * (base + |done|)][..8 * k] == p[8 * base..8 * (base + k)];
  }

  lemma {:induction false} ZeroBits(n: nat)
    ensures BitsOf(0, n) == seq(n, i => false)
  {
    if n > 0 { ZeroBits(n - 1); }
  }

  lemma BytesPrefix(s: seq<byte>, k: nat)
    requires k <= |s|
    ensures ByteBits(s[..k]) == ByteBits(s)[..8 * k]
  {
    assert s == s[..k] + s[k..];
    ByteBitsAppend(s[..k], s[k..]);
  }

  class Writer {
    const outBuf: array<byte>
    var outPos: nat
    var bitBuffer: nat
    var bitsIn: nat
    ghost var put: bits
    ghost var base: nat
    ghost var full: nat

    constructor ()
      ensures Valid() && fresh(outBuf)
      ensures put == [] && base == full == 0
    {
      outBuf := new byte[OUT_BUF_SIZE];
      outPos, bitBuffer, bitsIn := 0, 0, 0;
      put, base, full := [], 0, 0;
      new;
      assert outBuf[..0] == [];
    }

    ghost predicate Valid()
      reads this, outBuf
    {
      && outBuf.Length == OUT_BUF_SIZE && bitsIn < 8
      && outPos == (if full <= OUT_END then full else OUT_END)
      && Held(outBuf[..outPos], put, base, full, bitBuffer, bitsIn)
    }

    /** `TDEFL_PUT_BITS`. A byte completed when the buffer is full is dropped; as long as the position
        stays below the end, none has been. */
    method PutBits(b: nat, l: nat)
      requires Valid() && b < Pow2(l) && l <= 16
      modifies this`outPos, this`bitBuffer, this`bitsIn, this`put, this`full, outBuf
      ensures Valid() && put == old(put) + BitsOf(b, l)
      ensures old(outPos) <= outPos
    {
      hide Held, BitsOf;
      HeldAppend(outBuf[..outPos], put, base, full, bitBuffer, bitsIn, b, l);
      bitBuffer, bitsIn := bitBuffer + b * Pow2(bitsIn), bitsIn + l;
      put := put + BitsOf(b, l);
      while bitsIn >= 8
        invariant put == old(put) + BitsOf(b, l)
        invariant outPos == (if full <= OUT_END then full else OUT_END)
        invariant Held(outBuf[..outPos], put, base, full, bitBuffer, bitsIn)
        invariant old(outPos) <= outPos
      {
        ghost var before := outBuf[..outPos];
        HeldSpill(before, put, base, full, bitBuffer, bitsIn);
        if outPos < OUT_END {
          outBuf[outPos] := bitBuffer % 256;
          outPos := outPos + 1;
          assert outBuf[..outPos] == before + [bitBuffer % 256];
        }
        full := full + 1;
        bitBuffer, bitsIn := bitBuffer / 256, bitsIn - 8;
      }
    }

    /** Zero bits up to the next byte boundary. */
    method Pad()
      requires Valid()
      modifies this`outPos, this`bitBuffer, this`bitsIn, this`put, this`full, outBuf
      ensures Valid() && bitsIn == 0
      ensures put == old(put) + seq(if old(bitsIn) == 0 then 0 else 8 - old(bitsIn), i => false)
      ensures old(outPos) <= outPos
    {
      if bitsIn > 0 {
        ZeroBits(8 - bitsIn);
        PutBits(0, 8 - bitsIn);
      }
    }

    /** Forget everything put since the moment `put` was `p`. */
    method Restore(pos: nat, buffer: nat, n: nat, ghost p: bits, ghost f: nat)
      requires Valid() && p <= put && pos <= outPos
      requires n < 8 && |p| == 8 * (base + f) + n && buffer == Val(p[8 * (base + f)..])
      requires pos == (if f <= OUT_END then f else OUT_END)
      modifies this`outPos, this`bitBuffer, this`bitsIn, this`put, this`full
      ensures Valid() && put == p && full == f && outPos == pos
      ensures outBuf[..] == old(outBuf[..])
    {
      HeldPrefix(outBuf[..outPos], put, base, full, bitBuffer, bitsIn, p, f, buffer, n);
      assert outBuf[..outPos][..pos] == outBuf[..pos];
      outPos, bitBuffer, bitsIn := pos, buffer, n;
      put, full := p, f;
    }

    /** Hand the completed bytes over and start again at the beginning of the buffer. */
    method Drain() returns (out: seq<byte>)
      requires Valid() && full <= OUT_END
      modifies this`outPos, this`base, this`full
      ensures Valid() && put == old(put) && bitsIn == old(bitsIn)
      ensures base == old(base) + |out| && full == 0 && outPos == 0 && |out| == old(outPos)
      ensures |out| <= outBuf.Length && outBuf[..|out|] == out && 8 * base <= |put|
      ensures ByteBits(out) == put[8 * old(base)..8 * base]
    {
      out := outBuf[..outPos];
      base, full, outPos := base + full, 0, 0;
      assert outBuf[..0] == [];
    }
  }
}
