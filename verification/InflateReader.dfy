/** The decompressor's input: the caller's buffer, the bit buffer, and Huffman decoding from them
    (`TINFL_GET_BYTE`, `TINFL_GET_BITS`, `TINFL_HUFF_DECODE`). Whatever is buffered, "bit buffer, then
    unread input" is the rest of the stream. */
module InflateReader {
  import opened Bits
  import opened Canonical
  import opened InflateSpec
  import opened InflateTable
  import opened InflateBuild

  /** `n` bits of the stream from bit `pos` on wait in `buf`; the next byte to fetch is `eaten`. */
  ghost predicate Buffered(stream: seq<byte>, eaten: nat, pos: nat, n: nat, buf: nat) {
    eaten <= |stream| && 8 * eaten == pos + n && buf == Val(ByteBits(stream)[pos..pos + n])
  }

  /** `rest` comes next in the stream, and unless `more` input is announced it is all that is left. */
  ghost predicate Feeding(stream: seq<byte>, eaten: nat, rest: seq<byte>, more: bool) {
    && eaten + |rest| <= |stream| && stream[eaten..eaten + |rest|] == rest
    && (!more ==> eaten + |rest| == |stream|)
  }

  lemma FeedingStep(stream: seq<byte>, eaten: nat, rest: seq<byte>, more: bool)
    requires Feeding(stream, eaten, rest, more) && rest != []
    ensures eaten < |stream| && stream[eaten] == rest[0] && Feeding(stream, eaten + 1, rest[1..], more)
  {
    assert stream[eaten..eaten + |rest|][1..] == stream[eaten + 1..eaten + 1 + |rest[1..]|];
  }

  lemma BufferedPush(stream: seq<byte>, eaten: nat, pos: nat, n: nat, buf: nat)
    requires Buffered(stream, eaten, pos, n, buf) && eaten < |stream|
    ensures Buffered(stream, eaten + 1, pos, n + 8, buf + stream[eaten] * Pow2(n))
  {
    hide ByteBits, BitsOf, Val;
    var s, c := ByteBits(stream), stream[eaten];
    ByteBitsAt(stream, eaten);
    var w := s[pos..pos + n];
    assert s[pos..pos + n + 8] == w + s[8 * eaten..8 * eaten + 8];
    ValAppend(w, BitsOf(c, 8));
    Pow2Table();
    ValBitsOf(c, 8);
    assert c * Pow2(n) == Pow2(n) * c;
  }

  lemma BufferedDrop(stream: seq<byte>, eaten: nat, pos: nat, n: nat, buf: nat, k: nat)
    requires Buffered(stream, eaten, pos, n, buf) && k <= n
    ensures Buffered(stream, eaten, pos + k, n - k, ShiftDown(buf, k))
    ensures buf % Pow2(k) == Val(ByteBits(stream)[pos..pos + k])
    ensures ReadBits(ByteBits(stream), pos, k) == Some(buf % Pow2(k))
  {
    hide ByteBits, Val;
    var w := ByteBits(stream)[pos..pos + n];
    ShiftDownVal(w, k);
    ValSplit(w, k);
    assert w[k..] == ByteBits(stream)[pos + k..pos + n];
    assert w[..k] == ByteBits(stream)[pos..pos + k];
  }

  /** The most bits a 32-bit and a 64-bit bit buffer ever hold. */
  const NARROW_BITS: nat := 30
  const WIDE_BITS: nat := 61

  class Reader {
    var input: seq<byte>
    var inPos: nat
    var more: bool
    var bitBuf: nat
    var numBits: nat
    /** How many bits the bit buffer is ever asked to hold: of 64 with a 64-bit buffer, of 32 without. */
    ghost const capacity: nat
    ghost const stream: seq<byte>
    ghost var eaten: nat
    ghost var pos: nat

    constructor (ghost stream: seq<byte>, ghost wide: bool)
      ensures this.stream == stream && pos == 0 && eaten == 0 && bitBuf == 0 && numBits == 0
      ensures Buffered(stream, 0, 0, 0, 0) && capacity == if wide then WIDE_BITS else NARROW_BITS
    {
      this.stream, capacity := stream, if wide then WIDE_BITS else NARROW_BITS;
      input, inPos, more, bitBuf, numBits, eaten, pos := [], 0, true, 0, 0, 0, 0;
    }

    ghost predicate Valid()
      reads this
    {
      && inPos <= |input|
      && Feeding(stream, eaten, input[inPos..], more)
      && Buffered(stream, eaten, pos, numBits, bitBuf)
      && Sized()
    }

    ghost predicate Sized()
      reads this`numBits
    {
      numBits <= capacity && NARROW_BITS <= capacity <= WIDE_BITS
    }

    /** The caller's input for one call. */
    method Load(input: seq<byte>, more: bool)
      requires Feeding(stream, eaten, input, more) && Buffered(stream, eaten, pos, numBits, bitBuf)
      requires Sized()
      modifies this`input, this`inPos, this`more
      ensures Valid() && this.input == input && inPos == 0 && this.more == more
    {
      this.input, inPos, this.more := input, 0, more;
      assert input[0..] == input;
    }

    /** Nothing can be done without more input, which has been announced. */
    ghost predicate Starved()
      reads this
    {
      inPos == |input| && more
    }

    /** `TINFL_GET_BYTE`: past the end of the last input it supplies zeros. */
    method GetByte() returns (ok: bool, c: byte)
      requires inPos <= |input|
      modifies this`inPos
      ensures old(inPos) < |input| ==> ok && c == input[old(inPos)] && inPos == old(inPos) + 1
      ensures old(inPos) == |input| ==> inPos == old(inPos) && ok == !more && c == 0
    {
      ok, c := true, 0;
      if inPos < |input| {
        c := input[inPos];
        inPos := inPos + 1;
      } else if more {
        ok := false;
      }
    }

    /** One byte into the bit buffer. */
    method Fetch() returns (ok: bool)
      requires Valid() && eaten < |stream| && numBits + 8 <= capacity
      modifies this`inPos, this`bitBuf, this`numBits, this`eaten
      ensures Valid() && (ok ==> numBits == old(numBits) + 8)
      ensures !ok ==> Starved() && numBits == old(numBits) && eaten == old(eaten) && inPos == old(inPos)
      ensures eaten - inPos == old(eaten - inPos)
    {
      hide Feeding, Buffered;
      var c;
      FeedingEnd();
      if inPos < |input| {
        FeedingStep(stream, eaten, input[inPos..], more);
        assert input[inPos..][1..] == input[inPos + 1..];
        BufferedPush(stream, eaten, pos, numBits, bitBuf);
      }
      ok, c := GetByte();
      if ok {
        bitBuf := bitBuf + c * Pow2(numBits);
        numBits := numBits + 8;
        eaten := eaten + 1;
      }
    }

    lemma FeedingEnd()
      requires inPos <= |input| && Feeding(stream, eaten, input[inPos..], more) && eaten < |stream|
      ensures inPos == |input| ==> more
    {
    }

    /** The stream still holds what lies ahead of the bit buffer. */
    lemma Left()
      requires Valid()
      ensures 8 * eaten == pos + numBits && eaten <= |stream| && numBits <= capacity && capacity >= NARROW_BITS
    {
    }

    lemma WholeBuffer()
      requires Valid()
      ensures Buffered(stream, eaten, pos, numBits, bitBuf) && 8 * eaten == pos + numBits
    {
    }

    /** `TINFL_NEED_BITS` */
    method Need(n: nat) returns (ok: bool)
      requires Valid() && pos + n <= 8 * |stream| && n <= 16
      modifies this`inPos, this`bitBuf, this`numBits, this`eaten
      ensures Valid() && (ok ==> numBits >= n) && (!ok ==> Starved() && numBits < n)
      ensures eaten - inPos == old(eaten - inPos)
    {
      hide Valid;
      ok := true;
      Left();
      while numBits < n
        invariant Valid() && eaten - inPos == old(eaten - inPos) && 8 * eaten == pos + numBits
        decreases n - numBits
      {
        ok := Fetch();
        Left();
        if !ok {
          return;
        }
      }
    }

    /** `bit_buf >>= n` */
    method Drop(n: nat)
      requires Valid() && n <= numBits
      modifies this`bitBuf, this`numBits, this`pos
      ensures Valid() && pos == old(pos) + n && numBits == old(numBits) - n
    {
      hide Feeding, Buffered, ShiftDown;
      BufferedDrop(stream, eaten, pos, numBits, bitBuf, n);
      bitBuf := ShiftDown(bitBuf, n);
      numBits := numBits - n;
      pos := pos + n;
    }

    /** `TINFL_GET_BITS` */
    method GetBits(n: nat) returns (ok: bool, v: nat)
      requires Valid() && pos + n <= 8 * |stream| && n <= 16
      modifies this`inPos, this`bitBuf, this`numBits, this`eaten, this`pos
      ensures Valid() && eaten - inPos == old(eaten - inPos)
      ensures ok ==> ReadBits(ByteBits(stream), old(pos), n) == Some(v) && pos == old(pos) + n
      ensures !ok ==> Starved() && pos == old(pos) && numBits < n
    {
      hide Feeding, ReadBits;
      v := 0;
      ok := Need(n);
      if ok {
        BufferedDrop(stream, eaten, pos, numBits, bitBuf, n);
        v := bitBuf % Pow2(n);
        Drop(n);
      }
    }

    /** `TINFL_SKIP_BITS(num_bits & 7)` */
    method Align()
      requires Valid()
      modifies this`bitBuf, this`numBits, this`pos
      ensures Valid() && pos == AlignUp(old(pos)) && numBits % 8 == 0
    {
      hide Valid;
      WholeBuffer();
      AlignedBy(eaten, pos, numBits);
      Drop(numBits % 8);
    }

    /** A byte of a stored header: from the bit buffer while it holds any. */
    method GetAligned() returns (ok: bool, v: nat)
      requires Valid() && numBits % 8 == 0 && pos + 8 <= 8 * |stream|
      modifies this`inPos, this`bitBuf, this`numBits, this`eaten, this`pos
      ensures Valid() && numBits % 8 == 0 && eaten - inPos == old(eaten - inPos)
      ensures ok ==> ReadBits(ByteBits(stream), old(pos), 8) == Some(v) && pos == old(pos) + 8
      ensures !ok ==> Starved() && pos == old(pos) && numBits == 0
    {
      if numBits > 0 {
        ok := true;
        v := GetBuffered();
      } else {
        ok, v := GetRaw();
      }
    }

    /** A byte the bit buffer is known to hold. */
    method GetBuffered() returns (v: nat)
      requires Valid() && numBits % 8 == 0 && numBits > 0 && pos + 8 <= 8 * |stream|
      modifies this`inPos, this`bitBuf, this`numBits, this`eaten, this`pos
      ensures Valid() && numBits % 8 == 0 && eaten - inPos == old(eaten - inPos)
      ensures ReadBits(ByteBits(stream), old(pos), 8) == Some(v) && pos == old(pos) + 8
    {
      hide Feeding, ReadBits, ByteBits, Buffered, Pow2, Valid;
      ByteLess(numBits);
      WholeBuffer();
      BufferedDrop(stream, eaten, pos, numBits, bitBuf, 8);
      v := bitBuf % Pow2(8);
      Drop(8);
    }

    /** A byte straight from the input when the bit buffer is empty. */
    method GetRaw() returns (ok: bool, v: nat)
      requires Valid() && numBits == 0 && pos + 8 <= 8 * |stream|
      modifies this`inPos, this`eaten, this`pos
      ensures Valid() && eaten - inPos == old(eaten - inPos) && (ok ==> inPos == old(inPos) + 1)
      ensures ok ==> ReadBits(ByteBits(stream), old(pos), 8) == Some(v) && pos == old(pos) + 8 && v < 256
      ensures !ok ==> Starved() && pos == old(pos) && inPos == old(inPos)
    {
      hide Feeding, ByteBits, ReadBits;
      v := 0;
      FeedingEnd();
      if inPos < |input| {
        FeedingStep(stream, eaten, input[inPos..], more);
        assert input[inPos..][1..] == input[inPos + 1..];
        RawByte(stream, eaten, pos);
        RawAfter(stream, eaten, pos, bitBuf);
      }
      var c: byte;
      ok, c := GetByte();
      if ok {
        v := c;
        eaten, pos := eaten + 1, pos + 8;
      }
    }

    /** `k` whole bytes of input at once. */
    method FetchSome(k: nat)
      requires Valid() && k <= |input| - inPos && numBits + 8 * k <= capacity
      modifies this`inPos, this`bitBuf, this`numBits, this`eaten
      ensures Valid() && numBits == old(numBits) + 8 * k && inPos == old(inPos) + k && eaten == old(eaten) + k
    {
      hide Feeding, Buffered;
      for i := 0 to k
        invariant Valid() && numBits == old(numBits) + 8 * i && inPos == old(inPos) + i && eaten == old(eaten) + i
      {
        FeedingStep(stream, eaten, input[inPos..], more);
        assert input[inPos..][1..] == input[inPos + 1..];
        BufferedPush(stream, eaten, pos, numBits, bitBuf);
        bitBuf := bitBuf + input[inPos] * Pow2(numBits);
        numBits := numBits + 8;
        inPos, eaten := inPos + 1, eaten + 1;
      }
    }
  }

  lemma WordSizes()
    ensures Pow2(32) == 0x1_0000_0000 && Pow2(64) == 0x1_0000_0000_0000_0000
  {
    Pow2Table();
    assert Pow2(20) == 0x10_0000;
    assert Pow2(24) == 0x100_0000;
    assert Pow2(28) == 0x1000_0000;
    assert Pow2(32) == 0x1_0000_0000;
    assert Pow2(36) == 0x10_0000_0000;
    assert Pow2(40) == 0x100_0000_0000;
    assert Pow2(44) == 0x1000_0000_0000;
    assert Pow2(48) == 0x1_0000_0000_0000;
    assert Pow2(52) == 0x10_0000_0000_0000;
    assert Pow2(56) == 0x100_0000_0000_0000;
    assert Pow2(60) == 0x1000_0000_0000_0000;
  }

  /** The bit buffer never overflows its 32 or 64 bits. */
  lemma BufferFits(stream: seq<byte>, eaten: nat, pos: nat, n: nat, buf: nat)
    requires Buffered(stream, eaten, pos, n, buf)
    ensures n <= NARROW_BITS ==> buf < 0x1_0000_0000
    ensures n <= WIDE_BITS ==> buf < 0x1_0000_0000_0000_0000
  {
    hide ByteBits, Val, Pow2;
    ValBound(ByteBits(stream)[pos..pos + n]);
    WordSizes();
    if n <= NARROW_BITS { Pow2Mono(n, 32); }
    if n <= WIDE_BITS { Pow2Mono(n, 64); }
  }

  lemma AlignedBy(eaten: nat, pos: nat, n: nat)
    requires 8 * eaten == pos + n
    ensures AlignUp(pos) == pos + n % 8 && n % 8 <= n && (n - n % 8) % 8 == 0
  {
  }

  lemma ByteLess(n: nat)
    requires n % 8 == 0 && n > 0
    ensures n >= 8 && (n - 8) % 8 == 0
  {
  }

  lemma RawByte(stream: seq<byte>, eaten: nat, pos: nat)
    requires eaten < |stream| && pos == 8 * eaten
    ensures ReadBits(ByteBits(stream), pos, 8) == Some(stream[eaten] as nat)
  {
    ByteBitsAt(stream, eaten);
    Pow2Table();
    ValBitsOf(stream[eaten], 8);
  }

  lemma RawAfter(stream: seq<byte>, eaten: nat, pos: nat, buf: nat)
    requires Buffered(stream, eaten, pos, 0, buf) && eaten < |stream|
    ensures Buffered(stream, eaten + 1, pos + 8, 0, buf)
  {
  }
}
