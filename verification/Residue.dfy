/** What a receiver checks: the residue of CRC-32. The proof treats the operations on words as functions with
    a few laws, which keeps the solver from taking words apart into bits. */
module Residue {
  import opened Checksums

  function Half(x: bv32): bv32 { x >> 1 }

  function Added(x: bv32, y: bv32): bv32 { x ^ y }

  /** The `n` low bits of `x`, least significant first, through the register. */
  function Feed(crc: bv32, x: bv32, n: nat): bv32
    decreases n
  {
    if n == 0 then crc else Feed(CrcBit(crc, x), Half(x), n - 1)
  }

  /** What is left of `x` then. */
  function Shifted(x: bv32, n: nat): bv32
    decreases n
  {
    if n == 0 then x else Shifted(Half(x), n - 1)
  }

  lemma ShiftXor(r: bv32, x: bv32)
    ensures (r ^ x) >> 1 == (r >> 1) ^ (x >> 1)
  {
  }

  lemma XorZero(x: bv32)
    ensures x ^ 0 == x
  {
  }

  lemma XorLast(a: bv32, b: bv32, c: bv32)
    ensures (a ^ b) ^ c == (a ^ c) ^ b
  {
  }

  /** A bit can as well be added to the register before a zero goes through. */
  lemma BitInto(r: bv32, x: bv32)
    ensures CrcBit(Added(r, x), 0) == Added(CrcBit(r, x), Half(x))
  {
    ShiftXor(r, x);
    XorZero(r ^ x);
    XorLast(r >> 1, x >> 1, POLY);
  }

  lemma NothingLeft()
    ensures Half(0) == 0
  {
  }

  lemma {:induction false} FeedZeros(r: bv32, x: bv32, n: nat)
    ensures Feed(Added(r, x), 0, n) == Added(Feed(r, x, n), Shifted(x, n))
    decreases n
  {
    hide CrcBit, Added, Half;
    if n > 0 {
      BitInto(r, x);
      NothingLeft();
      FeedZeros(CrcBit(r, x), Half(x), n - 1);
    }
  }

  lemma {:induction false} FeedOn(r: bv32, x: bv32, n: nat, m: nat)
    ensures Feed(r, x, n + m) == Feed(Feed(r, x, n), Shifted(x, n), m)
    ensures Shifted(x, n + m) == Shifted(Shifted(x, n), m)
    decreases n
  {
    hide CrcBit, Half;
    if n > 0 { FeedOn(CrcBit(r, x), Half(x), n - 1, m); }
  }

  lemma SameBit(r: bv32, x: bv32, y: bv32)
    requires x & 1 == y & 1
    ensures CrcBit(r, x) == CrcBit(r, y)
  {
    assert (r ^ x) & 1 == (r & 1) ^ (x & 1) && (r ^ y) & 1 == (r & 1) ^ (y & 1);
  }

  /** The first four bits of a word go through like a nibble that agrees with them. */
  lemma FourFed(r: bv32, x: bv32, b: bv32)
    requires x & 0xF == b & 0xF
    ensures Feed(r, x, 4) == FourBits(r, b)
  {
    NibbleAgrees(x, b);
    hide CrcBit, Half;
    var x1, x2, x3 := Half(x), Half(Half(x)), Half(Half(Half(x)));
    var b1, b2, b3 := b >> 1, b >> 2, b >> 3;
    SameBit(r, x, b);
    var r1 := CrcBit(r, x);
    SameBit(r1, x1, b1);
    var r2 := CrcBit(r1, x1);
    SameBit(r2, x2, b2);
    var r3 := CrcBit(r2, x2);
    SameBit(r3, x3, b3);
    assert Feed(r, x, 4) == Feed(r1, x1, 3) == Feed(r2, x2, 2) == Feed(r3, x3, 1) == Feed(CrcBit(r3, x3), Half(x3), 0);
  }

  lemma NibbleAgrees(x: bv32, b: bv32)
    requires x & 0xF == b & 0xF
    ensures x & 1 == b & 1 && Half(x) & 1 == (b >> 1) & 1
    ensures Half(Half(x)) & 1 == (b >> 2) & 1 && Half(Half(Half(x))) & 1 == (b >> 3) & 1
  {
  }

  function ByteOff(x: bv32): bv32 { x >> 8 }

  lemma ShiftedByte(x: bv32)
    ensures Shifted(x, 4) == x >> 4 && Shifted(x, 8) == ByteOff(x)
  {
    FourHalves(x);
    FourHalves(x >> 4);
    TwoNibbles(x);
    hide Half, ByteOff;
    assert Shifted(x, 4) == Half(Half(Half(Half(x)))) by { Unrolled(x); }
    assert Shifted(x >> 4, 4) == Half(Half(Half(Half(x >> 4)))) by { Unrolled(x >> 4); }
    FeedOn(0, x, 4, 4);
  }

  lemma Unrolled(x: bv32)
    ensures Shifted(x, 4) == Half(Half(Half(Half(x))))
  {
    hide Half;
    var x1, x2, x3 := Half(x), Half(Half(x)), Half(Half(Half(x)));
    assert Shifted(x, 4) == Shifted(x1, 3) == Shifted(x2, 2) == Shifted(x3, 1) == Shifted(Half(x3), 0);
  }

  lemma FourHalves(x: bv32)
    ensures Half(Half(Half(Half(x)))) == x >> 4
  {
  }

  lemma TwoNibbles(x: bv32)
    ensures (x >> 4) >> 4 == ByteOff(x)
  {
  }

  lemma Nibbles(x: bv32, c: bv8)
    requires x & 0xFF == c as bv32
    ensures x & 0xF == Low(c) & 0xF && (x >> 4) & 0xF == High(c) & 0xF
  {
  }

  /** The low byte of a word goes through first. */
  lemma ByteFed(r: bv32, x: bv32, n: nat, c: bv8)
    requires x & 0xFF == c as bv32
    ensures Feed(r, x, 8 + n) == Feed(CrcByte(r, c), ByteOff(x), n)
  {
    Nibbles(x, c);
    hide CrcBit, Half, FourBits, Low, High, ByteOff, Feed, Shifted;
    FeedOn(r, x, 8, n);
    FeedOn(r, x, 4, 4);
    ShiftedByte(x);
    FourFed(r, x, Low(c));
    FourFed(FourBits(r, Low(c)), x >> 4, High(c));
  }

  /** The bytes of a word, least significant first. */
  function LittleEndian(x: bv32): (w: seq<bv8>)
    ensures |w| == 4
  {
    [(x & 0xFF) as bv8, ((x >> 8) & 0xFF) as bv8, ((x >> 16) & 0xFF) as bv8, ((x >> 24) & 0xFF) as bv8]
  }

  lemma WordBytes(x: bv32)
    ensures
      var w, x1 := LittleEndian(x), ByteOff(x);
      && x & 0xFF == w[0] as bv32 && x1 & 0xFF == w[1] as bv32
      && ByteOff(x1) & 0xFF == w[2] as bv32 && ByteOff(ByteOff(x1)) & 0xFF == w[3] as bv32
      && ByteOff(ByteOff(ByteOff(x1))) == 0
  {
    Moved(x);
    LowByte(x);
    LowByte(x >> 8);
    LowByte(x >> 16);
    LowByte(x >> 24);
    var w, x1 := LittleEndian(x), ByteOff(x);
    hide ByteOff;
    assert w[0] == (x & 0xFF) as bv8 && w[1] == ((x >> 8) & 0xFF) as bv8;
    assert w[2] == ((x >> 16) & 0xFF) as bv8 && w[3] == ((x >> 24) & 0xFF) as bv8;
  }

  lemma LowByte(y: bv32)
    ensures ((y & 0xFF) as bv8) as bv32 == y & 0xFF
  {
  }

  lemma Moved(x: bv32)
    ensures ByteOff(x) == x >> 8 && ByteOff(ByteOff(x)) == x >> 16
    ensures ByteOff(ByteOff(ByteOff(x))) == x >> 24 && ByteOff(ByteOff(ByteOff(ByteOff(x)))) == 0
  {
  }

  lemma FourBytes(r: bv32, w: seq<bv8>)
    requires |w| == 4
    ensures CrcBytes(r, w) == CrcByte(CrcByte(CrcByte(CrcByte(r, w[0]), w[1]), w[2]), w[3])
  {
    hide CrcByte;
    assert CrcBytes(r, w[..0]) == r;
    assert CrcBytes(r, w[..1]) == CrcByte(r, w[0]) by { assert w[..1][..0] == w[..0]; }
    assert CrcBytes(r, w[..2]) == CrcByte(CrcBytes(r, w[..1]), w[1]) by { assert w[..2][..1] == w[..1]; }
    assert CrcBytes(r, w[..3]) == CrcByte(CrcBytes(r, w[..2]), w[2]) by { assert w[..3][..2] == w[..2]; }
  }

  /** Four bytes go through like the word they make. */
  lemma WordFed(r: bv32, x: bv32)
    ensures CrcBytes(r, LittleEndian(x)) == Feed(r, x, 32) && Shifted(x, 32) == 0
  {
    WordBytes(x);
    hide CrcByte, Feed, LittleEndian, CrcBytes, ByteOff, Shifted;
    var w := LittleEndian(x);
    FourBytes(r, w);
    var r1, x1 := CrcByte(r, w[0]), ByteOff(x);
    ByteFed(r, x, 24, w[0]);
    var r2, x2 := CrcByte(r1, w[1]), ByteOff(x1);
    ByteFed(r1, x1, 16, w[1]);
    var r3, x3 := CrcByte(r2, w[2]), ByteOff(x2);
    ByteFed(r2, x2, 8, w[2]);
    ByteFed(r3, x3, 0, w[3]);
    AllFed(CrcByte(r3, w[3]), ByteOff(x3));
    AllShifted(x);
  }

  lemma AllFed(r: bv32, x: bv32)
    ensures Feed(r, x, 0) == r
  {
  }

  lemma AllShifted(x: bv32)
    ensures Shifted(x, 32) == ByteOff(ByteOff(ByteOff(ByteOff(x))))
  {
    hide Feed, Shifted, ByteOff;
    FeedOn(0, x, 8, 24);
    ShiftedByte(x);
    var x1 := ByteOff(x);
    FeedOn(0, x1, 8, 16);
    ShiftedByte(x1);
    var x2 := ByteOff(x1);
    FeedOn(0, x2, 8, 8);
    ShiftedByte(x2);
    ShiftedByte(ByteOff(x2));
  }

  /** 32 zero bits through a register full of ones. */
  lemma OnesFed()
    ensures CrcBytes(0xFFFF_FFFF, [0, 0, 0, 0]) == 0xDEBB_20E3
  {
    FourBytes(0xFFFF_FFFF, [0, 0, 0, 0]);
    assert CrcByte(0xFFFF_FFFF, 0) == 0x2DFD_1072;
    assert CrcByte(0x2DFD_1072, 0) == 0xBE26_ED00;
    assert CrcByte(0xBE26_ED00, 0) == 0x00BE_26ED;
    assert CrcByte(0x00BE_26ED, 0) == 0xDEBB_20E3;
  }

  lemma ZeroWord()
    ensures LittleEndian(0) == [0, 0, 0, 0] && Added(0xFFFF_FFFF, 0) == 0xFFFF_FFFF
  {
  }

  lemma Complement(r: bv32)
    ensures Added(r, Inverted(r)) == 0xFFFF_FFFF && Added(Feed(r, Inverted(r), 32), 0) == Feed(r, Inverted(r), 32)
  {
    hide Feed;
    XorZero(Feed(r, Inverted(r), 32));
  }

  /** The residue of CRC-32: data followed by its own checksum has one checksum, whatever the data. */
  lemma OwnChecksum(data: seq<bv8>)
    ensures Crc(0, data + LittleEndian(Crc(0, data))) == 0x2144_DF1C
  {
    hide CrcBytes, LittleEndian, Feed, Shifted, Added;
    var r := CrcBytes(Inverted(0), data);
    var x := Inverted(r);
    hide Inverted;
    CrcBytesAppend(Inverted(0), data, LittleEndian(x));
    InvertedTwice(r);
    WordFed(r, x);
    FeedZeros(r, x, 32);
    Complement(r);
    WordFed(0xFFFF_FFFF, 0);
    ZeroWord();
    OnesFed();
    Last();
  }

  lemma Last()
    ensures Inverted(0xDEBB_20E3) == 0x2144_DF1C
  {
  }
}
