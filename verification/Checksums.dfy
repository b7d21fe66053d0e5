/** `mz_adler32` with its deferred modulo and `mz_crc32` with its 16-entry table. */
module Checksums {
  import opened Bits
  import opened Canonical

  newtype uint32 = x: int | 0 <= x < 0x1_0000_0000

  // ---- Adler-32, section 9 of RFC 1950

  const BASE: nat := 65521
  const BLOCK: nat := 5552

  /** `s1`: the start value plus the sum of all bytes. */
  function Sum1(a: nat, data: seq<byte>): nat {
    if data == [] then a else Sum1(a, data[..|data| - 1]) + data[|data| - 1]
  }

  /** `s2`: the start value plus the sum of all values `s1` has taken. */
  function Sum2(a: nat, b: nat, data: seq<byte>): nat {
    if data == [] then b else Sum2(a, b, data[..|data| - 1]) + Sum1(a, data)
  }

  /** The checksum after `data`, both sums modulo 65521; with no data at all it is left alone. */
  function Adler(adler: uint32, data: seq<byte>): (r: uint32)
  {
    var a, b := adler as nat % 65536, adler as nat / 65536;
    if data == [] then adler
    else (Sum2(a, b, data) % BASE * 65536 + Sum1(a, data) % BASE) as uint32
  }

  /** How large the second sum can get within `i` bytes of a modulo step. */
  function Worst(i: nat): nat {
    if i == 0 then 65535 else Worst(i - 1) + 65535 + 255 * i
  }

  lemma {:induction false} WorstForm(i: nat)
    ensures 2 * Worst(i) == 131070 * (i + 1) + 255 * (i * (i + 1))
  {
    if i > 0 {
      WorstForm(i - 1);
      assert i * (i + 1) == (i - 1) * i + 2 * i;
    }
  }

  /** 5552 bytes is what 32 bits allow. */
  lemma WorstFits(i: nat)
    requires i <= BLOCK
    ensures 65535 + 255 * i < 0x1_0000_0000 && Worst(i) < 0x1_0000_0000
  {
    WorstForm(i);
    assert i * (i + 1) <= 5552 * 5553 by { MulMono(i, 5552, i + 1, 5553); }
  }

  lemma MulMono(a: nat, b: nat, c: nat, d: nat)
    requires a <= b && c <= d
    ensures a * c <= b * d
  {
    assert b * d == b * c + b * (d - c);
    assert b * c == a * c + (b - a) * c;
  }

  lemma SumStep(a: nat, b: nat, data: seq<byte>, k: nat)
    requires k < |data|
    ensures Sum1(a, data[..k + 1]) == Sum1(a, data[..k]) + data[k]
    ensures Sum2(a, b, data[..k + 1]) == Sum2(a, b, data[..k]) + Sum1(a, data[..k + 1])
  {
    assert data[..k + 1][..k] == data[..k];
  }

  /** Congruence spelled out: the same remainder, that many times the modulus apart. */
  lemma Remainder(x: nat, y: nat, q: int)
    requires x == y + q * BASE
    ensures x % BASE == y % BASE
  {
    var r := y % BASE;
    var k := y / BASE;
    assert y == k * BASE + r;
    assert x == (k + q) * BASE + r;
  }

  lemma ModSum(x: nat, y: nat, c: nat, d: nat)
    requires x % BASE == y % BASE && c % BASE == d % BASE
    ensures (x + c) % BASE == (y + d) % BASE
  {
    var q, k := x / BASE - y / BASE, c / BASE - d / BASE;
    assert x == y + q * BASE;
    assert c == d + k * BASE;
    Remainder(x + c, y + d, q + k);
  }

  /** Within a block: `i` bytes after a modulo step and `k` bytes after the start, nothing has overflowed
      and both sums are right modulo 65521. */
  ghost predicate Running(a: nat, b: nat, data: seq<byte>, k: nat, i: nat, s1: uint32, s2: uint32) {
    && k <= |data| && i <= BLOCK
    && s1 as nat <= 65535 + 255 * i && s2 as nat <= Worst(i)
    && s1 as nat % BASE == Sum1(a, data[..k]) % BASE
    && s2 as nat % BASE == Sum2(a, b, data[..k]) % BASE
  }

  lemma RunningStep(a: nat, b: nat, data: seq<byte>, k: nat, i: nat, s1: uint32, s2: uint32)
    requires Running(a, b, data, k, i, s1, s2) && k < |data| && i < BLOCK
    ensures s1 as nat + data[k] < 0x1_0000_0000 && s2 as nat + (s1 as nat + data[k]) < 0x1_0000_0000
    ensures Running(a, b, data, k + 1, i + 1, s1 + data[k] as uint32, s2 + (s1 + data[k] as uint32))
  {
    hide Sum1, Sum2;
    SumStep(a, b, data, k);
    WorstFits(i + 1);
    ModSum(s1 as nat, Sum1(a, data[..k]), data[k], data[k]);
    ModSum(s2 as nat, Sum2(a, b, data[..k]), s1 as nat + data[k], Sum1(a, data[..k + 1]));
  }

  /** One block without modulo: eight bytes a turn, then the rest. */
  method AddBlock(data: seq<byte>, k0: nat, len: nat, s10: uint32, s20: uint32, ghost a: nat, ghost b: nat)
    returns (s1: uint32, s2: uint32)
    requires len <= BLOCK && k0 + len <= |data| && Running(a, b, data, k0, 0, s10, s20)
    ensures Running(a, b, data, k0 + len, len, s1, s2)
  {
    hide Running;
    s1, s2 := s10, s20;
    var i: nat, k: nat := 0, k0;
    while i + 7 < len
      invariant i <= len && k == k0 + i && Running(a, b, data, k, i, s1, s2)
    {
      for j := 0 to 8
        invariant k == k0 + i + j && Running(a, b, data, k, i + j, s1, s2)
      {
        RunningStep(a, b, data, k, i + j, s1, s2);
        s1 := s1 + data[k] as uint32;
        s2 := s2 + s1;
        k := k + 1;
      }
      i := i + 8;
    }
    while i < len
      invariant i <= len && k == k0 + i && Running(a, b, data, k, i, s1, s2)
    {
      RunningStep(a, b, data, k, i, s1, s2);
      s1 := s1 + data[k] as uint32;
      s2 := s2 + s1;
      k := k + 1;
      i := i + 1;
    }
  }

  lemma Reduced(a: nat, b: nat, data: seq<byte>, k: nat, i: nat, s1: uint32, s2: uint32)
    requires Running(a, b, data, k, i, s1, s2)
    ensures Running(a, b, data, k, 0, s1 % (BASE as uint32), s2 % (BASE as uint32))
    ensures (s1 % (BASE as uint32)) as nat == Sum1(a, data[..k]) % BASE
    ensures (s2 % (BASE as uint32)) as nat == Sum2(a, b, data[..k]) % BASE
  {
    hide Sum1, Sum2;
  }

  /** `mz_adler32`: no addition overflows 32 bits, and the value is that of section 9 of RFC 1950. Without
      a buffer it is the initial value. */
  method Adler32(adler: uint32, ptr: Option<seq<byte>>) returns (r: uint32)
    ensures r == match ptr case None => 1 case Some(data) => Adler(adler, data)
  {
    hide Running, Sum1, Sum2;
    if ptr.None? {
      return 1;
    }
    var data := ptr.value;
    var s1, s2 := adler % 65536, adler / 65536;
    ghost var a, b := s1 as nat, s2 as nat;
    var left: nat, k: nat, blockLen: nat := |data|, 0, |data| % BLOCK;
    RunningStart(a, b, data, s1, s2);
    ghost var first := true;
    assert data[..0] == [];
    while left > 0
      invariant k + left == |data| && Running(a, b, data, k, 0, s1, s2)
      invariant first ==> left == |data| && blockLen == |data| % BLOCK && s1 as nat == a && s2 as nat == b
      invariant !first ==> data != [] && left % BLOCK == 0 && blockLen == BLOCK
      invariant !first ==> s1 as nat == Sum1(a, data[..k]) % BASE && s2 as nat == Sum2(a, b, data[..k]) % BASE
      decreases left, first
    {
      BlockFits(left, blockLen, first);
      s1, s2 := AddBlock(data, k, blockLen, s1, s2, a, b);
      Reduced(a, b, data, k + blockLen, blockLen, s1, s2);
      s1, s2 := s1 % 65521, s2 % 65521;
      left, k := left - blockLen, k + blockLen;
      blockLen := BLOCK;
      first := false;
    }
    assert data[..k] == data;
    Packed(adler, s1, s2);
    r := s2 * 65536 + s1;
  }

  lemma BlockFits(left: nat, len: nat, first: bool)
    requires left > 0 && if first then len == left % BLOCK else len == BLOCK && left % BLOCK == 0
    ensures len <= left && len <= BLOCK && (left - len) % BLOCK == 0
  {
  }

  lemma Packed(adler: uint32, s1: uint32, s2: uint32)
    requires s1 < 65536 && s2 < 65536
    ensures s2 as nat * 65536 + s1 as nat < 0x1_0000_0000
    ensures s1 == adler % 65536 && s2 == adler / 65536 ==> s2 as nat * 65536 + s1 as nat == adler as nat
  {
  }

  // ---- Composition

  lemma {:induction false} Sum1Append(a: nat, x: seq<byte>, y: seq<byte>)
    ensures Sum1(a, x + y) == Sum1(Sum1(a, x), y)
  {
    if y == [] {
      assert x + y == x;
    } else {
      Sum1Append(a, x, y[..|y| - 1]);
      assert (x + y)[..|x + y| - 1] == x + y[..|y| - 1];
    }
  }

  lemma {:induction false} Sum2Append(a: nat, b: nat, x: seq<byte>, y: seq<byte>)
    ensures Sum2(a, b, x + y) == Sum2(Sum1(a, x), Sum2(a, b, x), y)
  {
    if y == [] {
      assert x + y == x;
    } else {
      Sum2Append(a, b, x, y[..|y| - 1]);
      assert (x + y)[..|x + y| - 1] == x + y[..|y| - 1];
      Sum1Append(a, x, y);
    }
  }

  /** The sums depend on their start values modulo 65521 only. */
  lemma {:induction false} SumCongruent(a: nat, b: nat, c: nat, d: nat, data: seq<byte>)
    requires a % BASE == c % BASE && b % BASE == d % BASE
    ensures Sum1(a, data) % BASE == Sum1(c, data) % BASE
    ensures Sum2(a, b, data) % BASE == Sum2(c, d, data) % BASE
  {
    if data != [] {
      var n := |data| - 1;
      SumCongruent(a, b, c, d, data[..n]);
      ModSum(Sum1(a, data[..n]), Sum1(c, data[..n]), data[n], data[n]);
      ModSum(Sum2(a, b, data[..n]), Sum2(c, d, data[..n]), Sum1(a, data), Sum1(c, data));
    }
  }

  lemma Halves(x: nat, y: nat)
    requires y < 65536
    ensures (x * 65536 + y) % 65536 == y && (x * 65536 + y) / 65536 == x
  {
  }

  lemma Twice(x: nat)
    ensures x % BASE % BASE == x % BASE && x % BASE < BASE
  {
  }

  /** A checksum may be continued: the checksum of `x`, taken on over `y`, is that of `x + y`. */
  lemma AdlerComposes(adler: uint32, x: seq<byte>, y: seq<byte>)
    ensures Adler(Adler(adler, x), y) == Adler(adler, x + y)
  {
    hide Sum1, Sum2;
    var a, b := adler as nat % 65536, adler as nat / 65536;
    if x == [] {
      assert x + y == y;
    } else if y == [] {
      assert x + y == x;
    } else {
      var c, d := Sum1(a, x), Sum2(a, b, x);
      Twice(c);
      Twice(d);
      Halves(d % BASE, c % BASE);
      Sum1Append(a, x, y);
      Sum2Append(a, b, x, y);
      SumCongruent(c % BASE, d % BASE, c, d, y);
    }
  }

  lemma RunningStart(a: nat, b: nat, data: seq<byte>, s1: uint32, s2: uint32)
    requires s1 as nat == a < 65536 && s2 as nat == b < 65536
    ensures Running(a, b, data, 0, 0, s1, s2)
  {
  }

  // ---- The closed form

  function Plain(data: seq<byte>): nat { if data == [] then 0 else data[0] + Plain(data[1..]) }

  /** The first of `n` bytes counts `n` times, the last one once. */
  function Weighted(data: seq<byte>): nat { if data == [] then 0 else |data| * data[0] + Weighted(data[1..]) }

  lemma {:induction false} WeightedPush(data: seq<byte>, c: byte)
    ensures Plain(data + [c]) == Plain(data) + c
    ensures Weighted(data + [c]) == Weighted(data) + Plain(data + [c])
  {
    if data == [] {
      assert data + [c] == [c];
    } else {
      WeightedPush(data[1..], c);
      assert (data + [c])[1..] == data[1..] + [c];
      assert |data + [c]| * data[0] == |data| * data[0] + data[0];
    }
  }

  lemma {:induction false} PlainForm(a: nat, data: seq<byte>)
    ensures Sum1(a, data) == a + Plain(data)
  {
    if data != [] {
      var n := |data| - 1;
      PlainForm(a, data[..n]);
      WeightedPush(data[..n], data[n]);
      assert data[..n] + [data[n]] == data;
    }
  }

  lemma {:induction false} WeightedForm(a: nat, b: nat, data: seq<byte>)
    ensures Sum2(a, b, data) == b + |data| * a + Weighted(data)
  {
    hide Sum1, Plain, Weighted;
    if data == [] {
      assert Weighted(data) == 0 by { NothingWeighted(); }
    } else {
      var n := |data| - 1;
      WeightedForm(a, b, data[..n]);
      WeightedPush(data[..n], data[n]);
      assert data[..n] + [data[n]] == data;
      PlainForm(a, data);
      assert |data| * a == n * a + a;
    }
  }

  lemma NothingWeighted()
    ensures Weighted([]) == 0
  {
  }

  /** Section 9 of RFC 1950: both halves of the checksum, from the bytes. */
  lemma AdlerForm(adler: uint32, data: seq<byte>)
    ensures
      var a, b, r := adler as nat % 65536, adler as nat / 65536, Adler(adler, data) as nat;
      if data == [] then r == adler as nat
      else
        && r % 65536 == (a + Plain(data)) % 65521
        && r / 65536 == (b + |data| * a + Weighted(data)) % 65521
  {
    var a, b := adler as nat % 65536, adler as nat / 65536;
    PlainForm(a, data);
    WeightedForm(a, b, data);
    var hi, lo := Sum2(a, b, data) % BASE, Sum1(a, data) % BASE;
    assert (hi * 65536 + lo) % 65536 == lo && (hi * 65536 + lo) / 65536 == hi;
  }

  // ---- CRC-32

  const POLY: bv32 := 0xEDB88320

  /** One message bit through the reflected shift register of CRC-32. */
  function CrcBit(crc: bv32, bit: bv32): bv32 {
    if (crc ^ bit) & 1 == 1 then (crc >> 1) ^ POLY else crc >> 1
  }

  /** The four low bits of `b`, least significant first. */
  function FourBits(crc: bv32, b: bv32): bv32 {
    CrcBit(CrcBit(CrcBit(CrcBit(crc, b), b >> 1), b >> 2), b >> 3)
  }

  function Low(c: bv8): bv32 { c as bv32 }

  function High(c: bv8): bv32 { (c as bv32) >> 4 }

  function CrcByte(crc: bv32, c: bv8): bv32 { FourBits(FourBits(crc, Low(c)), High(c)) }

  function CrcBytes(crc: bv32, data: seq<bv8>): bv32 {
    if data == [] then crc else CrcByte(CrcBytes(crc, data[..|data| - 1]), data[|data| - 1])
  }

  function Inverted(x: bv32): bv32 { !x }

  /** The CRC of `data` taken on from `crc`, with the register inverted before and after. */
  function Crc(crc: bv32, data: seq<bv8>): bv32 { Inverted(CrcBytes(Inverted(crc), data)) }

  /** `s_crc32` */
  function CrcTable(n: bv32): bv32 {
    if n == 0 then 0 else if n == 1 then 0x1db71064 else if n == 2 then 0x3b6e20c8 else if n == 3 then 0x26d930ac
    else if n == 4 then 0x76dc4190 else if n == 5 then 0x6b6b51f4 else if n == 6 then 0x4db26158
    else if n == 7 then 0x5005713c else if n == 8 then 0xedb88320 else if n == 9 then 0xf00f9344
    else if n == 10 then 0xd6d6a3e8 else if n == 11 then 0xcb61b38c else if n == 12 then 0x9b64c2b0
    else if n == 13 then 0x86d3d2d4 else if n == 14 then 0xa00ae278 else 0xbdbdf21c
  }

  function TableStep(crc: bv32, n: bv32): bv32 { (crc >> 4) ^ CrcTable((crc & 0xF) ^ n) }

  function Mask(n: bv32): bv32 { n & 0xF }

  /** One table step takes four bits at once. */
  lemma NibbleStep(crc: bv32, b: bv32)
    ensures TableStep(crc, Mask(b)) == FourBits(crc, b)
  {
  }

  lemma HighMask(c: bv8)
    ensures Mask(High(c)) == High(c)
  {
  }

  /** Two table steps take a byte. */
  lemma ByteStep(crc: bv32, c: bv8)
    ensures CrcByte(crc, c) == TableStep(TableStep(crc, Mask(Low(c))), High(c))
  {
    hide TableStep, FourBits, Mask, High, Low;
    NibbleStep(crc, Low(c));
    NibbleStep(FourBits(crc, Low(c)), High(c));
    HighMask(c);
  }

  /** `mz_crc32`: two table steps a byte compute the bit-serial CRC. */
  method Crc32(crc: bv32, ptr: Option<seq<bv8>>) returns (r: bv32)
    ensures r == match ptr case None => 0 case Some(data) => Crc(crc, data)
  {
    hide TableStep, CrcByte, Mask, High, Low, Inverted;
    if ptr.None? {
      return 0;
    }
    var data := ptr.value;
    var c := Inverted(crc);
    for k := 0 to |data|
      invariant c == CrcBytes(Inverted(crc), data[..k])
    {
      ByteStep(c, data[k]);
      c := TableStep(c, Mask(Low(data[k])));
      c := TableStep(c, High(data[k]));
      assert data[..k + 1][..k] == data[..k];
    }
    assert data[..|data|] == data;
    r := Inverted(c);
  }

  lemma {:induction false} CrcBytesAppend(crc: bv32, x: seq<bv8>, y: seq<bv8>)
    ensures CrcBytes(crc, x + y) == CrcBytes(CrcBytes(crc, x), y)
  {
    hide CrcByte;
    if y == [] {
      assert x + y == x;
    } else {
      CrcBytesAppend(crc, x, y[..|y| - 1]);
      assert (x + y)[..|x + y| - 1] == x + y[..|y| - 1];
    }
  }

  lemma InvertedTwice(x: bv32)
    ensures Inverted(Inverted(x)) == x
  {
  }

  lemma CrcComposes(crc: bv32, x: seq<bv8>, y: seq<bv8>)
    ensures Crc(Crc(crc, x), y) == Crc(crc, x + y)
  {
    hide Inverted;
    CrcBytesAppend(Inverted(crc), x, y);
    InvertedTwice(CrcBytes(Inverted(crc), x));
  }
}
