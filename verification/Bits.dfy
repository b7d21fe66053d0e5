/** Bit strings: the common ground of the compressor and the decompressor.
    A bit string lists bits in transmission order. Numbers are packed least significant bit
    first (`Val`, `BitsOf`); Huffman codes are read most significant bit first (`Msb`). */
module Bits {
  type byte = x: int | 0 <= x < 256
  type bits = seq<bool>

  function Pow2(n: nat): (p: nat)
    ensures p >= 1
  {
    if n == 0 then 1 else 2 * Pow2(n - 1)
  }

  function BitVal(b: bool): nat { if b then 1 else 0 }

  /** The number whose bits, least significant first, are `s`. */
  function Val(s: bits): nat {
    if s == [] then 0 else BitVal(s[0]) + 2 * Val(s[1..])
  }

  /** The `n` low bits of `v`, least significant first. */
  function BitsOf(v: nat, n: nat): (s: bits)
    ensures |s| == n
  {
    if n == 0 then [] else [v % 2 == 1] + BitsOf(v / 2, n - 1)
  }

  /** The number whose bits, most significant first, are `s`. */
  function Msb(s: bits): nat {
    if s == [] then 0 else 2 * Msb(s[..|s| - 1]) + BitVal(s[|s| - 1])
  }

  /** The `n` low bits of `v`, most significant first. */
  function MsbBits(v: nat, n: nat): (s: bits)
    ensures |s| == n
  {
    if n == 0 then [] else MsbBits(v / 2, n - 1) + [v % 2 == 1]
  }

  /** A byte string as the bit string it carries. */
  function ByteBits(s: seq<byte>): (r: bits)
    ensures |r| == 8 * |s|
  {
    if s == [] then [] else ByteBits(s[..|s| - 1]) + BitsOf(s[|s| - 1], 8)
  }

  lemma Pow2Table()
    ensures Pow2(0) == 1 && Pow2(1) == 2 && Pow2(2) == 4 && Pow2(3) == 8 && Pow2(4) == 16
    ensures Pow2(5) == 32 && Pow2(6) == 64 && Pow2(7) == 128 && Pow2(8) == 256 && Pow2(9) == 512
    ensures Pow2(10) == 1024 && Pow2(11) == 2048 && Pow2(12) == 4096 && Pow2(13) == 8192
    ensures Pow2(14) == 16384 && Pow2(15) == 32768 && Pow2(16) == 65536
  {
    assert Pow2(4) == 16;
    assert Pow2(8) == 256;
    assert Pow2(12) == 4096;
  }

  lemma {:induction false} Pow2Add(a: nat, b: nat)
    ensures Pow2(a + b) == Pow2(a) * Pow2(b)
  {
    if a > 0 {
      Pow2Add(a - 1, b);
      assert Pow2(a + b) == 2 * (Pow2(a - 1) * Pow2(b)) == (2 * Pow2(a - 1)) * Pow2(b);
    }
  }

  lemma {:induction false} Pow2Mono(a: nat, b: nat)
    requires a <= b
    ensures Pow2(a) <= Pow2(b)
    decreases b
  {
    if a < b { Pow2Mono(a, b - 1); }
  }

  lemma {:induction false} ValBound(s: bits)
    ensures Val(s) < Pow2(|s|)
  {
    if s != [] { ValBound(s[1..]); }
  }

  lemma {:induction false} ValAppend(a: bits, b: bits)
    ensures Val(a + b) == Val(a) + Pow2(|a|) * Val(b)
  {
    if a == [] {
      assert a + b == b;
    } else {
      ValAppend(a[1..], b);
      assert (a + b)[1..] == a[1..] + b;
      assert 2 * (Pow2(|a| - 1) * Val(b)) == (2 * Pow2(|a| - 1)) * Val(b);
    }
  }

  lemma {:induction false} BitsOfVal(s: bits)
    ensures BitsOf(Val(s), |s|) == s
  {
    if s != [] {
      var t := s[1..];
      BitsOfVal(t);
      assert Val(s) / 2 == Val(t);
      assert s == [s[0]] + t;
    }
  }

  lemma {:induction false} ValBitsOf(v: nat, n: nat)
    requires v < Pow2(n)
    ensures Val(BitsOf(v, n)) == v
  {
    if n > 0 {
      ValBitsOf(v / 2, n - 1);
      assert BitsOf(v, n)[1..] == BitsOf(v / 2, n - 1);
    }
  }

  /** A number splits into its low `m` bits `r` and the bits above them, `q`. */
  lemma {:induction false} BitsOfSplit(v: nat, m: nat, n: nat, q: nat, r: nat)
    requires v == Pow2(m) * q + r && r < Pow2(m)
    ensures BitsOf(v, m + n) == BitsOf(r, m) + BitsOf(q, n)
    decreases m
  {
    if m > 0 {
      HalfSplit(v, Pow2(m - 1), q, r);
      BitsOfSplit(v / 2, m - 1, n, q, r / 2);
      assert BitsOf(v, m + n) == [v % 2 == 1] + (BitsOf(r / 2, m - 1) + BitsOf(q, n));
    }
  }

  lemma HalfSplit(v: nat, p: nat, q: nat, r: nat)
    requires v == 2 * p * q + r && r < 2 * p
    ensures v / 2 == p * q + r / 2 && r / 2 < p && v % 2 == r % 2
  {
    assert 2 * p * q == 2 * (p * q);
  }

  lemma ValInjective(a: bits, b: bits)
    requires |a| == |b| && Val(a) == Val(b)
    ensures a == b
  {
    BitsOfVal(a);
    BitsOfVal(b);
  }

  lemma MulAtLeast(p: nat, d: int)
    requires d >= 1
    ensures p * d >= p
  {
    assert p * d == p * (d - 1) + p;
  }

  lemma QuotientUnique(p: nat, q: int, r: int, q': int, r': int)
    requires p * q + r == p * q' + r'
    requires 0 <= r < p && 0 <= r' < p
    ensures q == q' && r == r'
  {
    assert p * (q - q') == r' - r;
    assert p * (q' - q) == r - r';
    if q > q' { MulAtLeast(p, q - q'); }
    if q < q' { MulAtLeast(p, q' - q); }
  }

  /** A number `x + p * y` with `x < p` splits into its low part `x` and its high part `y`. */
  lemma DivModUnique(x: nat, p: nat, y: nat)
    requires x < p
    ensures (x + p * y) % p == x
    ensures (x + p * y) / p == y
  {
    var n := x + p * y;
    QuotientUnique(p, n / p, n % p, y, x);
  }

  /** Masking and shifting a bit buffer: the low `k` bits and the rest. */
  lemma ValSplit(s: bits, k: nat)
    requires k <= |s|
    ensures Val(s) % Pow2(k) == Val(s[..k])
    ensures Val(s) / Pow2(k) == Val(s[k..])
  {
    assert s == s[..k] + s[k..];
    ValAppend(s[..k], s[k..]);
    ValBound(s[..k]);
    DivModUnique(Val(s[..k]), Pow2(k), Val(s[k..]));
  }

  lemma {:induction false} MsbBound(s: bits)
    ensures Msb(s) < Pow2(|s|)
  {
    if s != [] { MsbBound(s[..|s| - 1]); }
  }

  lemma {:induction false} MsbBitsOfMsb(s: bits)
    ensures MsbBits(Msb(s), |s|) == s
  {
    if s != [] {
      var t := s[..|s| - 1];
      MsbBitsOfMsb(t);
      assert Msb(s) / 2 == Msb(t);
      assert s == t + [s[|s| - 1]];
    }
  }

  lemma {:induction false} MsbOfMsbBits(v: nat, n: nat)
    requires v < Pow2(n)
    ensures Msb(MsbBits(v, n)) == v
  {
    if n > 0 {
      MsbOfMsbBits(v / 2, n - 1);
      assert MsbBits(v, n)[..n - 1] == MsbBits(v / 2, n - 1);
    }
  }

  lemma ByteBitsPush(s: seq<byte>, c: byte)
    ensures ByteBits(s + [c]) == ByteBits(s) + BitsOf(c, 8)
  {
    hide BitsOf;
    assert (s + [c])[..|s|] == s;
  }

  lemma {:induction false} ByteBitsAppend(a: seq<byte>, b: seq<byte>)
    ensures ByteBits(a + b) == ByteBits(a) + ByteBits(b)
  {
    hide BitsOf;
    if b == [] {
      assert a + b == a;
    } else {
      var c, last := b[..|b| - 1], b[|b| - 1];
      ByteBitsAppend(a, c);
      assert a + b == (a + c) + [last];
      ByteBitsPush(a + c, last);
      assert (ByteBits(a) + ByteBits(c)) + BitsOf(last, 8) == ByteBits(a) + (ByteBits(c) + BitsOf(last, 8));
    }
  }

  lemma ByteBitsFirst(s: seq<byte>)
    requires s != []
    ensures ByteBits(s) == BitsOf(s[0], 8) + ByteBits(s[1..])
  {
    hide BitsOf;
    ByteBitsPush([], s[0]);
    assert [] + [s[0]] == [s[0]];
    ByteBitsAppend([s[0]], s[1..]);
    assert [s[0]] + s[1..] == s;
  }

  /** Byte `i` of a byte string occupies bits `8 * i` to `8 * i + 7`. */
  lemma {:induction false} ByteBitsAt(s: seq<byte>, i: nat)
    requires i < |s|
    ensures ByteBits(s)[8 * i..8 * i + 8] == BitsOf(s[i], 8)
  {
    hide BitsOf;
    var n := |s| - 1;
    if i < n {
      ByteBitsAt(s[..n], i);
      var t := ByteBits(s[..n]);
      assert ByteBits(s) == t + BitsOf(s[n], 8);
      assert (t + BitsOf(s[n], 8))[8 * i..8 * i + 8] == t[8 * i..8 * i + 8];
    }
  }

  /** `f >> k` */
  function ShiftDown(f: nat, k: nat): (r: nat)
    ensures r <= f
    decreases k
  {
    if k == 0 then f else ShiftDown(f / 2, k - 1)
  }

  /** Bit `k` of `f`. */
  function BitOf(f: nat, k: nat): nat { ShiftDown(f, k) % 2 }

  lemma {:induction false} ShiftDownVal(w: bits, k: nat)
    requires k <= |w|
    ensures ShiftDown(Val(w), k) == Val(w[k..])
    decreases k
  {
    if k > 0 {
      assert Val(w) / 2 == Val(w[1..]);
      ShiftDownVal(w[1..], k - 1);
      assert w[1..][k - 1..] == w[k..];
    }
  }

  lemma BitOfVal(w: bits, k: nat)
    requires k < |w|
    ensures BitOf(Val(w), k) == BitVal(w[k])
  {
    hide Val;
    ShiftDownVal(w, k);
    ValParity(w[k..]);
  }

  lemma ValParity(w: bits)
    requires w != []
    ensures Val(w) % 2 == BitVal(w[0])
  {
  }
}
