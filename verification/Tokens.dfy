/** LZ77 tokens, what they stand for, and how lengths and distances become symbols plus extra bits
    (sections 3.2.3 and 3.2.5 of RFC 1951). */
module Tokens {
  import opened Bits
  import opened Canonical

  const MIN_MATCH: nat := 3
  const MAX_MATCH: nat := 258
  const DICT_SIZE: nat := 32768

  datatype Token = Lit(b: byte) | Match(len: nat, dist: nat) {
    ghost predicate Ok() {
      Match? ==> MIN_MATCH <= len <= MAX_MATCH && 1 <= dist <= DICT_SIZE
    }

    function Size(): nat { if Lit? then 1 else len }
  }

  ghost predicate AllOk(toks: seq<Token>) {
    forall i :: 0 <= i < |toks| ==> toks[i].Ok()
  }

  /** The byte-by-byte copy: each new byte repeats the one `dist` places back. */
  function Copy(out: seq<byte>, dist: nat, len: nat): (r: seq<byte>)
    requires 1 <= dist <= |out|
    ensures |r| == |out| + len
    decreases len
  {
    if len == 0 then out else Copy(out + [out[|out| - dist]], dist, len - 1)
  }

  function Apply(out: seq<byte>, t: Token): Option<seq<byte>> {
    match t
    case Lit(b) => Some(out + [b])
    case Match(len, dist) => if 1 <= dist <= |out| then Some(Copy(out, dist, len)) else None
  }

  /** The bytes a token sequence stands for after `out`; `None` if a match reaches too far back. */
  function Expand(out: seq<byte>, toks: seq<Token>): Option<seq<byte>> {
    if toks == [] then Some(out)
    else
      var r := Expand(out, toks[..|toks| - 1]);
      if r.None? then None else Apply(r.value, toks[|toks| - 1])
  }

  lemma {:induction false} CopyBehind(pre: seq<byte>, out: seq<byte>, dist: nat, len: nat)
    requires 1 <= dist <= |out|
    ensures Copy(pre + out, dist, len) == pre + Copy(out, dist, len)
    decreases len
  {
    if len > 0 {
      var c := out[|out| - dist];
      assert pre + out + [c] == pre + (out + [c]);
      CopyBehind(pre, out + [c], dist, len - 1);
    }
  }

  /** What tokens stand for does not change when more is put in front. */
  lemma {:induction false} ExpandBehind(pre: seq<byte>, out: seq<byte>, toks: seq<Token>)
    requires Expand(out, toks).Some?
    ensures Expand(pre + out, toks) == Some(pre + Expand(out, toks).value)
  {
    if toks != [] {
      ExpandBehind(pre, out, toks[..|toks| - 1]);
      var r := Expand(out, toks[..|toks| - 1]).value;
      match toks[|toks| - 1]
      case Lit(b) => assert pre + r + [b] == pre + (r + [b]);
      case Match(len, dist) => CopyBehind(pre, r, dist, len);
    }
  }

  function TotalSize(toks: seq<Token>): nat {
    if toks == [] then 0 else TotalSize(toks[..|toks| - 1]) + toks[|toks| - 1].Size()
  }

  /** Copying is determined by its source: `data` continues `out` with a copy exactly when every new
      byte equals the one `dist` places before it, overlap or not. */
  lemma {:induction false} CopyIsMatch(data: seq<byte>, p: nat, dist: nat, len: nat)
    requires 1 <= dist <= p && p + len <= |data|
    requires forall i :: p <= i < p + len ==> data[i] == data[i - dist]
    ensures Copy(data[..p], dist, len) == data[..p + len]
    decreases len
  {
    if len > 0 {
      assert data[p] == data[p - dist];
      assert data[..p] + [data[p]] == data[..p + 1];
      CopyIsMatch(data, p + 1, dist, len - 1);
    }
  }

  lemma ExpandOne(out: seq<byte>, toks: seq<Token>, t: Token)
    requires Expand(out, toks).Some?
    ensures Expand(out, toks + [t]) == Apply(Expand(out, toks).value, t)
  {
    assert (toks + [t])[..|toks|] == toks;
  }

  lemma {:induction false} ExpandSize(out: seq<byte>, toks: seq<Token>)
    requires Expand(out, toks).Some?
    ensures |Expand(out, toks).value| == |out| + TotalSize(toks)
  {
    if toks != [] { ExpandSize(out, toks[..|toks| - 1]); }
  }

  // ---- The compressor's symbol tables, in closed form

  /** `s_tdefl_len_extra[l]`, for match length `l + 3`. */
  function LenExtra(l: nat): (e: nat)
    ensures e <= 5
  {
    if l < 8 || l == 255 then 0
    else if l < 16 then 1
    else if l < 32 then 2
    else if l < 64 then 3
    else if l < 128 then 4
    else 5
  }

  /** `s_tdefl_len_sym[l]`. */
  function LenSym(l: nat): nat {
    if l < 8 then 257 + l
    else if l < 16 then 261 + l / 2
    else if l < 32 then 265 + l / 4
    else if l < 64 then 269 + l / 8
    else if l < 128 then 273 + l / 16
    else if l < 255 then 277 + l / 32
    else 285
  }

  /** `s_tdefl_small_dist_extra[d]` below 512, `s_tdefl_large_dist_extra[d >> 8]` from there on, for
      distance `d + 1`. */
  function DistExtra(d: nat): (e: nat)
    ensures e <= 13
  {
    if d < 4 then 0
    else if d < 8 then 1
    else if d < 16 then 2
    else if d < 32 then 3
    else if d < 64 then 4
    else if d < 128 then 5
    else if d < 256 then 6
    else if d < 512 then 7
    else if d < 1024 then 8
    else if d < 2048 then 9
    else if d < 4096 then 10
    else if d < 8192 then 11
    else if d < 16384 then 12
    else 13
  }

  /** `s_tdefl_small_dist_sym[d]` below 512, `s_tdefl_large_dist_sym[d >> 8]` from there on. */
  function DistSym(d: nat): nat {
    if d < 4 then d
    else if d < 8 then 2 + d / 2
    else if d < 16 then 4 + d / 4
    else if d < 32 then 6 + d / 8
    else if d < 64 then 8 + d / 16
    else if d < 128 then 10 + d / 32
    else if d < 256 then 12 + d / 64
    else if d < 512 then 14 + d / 128
    else if d < 1024 then 16 + d / 256
    else if d < 2048 then 18 + d / 512
    else if d < 4096 then 20 + d / 1024
    else if d < 8192 then 22 + d / 2048
    else if d < 16384 then 24 + d / 4096
    else 26 + d / 8192
  }

  // ---- The decompressor's tables

  const LENGTH_BASE: seq<nat> := [
    3, 4, 5, 6, 7, 8, 9, 10, 11, 13, 15, 17, 19, 23, 27, 31,
    35, 43, 51, 59, 67, 83, 99, 115, 131, 163, 195, 227, 258, 0, 0]
  const LENGTH_EXTRA: seq<nat> := [
    0, 0, 0, 0, 0, 0, 0, 0, 1, 1, 1, 1, 2, 2, 2, 2, 3, 3, 3, 3, 4, 4, 4, 4, 5, 5, 5, 5, 0, 0, 0]
  const DIST_BASE: seq<nat> := [
    1, 2, 3, 4, 5, 7, 9, 13, 17, 25, 33, 49, 65, 97, 129, 193, 257, 385, 513, 769, 1025, 1537,
    2049, 3073, 4097, 6145, 8193, 12289, 16385, 24577, 0, 0]
  const DIST_EXTRA: seq<nat> := [
    0, 0, 0, 0, 1, 1, 2, 2, 3, 3, 4, 4, 5, 5, 6, 6, 7, 7, 8, 8, 9, 9, 10, 10, 11, 11, 12, 12, 13, 13,
    0, 0]

  lemma LengthTable(i: nat)
    requires i < 29
    ensures LENGTH_BASE[i] ==
      if i < 8 then 3 + i
      else if i < 12 then 11 + 2 * (i - 8)
      else if i < 16 then 19 + 4 * (i - 12)
      else if i < 20 then 35 + 8 * (i - 16)
      else if i < 24 then 67 + 16 * (i - 20)
      else if i < 28 then 131 + 32 * (i - 24)
      else 258
    ensures LENGTH_EXTRA[i] == if i < 8 || i == 28 then 0 else i / 4 - 1
  {
  }

  lemma LengthLow(l: nat)
    requires l <= 255
    ensures l % Pow2(LenExtra(l)) ==
      if l < 8 || l == 255 then 0
      else if l < 16 then l % 2
      else if l < 32 then l % 4
      else if l < 64 then l % 8
      else if l < 128 then l % 16
      else l % 32
  {
    Pow2Table();
  }

  /** Length symbol plus extra bits, read through the decompressor's tables, give the length back. */
  lemma LengthRoundTrip(l: nat)
    requires l <= 255
    ensures 257 <= LenSym(l) <= 285 && (LenSym(l) == 285 <==> l == 255)
    ensures LENGTH_EXTRA[LenSym(l) - 257] == LenExtra(l)
    ensures LENGTH_BASE[LenSym(l) - 257] + l % Pow2(LenExtra(l)) == l + MIN_MATCH
  {
    LengthLow(l);
    LengthTable(LenSym(l) - 257);
  }

  function DistBaseForm(i: nat): nat {
    if i < 4 then 1 + i
    else if i < 6 then 5 + 2 * (i - 4)
    else if i < 8 then 9 + 4 * (i - 6)
    else if i < 10 then 17 + 8 * (i - 8)
    else if i < 12 then 33 + 16 * (i - 10)
    else if i < 14 then 65 + 32 * (i - 12)
    else if i < 16 then 129 + 64 * (i - 14)
    else if i < 18 then 257 + 128 * (i - 16)
    else if i < 20 then 513 + 256 * (i - 18)
    else if i < 22 then 1025 + 512 * (i - 20)
    else if i < 24 then 2049 + 1024 * (i - 22)
    else if i < 26 then 4097 + 2048 * (i - 24)
    else if i < 28 then 8193 + 4096 * (i - 26)
    else 16385 + 8192 * (i - 28)
  }

  lemma DistanceTable(i: nat)
    requires i < 30
    ensures DIST_BASE[i] == DistBaseForm(i)
  {
  }

  lemma DistanceExtraTable(i: nat)
    requires i < 30
    ensures DIST_EXTRA[i] == if i < 4 then 0 else i / 2 - 1
  {
  }

  /** The extra bits of distance `d + 1`. */
  function DistRest(d: nat): nat {
    if d < 4 then 0
    else if d < 8 then d % 2
    else if d < 16 then d % 4
    else if d < 32 then d % 8
    else if d < 64 then d % 16
    else if d < 128 then d % 32
    else if d < 256 then d % 64
    else if d < 512 then d % 128
    else if d < 1024 then d % 256
    else if d < 2048 then d % 512
    else if d < 4096 then d % 1024
    else if d < 8192 then d % 2048
    else if d < 16384 then d % 4096
    else d % 8192
  }

  predicate DistanceFits(d: nat) {
    && DistSym(d) <= 29
    && DistExtra(d) == (if DistSym(d) < 4 then 0 else DistSym(d) / 2 - 1)
    && DistBaseForm(DistSym(d)) + DistRest(d) == d + 1
  }

  lemma DistanceFitsLow(d: nat)
    requires d < 64
    ensures DistanceFits(d)
  {
  }

  lemma DistanceFitsMid(d: nat)
    requires 64 <= d < 1024
    ensures DistanceFits(d)
  {
  }

  lemma DistanceFitsHigh(d: nat)
    requires 1024 <= d < DICT_SIZE
    ensures DistanceFits(d)
  {
  }

  lemma DistanceLow(d: nat)
    requires d < DICT_SIZE
    ensures d % Pow2(DistExtra(d)) == DistRest(d)
  {
    Pow2Table();
  }

  /** The same for distances: every distance a 32 KB window allows survives. */
  lemma DistanceRoundTrip(d: nat)
    requires d < DICT_SIZE
    ensures DistSym(d) <= 29
    ensures DIST_EXTRA[DistSym(d)] == DistExtra(d)
    ensures DIST_BASE[DistSym(d)] + d % Pow2(DistExtra(d)) == d + 1
  {
    DistanceLow(d);
    if d < 64 {
      DistanceFitsLow(d);
    } else if d < 1024 {
      DistanceFitsMid(d);
    } else {
      DistanceFitsHigh(d);
    }
    DistanceTable(DistSym(d));
    DistanceExtraTable(DistSym(d));
  }
}
