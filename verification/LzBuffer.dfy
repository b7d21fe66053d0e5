/** The compressor's token buffer: literals and matches packed as bytes, with one flag byte in front
    of every eight (`tdefl_record_literal`, `tdefl_record_match`, and the reader in
    `tdefl_compress_lz_codes`). */
module LzBuffer {
  import opened Bits
  import opened Canonical
  import opened Tokens
  import opened BitWriter

  function PackedSize(t: Token): nat { if t.Lit? then 1 else 3 }

  function PackedSum(toks: seq<Token>): nat {
    if toks == [] then 0 else PackedSum(toks[..|toks| - 1]) + PackedSize(toks[|toks| - 1])
  }

  /** Where token `i` starts. Before it lie the tokens so far and `i / 8 + 1` flag bytes. */
  function Offset(toks: seq<Token>, i: nat): nat
    requires i <= |toks|
  {
    PackedSum(toks[..i]) + i / 8 + 1
  }

  /** Where the flag byte of token `i` is. */
  function FlagAt(toks: seq<Token>, i: nat): nat
    requires i <= |toks|
  {
    Offset(toks, i / 8 * 8) - 1
  }

  /** Where the buffer ends once a trailing empty flag byte is dropped. */
  function SealedEnd(toks: seq<Token>): nat { PackedSum(toks) + (|toks| + 7) / 8 }

  function MatchBit(t: Token): nat { if t.Match? then 1 else 0 }

  ghost predicate PayloadAt(s: seq<byte>, p: nat, t: Token) {
    && p + PackedSize(t) <= |s|
    && match t
       case Lit(b) => s[p] == b
       case Match(len, dist) =>
         len >= MIN_MATCH && dist >= 1 && s[p] == len - MIN_MATCH
         && s[p + 1] == (dist - 1) % 256 && s[p + 2] == (dist - 1) / 256
  }

  /** How far the flag of token `i` still has to be shifted down, when there are `n` tokens. */
  function Shift(i: nat, n: nat): nat
    requires i < n
  {
    if i / 8 < n / 8 then i % 8 else 8 - n % 8 + i % 8
  }

  ghost predicate Payloads(s: seq<byte>, toks: seq<Token>) {
    forall i :: 0 <= i < |toks| ==> PayloadAt(s, Offset(toks, i), toks[i])
  }

  ghost predicate Flags(s: seq<byte>, toks: seq<Token>) {
    forall i :: 0 <= i < |toks| ==>
      FlagAt(toks, i) < |s| && BitOf(s[FlagAt(toks, i)], Shift(i, |toks|)) == MatchBit(toks[i])
  }

  /** After the last shift every flag has reached its place. */
  ghost predicate Sealed(s: seq<byte>, toks: seq<Token>) {
    && SealedEnd(toks) <= |s| && AllOk(toks) && Payloads(s, toks)
    && forall i :: 0 <= i < |toks| ==>
         FlagAt(toks, i) < |s| && BitOf(s[FlagAt(toks, i)], i % 8) == MatchBit(toks[i])
  }

  // ---- Positions

  lemma OffsetStep(toks: seq<Token>, i: nat)
    requires i < |toks|
    ensures Offset(toks, i + 1) == Offset(toks, i) + PackedSize(toks[i]) + if (i + 1) % 8 == 0 then 1 else 0
  {
    assert toks[..i + 1][..i] == toks[..i];
  }

  lemma {:induction false} OffsetMono(toks: seq<Token>, i: nat, j: nat)
    requires i < j <= |toks|
    ensures Offset(toks, i) + PackedSize(toks[i]) <= Offset(toks, j)
    ensures j % 8 == 0 ==> Offset(toks, i) + PackedSize(toks[i]) < Offset(toks, j)
    decreases j
  {
    OffsetStep(toks, j - 1);
    if i < j - 1 { OffsetMono(toks, i, j - 1); }
  }

  /** A flag byte lies below its own tokens and above all earlier ones. */
  lemma FlagApart(toks: seq<Token>, i: nat, k: nat)
    requires i <= |toks| && k < |toks|
    ensures k < i / 8 * 8 ==> Offset(toks, k) + PackedSize(toks[k]) <= FlagAt(toks, i)
    ensures k >= i / 8 * 8 ==> FlagAt(toks, i) < Offset(toks, k)
  {
    var g := i / 8 * 8;
    if k < g {
      OffsetMono(toks, k, g);
    } else if k > g {
      OffsetMono(toks, g, k);
    }
  }

  lemma OffsetAppend(toks: seq<Token>, t: Token, i: nat)
    requires i <= |toks|
    ensures Offset(toks + [t], i) == Offset(toks, i) && FlagAt(toks + [t], i) == FlagAt(toks, i)
  {
    assert (toks + [t])[..i] == toks[..i];
    assert (toks + [t])[..i / 8 * 8] == toks[..i / 8 * 8];
  }

  // ---- Flag bits

  /** Shifting a flag byte right and setting its top bit. */
  function PushFlag(f: byte, m: nat): byte
    requires m <= 1
  {
    f / 2 + 128 * m
  }

  lemma PushFlagVal(f: byte, m: nat)
    requires m <= 1
    ensures PushFlag(f, m) == Val(BitsOf(f, 8)[1..] + [m == 1])
  {
    Pow2Table();
    ValBitsOf(f, 8);
    var w := BitsOf(f, 8);
    ValAppend(w[1..], [m == 1]);
    assert Val([m == 1]) == m by { assert [m == 1][1..] == []; }
    assert Val(w) / 2 == Val(w[1..]);
  }

  lemma FlagShift(f: byte, m: nat, s: nat)
    requires m <= 1 && 1 <= s <= 8
    ensures BitOf(PushFlag(f, m), s - 1) == if s < 8 then BitOf(f, s) else m
  {
    hide BitsOf, Val, BitOf;
    var w := BitsOf(f, 8);
    Pow2Table();
    ValBitsOf(f, 8);
    PushFlagVal(f, m);
    BitOfVal(w[1..] + [m == 1], s - 1);
    if s < 8 {
      BitOfVal(w, s);
    }
  }

  lemma {:induction false} FlagSeal(f: nat, s: nat, r: nat)
    ensures BitOf(ShiftDown(f, s), r) == BitOf(f, s + r)
    decreases s
  {
    if s > 0 { FlagSeal(f / 2, s - 1, r); }
  }

  lemma {:induction false} ShiftStep(f: nat, k: nat)
    ensures ShiftDown(f, k) / 2 == ShiftDown(f, k + 1)
    decreases k
  {
    if k > 0 { ShiftStep(f / 2, k - 1); }
  }

  /** The reader's flag word: a 1 above the flag byte marks where it ends. */
  lemma FlagWord(f: byte, r: nat)
    requires r <= 8
    ensures r < 8 ==> ShiftDown(256 + f, r) > 1 && BitOf(256 + f, r) == BitOf(f, r)
    ensures r == 8 ==> ShiftDown(256 + f, r) == 1
  {
    hide BitsOf;
    var w := BitsOf(f, 8);
    Pow2Table();
    ValBitsOf(f, 8);
    ValAppend(w, [true]);
    assert Val([true]) == 1 by { assert [true][1..] == []; }
    var u := w + [true];
    ShiftDownVal(u, r);
    if r < 8 {
      BitOfVal(w, r);
      BitOfVal(u, r);
      assert u[r..] == w[r..] + [true];
      ValAppend(w[r..], [true]);
      Pow2Mono(1, 8 - r);
    } else {
      assert u[8..] == [true];
    }
  }

  // ---- Recording one token

  ghost predicate Recorded(s: seq<byte>, r: seq<byte>, toks: seq<Token>, t: Token) {
    var n := |toks|;
    var at := Offset(toks, n);
    && |r| == |s| && PayloadAt(r, at, t) && FlagAt(toks, n) < |s|
    && r[FlagAt(toks, n)] == PushFlag(s[FlagAt(toks, n)], MatchBit(t))
    && forall p :: 0 <= p < |s| && p != FlagAt(toks, n) && !(at <= p < at + PackedSize(t)) ==> r[p] == s[p]
  }

  lemma RecordedPayloads(s: seq<byte>, r: seq<byte>, toks: seq<Token>, t: Token)
    requires FlagAt(toks, |toks|) < |s| && Recorded(s, r, toks, t) && Payloads(s, toks)
    ensures Payloads(r, toks + [t])
  {
    var n := |toks|;
    forall i | 0 <= i < n + 1 ensures PayloadAt(r, Offset(toks + [t], i), (toks + [t])[i]) {
      OffsetAppend(toks, t, i);
      if i < n {
        assert PayloadAt(s, Offset(toks, i), toks[i]);
        OffsetMono(toks, i, n);
        FlagApart(toks, n, i);
      }
    }
  }

  lemma FlagOrder(toks: seq<Token>, i: nat)
    requires i < |toks|
    ensures FlagAt(toks, i) <= FlagAt(toks, |toks|) < Offset(toks, |toks|)
    ensures FlagAt(toks, i) == FlagAt(toks, |toks|) <==> i / 8 == |toks| / 8
  {
    var g, h := i / 8 * 8, |toks| / 8 * 8;
    if g < h { OffsetMono(toks, g, h); }
    if h < |toks| { OffsetMono(toks, h, |toks|); }
  }

  lemma RecordedFlags(s: seq<byte>, r: seq<byte>, toks: seq<Token>, t: Token)
    requires FlagAt(toks, |toks|) < |s| && Recorded(s, r, toks, t) && Flags(s, toks)
    ensures Flags(r, toks + [t])
  {
    hide ShiftDown, BitOf, PackedSum;
    var n := |toks|;
    var f := s[FlagAt(toks, n)];
    forall i | 0 <= i < n + 1
      ensures FlagAt(toks + [t], i) < |r|
      ensures BitOf(r[FlagAt(toks + [t], i)], Shift(i, n + 1)) == MatchBit((toks + [t])[i])
    {
      OffsetAppend(toks, t, i);
      if i == n {
        FlagShift(f, MatchBit(t), 8);
      } else {
        FlagOrder(toks, i);
        if i / 8 == n / 8 {
          FlagShift(f, MatchBit(t), Shift(i, n));
        }
      }
    }
  }

  lemma SealedFlag(s: seq<byte>, toks: seq<Token>, i: nat)
    requires i < |toks| && FlagAt(toks, |toks|) < |s| && Flags(s, toks)
    ensures
      var f := FlagAt(toks, |toks|);
      var r := s[f := ShiftDown(s[f], 8 - |toks| % 8)];
      FlagAt(toks, i) < |r| && BitOf(r[FlagAt(toks, i)], i % 8) == MatchBit(toks[i])
  {
    hide ShiftDown, BitOf, Offset, FlagAt;
    var n := |toks|;
    FlagOrder(toks, i);
    assert BitOf(s[FlagAt(toks, i)], Shift(i, n)) == MatchBit(toks[i]);
    if i / 8 == n / 8 {
      FlagSeal(s[FlagAt(toks, n)], 8 - n % 8, i % 8);
    }
  }

  lemma SealedFlags(s: seq<byte>, r: seq<byte>, toks: seq<Token>)
    requires FlagAt(toks, |toks|) < |s| && Flags(s, toks) && Payloads(s, toks) && AllOk(toks)
    requires r == s[FlagAt(toks, |toks|) := ShiftDown(s[FlagAt(toks, |toks|)], 8 - |toks| % 8)]
    requires SealedEnd(toks) <= |s|
    ensures Sealed(r, toks)
  {
    hide ShiftDown, BitOf, PackedSum, Offset, FlagAt, Flags;
    var n := |toks|;
    forall i | 0 <= i < n ensures PayloadAt(r, Offset(toks, i), toks[i]) {
      assert PayloadAt(s, Offset(toks, i), toks[i]);
      FlagApart(toks, n, i);
    }
    forall i | 0 <= i < n
      ensures FlagAt(toks, i) < |r| && BitOf(r[FlagAt(toks, i)], i % 8) == MatchBit(toks[i])
    {
      SealedFlag(s, toks, i);
    }
  }

  /** The buffer never takes less than 9 bits for a literal or 25 for a match. */
  function PackedBits(toks: seq<Token>): nat { 8 * PackedSum(toks) + |toks| }

  ghost predicate Layout(s: seq<byte>, toks: seq<Token>, pos: nat, flagPos: nat, flagsLeft: nat) {
    && |s| == LZ_CODE_BUF_SIZE && AllOk(toks)
    && pos == Offset(toks, |toks|) <= |s|
    && flagPos == FlagAt(toks, |toks|) && 1 <= flagsLeft && flagsLeft == 8 - |toks| % 8
    && Payloads(s, toks) && Flags(s, toks)
  }

  lemma LayoutStarts(s: seq<byte>)
    requires |s| == LZ_CODE_BUF_SIZE
    ensures Layout(s, [], 1, 0, 8)
  {
  }

  lemma LayoutIndices(s: seq<byte>, toks: seq<Token>, pos: nat, flagPos: nat, flagsLeft: nat)
    requires Layout(s, toks, pos, flagPos, flagsLeft)
    ensures flagPos < pos <= |s| == LZ_CODE_BUF_SIZE && 1 <= flagsLeft <= 8
  {
    OffsetMonoSelf(toks);
  }

  lemma OffsetMonoSelf(toks: seq<Token>)
    ensures FlagAt(toks, |toks|) < Offset(toks, |toks|)
  {
    var g := |toks| / 8 * 8;
    if g < |toks| { OffsetMono(toks, g, |toks|); }
  }

  /** The buffer after recording `t` at `pos` with its flag shifted in at `flagPos`. */
  function Pushed(s: seq<byte>, t: Token, pos: nat, flagPos: nat): seq<byte>
    requires t.Match? ==> MIN_MATCH <= t.len <= MAX_MATCH && 1 <= t.dist <= DICT_SIZE
    requires pos + PackedSize(t) <= |s| && flagPos < |s|
  {
    var r := match t
      case Lit(b) => s[pos := b]
      case Match(len, dist) =>
        s[pos := len - MIN_MATCH][pos + 1 := (dist - 1) % 256][pos + 2 := (dist - 1) / 256];
    r[flagPos := PushFlag(r[flagPos], MatchBit(t))]
  }

  lemma PushedRecorded(s: seq<byte>, toks: seq<Token>, t: Token)
    requires t.Ok() && Offset(toks, |toks|) + PackedSize(t) < |s|
    ensures FlagAt(toks, |toks|) < Offset(toks, |toks|)
    ensures Recorded(s, Pushed(s, t, Offset(toks, |toks|), FlagAt(toks, |toks|)), toks, t)
    ensures |Pushed(s, t, Offset(toks, |toks|), FlagAt(toks, |toks|))| == |s|
  {
    OffsetMonoSelf(toks);
    hide Offset, FlagAt;
  }

  lemma LayoutPush(s: seq<byte>, toks: seq<Token>, pos: nat, flagPos: nat, flagsLeft: nat, t: Token)
    requires Layout(s, toks, pos, flagPos, flagsLeft) && t.Ok() && pos + PackedSize(t) < |s| && flagPos < pos
    ensures
      var r, p := Pushed(s, t, pos, flagPos), pos + PackedSize(t);
      if flagsLeft == 1 then Layout(r, toks + [t], p + 1, p, 8)
      else Layout(r, toks + [t], p, flagPos, flagsLeft - 1)
  {
    hide Payloads, Flags, Recorded, Pushed, PackedSum, PackedSize;
    var r, n := Pushed(s, t, pos, flagPos), |toks|;
    PushedRecorded(s, toks, t);
    RecordedPayloads(s, r, toks, t);
    RecordedFlags(s, r, toks, t);
    PositionsAfter(toks, t);
  }

  lemma PositionsAfter(toks: seq<Token>, t: Token)
    ensures
      var n, p := |toks|, Offset(toks, |toks|) + PackedSize(t);
      if n % 8 == 7 then Offset(toks + [t], n + 1) == p + 1 && FlagAt(toks + [t], n + 1) == p
      else Offset(toks + [t], n + 1) == p && FlagAt(toks + [t], n + 1) == FlagAt(toks, n)
  {
    hide PackedSum, Offset;
    var n, g := |toks|, |toks| / 8 * 8;
    OffsetStep(toks + [t], n);
    OffsetAppend(toks, t, n);
    OffsetAppend(toks, t, g);
    if n % 8 == 7 {
      assert (n + 1) / 8 * 8 == n + 1;
    } else {
      assert (n + 1) / 8 * 8 == g;
    }
  }

  lemma LayoutSeal(s: seq<byte>, toks: seq<Token>, pos: nat, flagPos: nat, flagsLeft: nat)
    requires Layout(s, toks, pos, flagPos, flagsLeft) && flagPos < |s|
    ensures Sealed(s[flagPos := ShiftDown(s[flagPos], flagsLeft)], toks)
    ensures SealedEnd(toks) == pos - if flagsLeft == 8 then 1 else 0
  {
    hide Payloads, Flags;
    assert toks[..|toks|] == toks;
    SealedFlags(s, s[flagPos := ShiftDown(s[flagPos], flagsLeft)], toks);
  }

  /** A token takes at least a byte. */
  lemma {:induction false} PackedAtLeast(toks: seq<Token>)
    ensures PackedSum(toks) >= |toks|
  {
    if toks != [] { PackedAtLeast(toks[..|toks| - 1]); }
  }

  lemma LayoutBound(s: seq<byte>, toks: seq<Token>, pos: nat, flagPos: nat, flagsLeft: nat)
    requires Layout(s, toks, pos, flagPos, flagsLeft)
    ensures |toks| < 65535 && |s| == LZ_CODE_BUF_SIZE && AllOk(toks)
  {
    PackedAtLeast(toks);
    assert toks[..|toks|] == toks;
  }

  class Codes {
    const buf: array<byte>
    var pos: nat
    var flagPos: nat
    var flagsLeft: nat
    ghost var toks: seq<Token>

    ghost predicate Valid()
      reads this, buf
    {
      Layout(buf[..], toks, pos, flagPos, flagsLeft)
    }

    constructor ()
      ensures Valid() && fresh(buf) && toks == [] && pos == 1
    {
      buf := new byte[LZ_CODE_BUF_SIZE];
      pos, flagPos, flagsLeft, toks := 1, 0, 8, [];
      new;
      LayoutStarts(buf[..]);
    }

    /** What every block starts with. */
    method Reset()
      requires buf.Length == LZ_CODE_BUF_SIZE
      modifies this
      ensures Valid() && toks == [] && pos == 1
    {
      pos, flagPos, flagsLeft, toks := 1, 0, 8, [];
      LayoutStarts(buf[..]);
    }

    /** `tdefl_record_literal` */
    method RecordLiteral(lit: byte)
      requires Valid() && pos + 2 <= buf.Length
      modifies this, buf
      ensures Valid() && toks == old(toks) + [Lit(lit)] && pos <= old(pos) + 2
    {
      hide Layout;
      ghost var s := buf[..];
      LayoutIndices(s, toks, pos, flagPos, flagsLeft);
      LayoutPush(s, toks, pos, flagPos, flagsLeft, Lit(lit));
      ghost var r := Pushed(s, Lit(lit), pos, flagPos);
      buf[pos] := lit;
      assert buf[..] == s[pos := lit];
      pos := pos + 1;
      buf[flagPos] := PushFlag(buf[flagPos], 0);
      assert buf[..] == r;
      flagsLeft := flagsLeft - 1;
      if flagsLeft == 0 {
        flagsLeft, flagPos, pos := 8, pos, pos + 1;
      }
      toks := toks + [Lit(lit)];
    }

    /** `tdefl_record_match` */
    method RecordMatch(len: nat, dist: nat)
      requires Valid() && pos + 4 <= buf.Length && Match(len, dist).Ok()
      modifies this, buf
      ensures Valid() && toks == old(toks) + [Match(len, dist)] && pos <= old(pos) + 4
    {
      hide Layout;
      ghost var s := buf[..];
      LayoutIndices(s, toks, pos, flagPos, flagsLeft);
      LayoutPush(s, toks, pos, flagPos, flagsLeft, Match(len, dist));
      ghost var r := Pushed(s, Match(len, dist), pos, flagPos);
      buf[pos] := len - MIN_MATCH;
      buf[pos + 1] := (dist - 1) % 256;
      buf[pos + 2] := (dist - 1) / 256;
      pos := pos + 3;
      buf[flagPos] := PushFlag(buf[flagPos], 1);
      assert buf[..] == r;
      flagsLeft := flagsLeft - 1;
      if flagsLeft == 0 {
        flagsLeft, flagPos, pos := 8, pos, pos + 1;
      }
      toks := toks + [Match(len, dist)];
    }

    /** The final shift of a block, and the dropping of an empty flag byte. */
    method Seal()
      requires Valid()
      modifies this`pos, buf
      ensures Sealed(buf[..], toks) && pos == SealedEnd(toks)
    {
      hide Layout, Sealed, SealedEnd;
      ghost var s := buf[..];
      LayoutIndices(s, toks, pos, flagPos, flagsLeft);
      LayoutSeal(s, toks, pos, flagPos, flagsLeft);
      buf[flagPos] := ShiftDown(buf[flagPos], flagsLeft);
      assert buf[..] == s[flagPos := ShiftDown(s[flagPos], flagsLeft)];
      if flagsLeft == 8 {
        pos := pos - 1;
      }
    }
  }
}
