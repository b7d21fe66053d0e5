/** Canonical Huffman codes, section 3.2.2 of RFC 1951: the code a list of lengths stands for.
    Nothing here follows either half of the program; both halves are proved against it. */
module Canonical {
  import opened Bits

  datatype Option<+T> = None | Some(value: T)

  const MAX_BITS: nat := 15

  /** The number of symbols whose code has length `l`. */
  function Count(lens: seq<nat>, l: nat): (c: nat)
    ensures c <= |lens|
  {
    if lens == [] then 0
    else Count(lens[..|lens| - 1], l) + if lens[|lens| - 1] == l then 1 else 0
  }

  /** The number of symbols whose code has one of the lengths 1 to `l`. */
  function Used(lens: seq<nat>, l: nat): nat {
    if l == 0 then 0 else Used(lens, l - 1) + Count(lens, l)
  }

  /** The code of the first symbol of length `l`. */
  function FirstCode(lens: seq<nat>, l: nat): nat {
    if l <= 1 then 0 else 2 * (FirstCode(lens, l - 1) + Count(lens, l - 1))
  }

  function Code(lens: seq<nat>, s: nat): nat
    requires s < |lens|
  {
    FirstCode(lens, lens[s]) + Count(lens[..s], lens[s])
  }

  /** The code of symbol `s` as it is transmitted: most significant bit first. */
  function CodeBits(lens: seq<nat>, s: nat): (w: bits)
    requires s < |lens|
    ensures |w| == lens[s]
  {
    MsbBits(Code(lens, s), lens[s])
  }

  /** Of the `Pow2(l)` words of length `l`, how many start with no code of length `l` or less. */
  function Free(lens: seq<nat>, l: nat): int {
    if l == 0 then 1 else 2 * Free(lens, l - 1) - Count(lens, l)
  }

  ghost predicate Limited(lens: seq<nat>, limit: nat) {
    forall s :: 0 <= s < |lens| ==> lens[s] <= limit
  }

  ghost predicate NotOver(lens: seq<nat>) {
    forall l :: 0 <= l <= MAX_BITS ==> Free(lens, l) >= 0
  }

  ghost predicate Complete(lens: seq<nat>) {
    Free(lens, MAX_BITS) == 0
  }

  /** The codes the format allows: complete ones, and codes with at most one symbol. */
  ghost predicate Usable(lens: seq<nat>) {
    Limited(lens, MAX_BITS) && (Complete(lens) || Used(lens, MAX_BITS) <= 1)
  }

  /** The code of symbol `s` stands at position `pos` of `w`. */
  ghost predicate CodeAt(lens: seq<nat>, s: nat, w: bits, pos: nat) {
    && s < |lens|
    && lens[s] > 0
    && pos + lens[s] <= |w|
    && w[pos..pos + lens[s]] == CodeBits(lens, s)
  }

  /** The symbol whose code stands at position `pos` of `w`, if there is one. */
  ghost function DecodeSym(lens: seq<nat>, w: bits, pos: nat): (r: Option<nat>)
    ensures r.Some? ==> CodeAt(lens, r.value, w, pos)
    ensures r.None? ==> forall s :: !CodeAt(lens, s, w, pos)
  {
    if exists s :: CodeAt(lens, s, w, pos) then
      var s :| CodeAt(lens, s, w, pos);
      Some(s)
    else None
  }

  // ---- Counting

  lemma {:induction false} CountSplit(a: seq<nat>, b: seq<nat>, l: nat)
    ensures Count(a + b, l) == Count(a, l) + Count(b, l)
  {
    if b == [] {
      assert a + b == a;
    } else {
      CountSplit(a, b[..|b| - 1], l);
      assert (a + b)[..|a + b| - 1] == a + b[..|b| - 1];
    }
  }

  lemma CountPrefix(lens: seq<nat>, k: nat, l: nat)
    requires k <= |lens|
    ensures Count(lens[..k], l) <= Count(lens, l)
  {
    assert lens == lens[..k] + lens[k..];
    CountSplit(lens[..k], lens[k..], l);
  }

  /** Symbols of one length are ranked strictly by their index. */
  lemma RankStrict(lens: seq<nat>, s: nat, t: nat)
    requires s < t <= |lens|
    ensures Count(lens[..s], lens[s]) + 1 <= Count(lens[..t], lens[s])
  {
    assert lens[..s + 1][..s] == lens[..s];
    assert lens[..t][..s + 1] == lens[..s + 1];
    CountPrefix(lens[..t], s + 1, lens[s]);
  }

  lemma {:induction false} CountUpdate(lens: seq<nat>, s: nat, v: nat, l: nat)
    requires s < |lens|
    ensures Count(lens[s := v], l)
         == Count(lens, l) - (if lens[s] == l then 1 else 0) + (if v == l then 1 else 0)
  {
    var n := |lens| - 1;
    if s == n {
      assert lens[s := v][..n] == lens[..n];
    } else {
      CountUpdate(lens[..n], s, v, l);
      assert lens[s := v][..n] == lens[..n][s := v];
    }
  }

  lemma {:induction false} CountAbsent(lens: seq<nat>, l: nat)
    requires forall s :: 0 <= s < |lens| ==> lens[s] != l
    ensures Count(lens, l) == 0
  {
    if lens != [] { CountAbsent(lens[..|lens| - 1], l); }
  }

  lemma {:induction false} CountConst(c: nat, n: nat, l: nat)
    ensures Count(seq(n, i => c), l) == if l == c then n else 0
  {
    if n > 0 {
      CountConst(c, n - 1, l);
      assert seq(n, i => c)[..n - 1] == seq(n - 1, i => c);
    }
  }

  // ---- Free words and Kraft sums

  lemma {:induction false} FirstCodeFree(lens: seq<nat>, l: nat)
    requires l >= 1
    ensures FirstCode(lens, l) == Pow2(l) - 2 * Free(lens, l - 1)
    ensures FirstCode(lens, l) + Count(lens, l) == Pow2(l) - Free(lens, l)
  {
    if l == 1 {
      assert Free(lens, 0) == 1 && Pow2(0) == 1;
      assert Pow2(1) == 2;
    } else {
      FirstCodeFree(lens, l - 1);
    }
  }

  lemma CodesStart(lens: seq<nat>)
    ensures Used(lens, 0) == 0 && FirstCode(lens, 1) == 0
  {
  }

  lemma CodesStep(lens: seq<nat>, l: nat)
    requires l >= 1
    ensures Used(lens, l) == Used(lens, l - 1) + Count(lens, l)
    ensures FirstCode(lens, l + 1) == 2 * (FirstCode(lens, l) + Count(lens, l))
  {
  }

  lemma NothingCounted()
    ensures forall l :: Count([], l) == 0
  {
  }

  /** The Kraft sum over lengths up to `l`, scaled by `Pow2(l)`. */
  function KraftSum(lens: seq<nat>, l: nat, i: nat): nat
    requires i <= l
  {
    if i == 0 then 0 else KraftSum(lens, l, i - 1) + Count(lens, i) * Pow2(l - i)
  }

  lemma {:induction false} KraftSumStep(lens: seq<nat>, l: nat, i: nat)
    requires i <= l
    ensures KraftSum(lens, l + 1, i) == 2 * KraftSum(lens, l, i)
  {
    if i > 0 {
      KraftSumStep(lens, l, i - 1);
      assert Pow2(l + 1 - i) == 2 * Pow2(l - i);
      assert Count(lens, i) * (2 * Pow2(l - i)) == 2 * (Count(lens, i) * Pow2(l - i));
    }
  }

  lemma {:induction false} FreeIsKraftGap(lens: seq<nat>, l: nat)
    ensures KraftSum(lens, l, l) == Pow2(l) - Free(lens, l)
  {
    if l > 0 {
      FreeIsKraftGap(lens, l - 1);
      KraftSumStep(lens, l - 1, l - 1);
      assert Pow2(l - l) == 1;
    }
  }

  /** The decompressor's test on its running total, and the Kraft equality it stands for. */
  lemma TotalIsKraft(lens: seq<nat>)
    ensures FirstCode(lens, 16) == 65536 <==> Complete(lens)
    ensures Complete(lens) <==> KraftSum(lens, 15, 15) == Pow2(15)
  {
    FirstCodeFree(lens, 16);
    FreeIsKraftGap(lens, 15);
    Pow2Table();
  }

  lemma {:induction false} FreeAfterLast(lens: seq<nat>, l: nat, m: nat)
    requires l <= m && Free(lens, l) == 0
    requires forall i :: l < i <= m ==> Count(lens, i) == 0
    ensures Free(lens, m) == 0
    decreases m
  {
    if l < m { FreeAfterLast(lens, l, m - 1); }
  }

  lemma {:induction false} FreeCongruent(a: seq<nat>, b: seq<nat>, l: nat)
    requires forall i :: 1 <= i <= l ==> Count(a, i) == Count(b, i)
    ensures Free(a, l) == Free(b, l)
  {
    if l > 0 { FreeCongruent(a, b, l - 1); }
  }

  lemma {:induction false} FreeBackward(lens: seq<nat>, l: nat, m: nat)
    requires l <= m && Free(lens, m) >= 0
    ensures Free(lens, l) >= 0
    decreases m
  {
    if l < m { FreeBackward(lens, l, m - 1); }
  }

  lemma {:induction false} SparseFree(lens: seq<nat>, l: nat)
    requires Used(lens, l) <= 1
    ensures Free(lens, l) >= 1
    ensures Used(lens, l) == 0 && l > 0 ==> Free(lens, l) >= 2
  {
    if l > 0 { SparseFree(lens, l - 1); }
  }

  lemma {:induction false} UsedNone(l: nat)
    ensures Used([], l) == 0
  {
    if l > 0 { UsedNone(l - 1); }
  }

  lemma {:induction false} UsedPush(lens: seq<nat>, x: nat, l: nat)
    ensures Used(lens + [x], l) == Used(lens, l) + if 1 <= x <= l then 1 else 0
  {
    assert (lens + [x])[..|lens|] == lens;
    if l > 0 { UsedPush(lens, x, l - 1); }
  }

  lemma {:induction false} UsedBound(lens: seq<nat>, l: nat)
    ensures Used(lens, l) <= |lens|
  {
    if lens == [] {
      UsedNone(l);
    } else {
      var n := |lens| - 1;
      UsedBound(lens[..n], l);
      UsedPush(lens[..n], lens[n], l);
      assert lens == lens[..n] + [lens[n]];
    }
  }

  lemma {:induction false} UsedAll(lens: seq<nat>, l: nat)
    requires forall i :: 0 <= i < |lens| ==> 1 <= lens[i] <= l
    ensures Used(lens, l) == |lens|
  {
    if lens == [] {
      UsedNone(l);
    } else {
      var n := |lens| - 1;
      UsedAll(lens[..n], l);
      UsedPush(lens[..n], lens[n], l);
      assert lens == lens[..n] + [lens[n]];
    }
  }

  lemma {:induction false} UsedAbove(lens: seq<nat>, l: nat)
    requires forall i :: 0 <= i < |lens| ==> lens[i] > l
    ensures Used(lens, l) == 0
  {
    if l > 0 {
      UsedAbove(lens, l - 1);
      CountAbsent(lens, l);
    }
  }

  lemma {:induction false} UsedMono(lens: seq<nat>, l: nat, m: nat)
    requires l <= m
    ensures Used(lens, l) <= Used(lens, m)
    decreases m
  {
    if l < m { UsedMono(lens, l, m - 1); }
  }

  lemma UsableNotOver(lens: seq<nat>)
    requires Usable(lens)
    ensures NotOver(lens)
  {
    forall l | 0 <= l <= MAX_BITS ensures Free(lens, l) >= 0 {
      if Complete(lens) {
        FreeBackward(lens, l, MAX_BITS);
      } else {
        UsedMono(lens, l, MAX_BITS);
        SparseFree(lens, l);
      }
    }
  }

  // ---- Codes fit their lengths and are prefix-free

  lemma CodeFits(lens: seq<nat>, s: nat)
    requires NotOver(lens) && s < |lens| && 1 <= lens[s] <= MAX_BITS
    ensures FirstCode(lens, lens[s]) <= Code(lens, s) < FirstCode(lens, lens[s]) + Count(lens, lens[s])
    ensures Code(lens, s) < Pow2(lens[s])
    ensures Msb(CodeBits(lens, s)) == Code(lens, s)
  {
    RankStrict(lens, s, |lens|);
    assert lens[..|lens|] == lens;
    FirstCodeFree(lens, lens[s]);
    MsbOfMsbBits(Code(lens, s), lens[s]);
  }

  /** A word that is not below the codes of its own length has, at every shorter length, a prefix
      that lies above all codes of that length. */
  lemma {:induction false} PrefixAbove(lens: seq<nat>, w: bits, d: nat)
    requires Msb(w) >= FirstCode(lens, |w|)
    requires 1 <= d < |w|
    ensures Msb(w[..d]) >= FirstCode(lens, d) + Count(lens, d)
  {
    var l := |w|;
    var v := w[..l - 1];
    assert Msb(v) >= FirstCode(lens, l - 1) + Count(lens, l - 1);
    if d < l - 1 {
      PrefixAbove(lens, v, d);
      assert v[..d] == w[..d];
    }
  }

  /** Distinct symbols: neither code is a prefix of the other. */
  lemma PrefixFree(lens: seq<nat>, s: nat, t: nat)
    requires NotOver(lens) && Limited(lens, MAX_BITS)
    requires s < |lens| && t < |lens| && s != t && 1 <= lens[s] <= lens[t]
    ensures CodeBits(lens, t)[..lens[s]] != CodeBits(lens, s)
  {
    CodeFits(lens, s);
    CodeFits(lens, t);
    if lens[s] == lens[t] {
      RankStrict(lens, if s < t then s else t, if s < t then t else s);
      assert CodeBits(lens, t)[..lens[s]] == CodeBits(lens, t);
    } else {
      PrefixAbove(lens, CodeBits(lens, t), lens[s]);
    }
  }

  lemma CodeAtUnique(lens: seq<nat>, s: nat, t: nat, w: bits, pos: nat)
    requires NotOver(lens) && Limited(lens, MAX_BITS)
    requires CodeAt(lens, s, w, pos) && CodeAt(lens, t, w, pos)
    ensures s == t
  {
    if s != t {
      if lens[s] <= lens[t] {
        assert w[pos..pos + lens[t]][..lens[s]] == w[pos..pos + lens[s]];
        PrefixFree(lens, s, t);
      } else {
        assert w[pos..pos + lens[s]][..lens[t]] == w[pos..pos + lens[t]];
        PrefixFree(lens, t, s);
      }
    }
  }

  /** Decoding is the inverse of encoding: where the code of `s` stands, `s` is decoded. */
  lemma DecodeSymUnique(lens: seq<nat>, s: nat, w: bits, pos: nat)
    requires Usable(lens) && CodeAt(lens, s, w, pos)
    ensures DecodeSym(lens, w, pos) == Some(s)
  {
    UsableNotOver(lens);
    CodeAtUnique(lens, s, DecodeSym(lens, w, pos).value, w, pos);
  }

  /** A code longer than `d` continues one of the `Free(lens, d)` highest words of length `d`. */
  lemma LongCodePrefix(lens: seq<nat>, s: nat, d: nat)
    requires NotOver(lens) && s < |lens| && 1 <= d < lens[s] <= MAX_BITS
    ensures Msb(CodeBits(lens, s)[..d]) >= Pow2(d) - Free(lens, d)
  {
    CodeFits(lens, s);
    PrefixAbove(lens, CodeBits(lens, s), d);
    FirstCodeFree(lens, d);
  }

  // ---- Reversing a code

  lemma ReverseStep(c: nat, l: nat, rev: nat)
    requires l > 0
    ensures Val(MsbBits(c, l)) + Pow2(l) * rev == Val(MsbBits(c / 2, l - 1)) + Pow2(l - 1) * (2 * rev + c % 2)
  {
    var p, b := Pow2(l - 1), c % 2;
    ValAppend(MsbBits(c / 2, l - 1), [b == 1]);
    assert Val([b == 1]) == b by { assert [b == 1][1..] == []; }
    calc {
      p * (2 * rev + b);
      p * (2 * rev) + p * b;
      (2 * p) * rev + p * b;
    }
  }

  /** Both halves of the program turn a code around bit by bit, so that its first transmitted bit
      becomes the least significant one. */
  method ReverseCode(code: nat, size: nat) returns (rev: nat)
    ensures rev == Val(MsbBits(code, size))
  {
    rev := 0;
    var c: nat, l: nat := code, size;
    while l > 0
      invariant l <= size
      invariant Val(MsbBits(c, l)) + Pow2(l) * rev == Val(MsbBits(code, size))
    {
      ReverseStep(c, l, rev);
      rev := 2 * rev + c % 2;
      c := c / 2;
      l := l - 1;
    }
  }
}
