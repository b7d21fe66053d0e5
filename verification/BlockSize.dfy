/** How long a dynamic block can get. Its codes are nearly optimal for the tokens, hence hardly longer than
    any fixed code; so the block always fits the output buffer. */
module BlockSize {
  import opened Bits
  import opened Canonical
  import opened Tokens
  import opened InflateSpec
  import opened Encoding
  import opened Sums
  import opened Huffman
  import opened MinRedundancy
  import opened HuffTable
  import opened LzBuffer
  import opened Tally

  // ---- The length of a token sequence is its cost

  function LengthAt(l: seq<nat>, s: nat): nat { if s < |l| then l[s] else 0 }

  /** The code lengths of a token, without its extra bits. */
  function TokCost(lit: seq<nat>, dist: seq<nat>, t: Token): nat
    requires t.Ok()
  {
    LengthAt(lit, LitSym(t)) + if t.Match? then LengthAt(dist, DistSym(t.dist - 1)) else 0
  }

  function ToksCost(lit: seq<nat>, dist: seq<nat>, toks: seq<Token>): nat
    requires AllOk(toks)
  {
    if toks == [] then 0 else ToksCost(lit, dist, toks[..|toks| - 1]) + TokCost(lit, dist, toks[|toks| - 1])
  }

  function Extra(t: Token): (e: nat)
    requires t.Ok()
    ensures e <= 18
  {
    match t
    case Lit(_) => 0
    case Match(len, d) => LenExtra(len - MIN_MATCH) + DistExtra(d - 1)
  }

  function Extras(toks: seq<Token>): nat
    requires AllOk(toks)
  {
    if toks == [] then 0 else Extras(toks[..|toks| - 1]) + Extra(toks[|toks| - 1])
  }

  lemma TokLength(lit: seq<nat>, dist: seq<nat>, t: Token)
    requires Coded(lit, dist, t)
    ensures |TokBits(lit, dist, t)| == TokCost(lit, dist, t) + Extra(t)
  {
    hide LenSym, DistSym, LenExtra, DistExtra, CodeBits, BitsOf, Pow2;
  }

  lemma {:induction false} ToksLength(lit: seq<nat>, dist: seq<nat>, toks: seq<Token>)
    requires AllOk(toks) && AllCoded(lit, dist, toks)
    ensures |ToksBits(lit, dist, toks)| == ToksCost(lit, dist, toks) + Extras(toks)
  {
    hide Coded, TokBits, TokCost, Extra;
    if toks != [] {
      ToksLength(lit, dist, toks[..|toks| - 1]);
      TokLength(lit, dist, toks[|toks| - 1]);
    }
  }

  lemma {:induction false} CostWeight(w: seq<nat>, l: seq<nat>, k: nat, v: nat)
    requires |w| == |l| && k < |l|
    ensures Cost(w[k := v], l) == Cost(w, l) - w[k] * l[k] + v * l[k]
  {
    if k > 0 {
      CostWeight(w[1..], l[1..], k - 1, v);
      assert w[k := v][1..] == w[1..][k - 1 := v];
    } else {
      assert w[0 := v][1..] == w[1..];
    }
  }

  /** One occurrence less. */
  lemma CostDrop(w: seq<nat>, l: seq<nat>, k: nat)
    requires |w| == |l| && k < |l| && w[k] > 0
    ensures Cost(w, l) == Cost(w[k := w[k] - 1], l) + l[k]
  {
    CostWeight(w, l, k, w[k] - 1);
    assert (w[k] - 1) * l[k] == w[k] * l[k] - l[k];
  }

  lemma {:induction false} CostZeros(w: seq<nat>, l: seq<nat>)
    requires |w| == |l| && forall i :: 0 <= i < |w| ==> w[i] == 0
    ensures Cost(w, l) == 0
  {
    if w != [] { CostZeros(w[1..], l[1..]); }
  }

  /** Summed over the symbols or over the tokens, the cost is the same. */
  lemma {:induction false} TallyCost(c0: seq<nat>, c1: seq<nat>, toks: seq<Token>, lit: seq<nat>, dist: seq<nat>)
    requires Tallied(c0, c1, toks) && |c1| == |dist| == 32 && |lit| == 288
    ensures Cost(c0, lit) + Cost(c1, dist) == ToksCost(lit, dist, toks)
    decreases |toks|
  {
    if toks == [] {
      CostZeros(c0, lit);
      CostZeros(c1, dist);
    } else {
      var n := |toks| - 1;
      var t, init := toks[n], toks[..n];
      TallyPop(c0, c1, toks);
      hide LitSym, DistSym, Cost, Tallied;
      var s := LitSym(t);
      CostDrop(c0, lit, s);
      if t.Match? {
        var d := DistSym(t.dist - 1);
        CostDrop(c1, dist, d);
        TallyCost(c0[s := c0[s] - 1], c1[d := c1[d] - 1], init, lit, dist);
      } else {
        TallyCost(c0[s := c0[s] - 1], c1, init, lit, dist);
      }
    }
  }

  // ---- A code for comparison

  /** Nine bits for a literal, six for a length, five for a distance: a code for every symbol. */
  function PlainLit(): seq<nat> { seq(256, i => 9) + seq(32, i => 6) }

  function PlainDist(): seq<nat> { seq(32, i => 5) }

  lemma PlainCounts(l: nat)
    ensures Count(PlainLit(), l) == if l == 9 then 256 else if l == 6 then 32 else 0
    ensures Count(PlainDist(), l) == if l == 5 then 32 else 0
  {
    CountSplit(seq(256, i => 9), seq(32, i => 6), l);
    CountConst(9, 256, l);
    CountConst(6, 32, l);
    CountConst(5, 32, l);
  }

  lemma PlainFree(lit: seq<nat>, dist: seq<nat>)
    requires forall l: nat :: Count(lit, l) == if l == 9 then 256 else if l == 6 then 32 else 0
    requires forall l: nat :: Count(dist, l) == if l == 5 then 32 else 0
    ensures Free(lit, 9) == 0 && Free(dist, 5) == 0
  {
    assert Free(lit, 1) == 2 && Free(dist, 1) == 2;
    assert Free(lit, 3) == 8 && Free(dist, 3) == 8;
    assert Free(lit, 5) == 32;
    assert Free(lit, 7) == 64;
  }

  lemma PlainCodable()
    ensures |PlainLit()| == 288 && |PlainDist()| == 32 && Codable(PlainLit()) && Codable(PlainDist())
    ensures PlainLit()[256] == 6
  {
    forall l: nat
      ensures Count(PlainLit(), l) == if l == 9 then 256 else if l == 6 then 32 else 0
      ensures Count(PlainDist(), l) == if l == 5 then 32 else 0
    {
      PlainCounts(l);
    }
    PlainFree(PlainLit(), PlainDist());
    assert Limited(PlainLit(), 9) && Limited(PlainDist(), 5);
  }

  lemma PlainToken(t: Token)
    requires t.Ok()
    ensures TokCost(PlainLit(), PlainDist(), t) + Extra(t) <= if t.Lit? then 9 else 29
  {
    SymBounds(t);
    hide DistSym;
    if t.Match? {
      LengthRoundTrip(t.len - MIN_MATCH);
      hide LenSym;
    }
  }

  /** Per 25 bits of token buffer at least one bit is left over. */
  lemma {:induction false} PlainRatio(toks: seq<Token>)
    requires AllOk(toks)
    ensures 8800 * (ToksCost(PlainLit(), PlainDist(), toks) + Extras(toks)) + 25 * 640 * |toks|
         <= 352 * 31 * PackedBits(toks)
  {
    hide PlainLit, PlainDist, TokCost, Extra;
    if toks != [] {
      PlainRatio(toks[..|toks| - 1]);
      PlainToken(toks[|toks| - 1]);
    }
  }

  // ---- Dynamic blocks fit

  /** The codes of a dynamic block, compared with the plain code. */
  /** The comparison on numbers: `x` and `y` for the codes in use, `px` and `py` for the plain code. */
  lemma RatioSum(x: nat, px: nat, y: nat, py: nat, n: nat, m: nat, e: nat, end: nat, packed: nat)
    requires 352 * x <= 352 * px + 576 * (n + 1) && 352 * y <= 352 * py + 64 * m && m <= n
    requires 8800 * (px - 6 + py + e) + 16000 * n <= 10912 * packed && px >= 6 && end <= x
    ensures 25 * (x - end + y + e + end) <= 31 * packed + 200
  {
  }

  lemma DynamicRatio(lit: seq<nat>, dist: seq<nat>, c0: seq<nat>, c: seq<nat>, c1: seq<nat>, toks: seq<Token>)
    requires Tallied(c0, c1, toks) && |c0| == |lit| == 288 && |c1| == |dist| == 32 && AllOk(toks)
    requires c0[256] == 0 && c == c0[256 := 1]
    requires NearOptimal(lit, c) && NearOptimal(dist, c1)
    ensures 25 * (ToksCost(lit, dist, toks) + Extras(toks) + lit[256]) <= 31 * PackedBits(toks) + 200
  {
    var pl, pd := PlainLit(), PlainDist();
    PlainCodable();
    hide PlainLit, PlainDist, Codable, Cost, Sum, NearOptimal, ToksCost, Extras, PackedBits, Tallied;
    NearPlain(lit, c, pl);
    NearPlain(dist, c1, pd);
    TallyCost(c0, c1, toks, lit, dist);
    TallyCost(c0, c1, toks, pl, pd);
    CostDrop(c, lit, 256);
    CostDrop(c, pl, 256);
    assert c[256 := 0] == c0;
    TalliedSum(c0, c1, toks);
    SumChange(c0, 256, 1);
    PlainRatio(toks);
    RatioSum(Cost(c, lit), Cost(c, pl), Cost(c1, dist), Cost(c1, pd), |toks|, Sum(c1), Extras(toks),
             lit[256], PackedBits(toks));
  }

  lemma NearPlain(lens: seq<nat>, count: seq<nat>, ref: seq<nat>)
    requires NearOptimal(lens, count) && |ref| == |count| && Codable(ref)
    ensures |lens| == |count| && 352 * Cost(count, lens) <= 352 * Cost(count, ref) + 2 * |count| * Sum(count)
  {
    hide Codable, Cost, Sum;
  }

  lemma {:induction false} UnpackGrows(items: seq<Item>)
    requires Unpack(items).Some?
    ensures |items| <= |Unpack(items).value|
  {
    if items != [] { UnpackGrows(items[..|items| - 1]); }
  }

  lemma {:induction false} ItemsLength(cl: seq<nat>, items: seq<Item>)
    requires ItemsOk(cl, items) && Limited(cl, 7)
    ensures |ItemsBits(cl, items)| <= 14 * |items|
  {
    hide BitsOf, CodeBits;
    if items != [] { ItemsLength(cl, items[..|items| - 1]); }
  }

  lemma {:induction false} ClLength(cl: seq<nat>, n: nat)
    requires |cl| == 19 && n <= 19
    ensures |ClBits(cl, n)| == 3 * n
  {
    hide BitsOf;
    if n > 0 { ClLength(cl, n - 1); }
  }

  lemma HeaderLength(h: Dyn)
    requires h.Ok()
    ensures |DynHeader(h)| <= 14 + 57 + 14 * 320
  {
    hide BitsOf, ClBits, ItemsBits, Unpack, Usable;
    UnpackGrows(h.items);
    ItemsLength(h.cl, h.items);
    ClLength(h.cl, h.hclen);
  }

  /** The tokens with their codes, and the end-of-block code, in bits for the bits of the token buffer. */
  ghost predicate Dense(lit: seq<nat>, dist: seq<nat>, toks: seq<Token>)
    requires AllCoded(lit, dist, toks) && |lit| > 256
  {
    25 * |BodyBits(lit, dist, toks)| <= 31 * PackedBits(toks) + 200
  }

  /** The same for codes cut off after the last symbol in use. */
  lemma {:induction false} TrimmedCost(lit: seq<nat>, dist: seq<nat>, n0: nat, n1: nat, toks: seq<Token>)
    requires AllOk(toks) && n0 <= |lit| && n1 <= |dist| && AllCoded(lit[..n0], dist[..n1], toks)
    ensures ToksCost(lit[..n0], dist[..n1], toks) == ToksCost(lit, dist, toks)
  {
    hide LenSym, DistSym;
    if toks != [] {
      assert Coded(lit[..n0], dist[..n1], toks[|toks| - 1]);
      TrimmedCost(lit, dist, n0, n1, toks[..|toks| - 1]);
    }
  }

  lemma DenseReady(lit: seq<nat>, dist: seq<nat>, n0: nat, n1: nat, toks: seq<Token>)
    requires AllOk(toks) && 256 < n0 <= |lit| && n1 <= |dist| && AllCoded(lit[..n0], dist[..n1], toks)
    requires 25 * (ToksCost(lit, dist, toks) + Extras(toks) + lit[256]) <= 31 * PackedBits(toks) + 200
    ensures Dense(lit[..n0], dist[..n1], toks)
  {
    hide Coded, ToksCost, ToksBits, CodeBits;
    ToksLength(lit[..n0], dist[..n1], toks);
    TrimmedCost(lit, dist, n0, n1, toks);
  }
}
