/** Symbol statistics of a token sequence (`m_huff_count`), and what they guarantee. */
module Tally {
  import opened Bits
  import opened Canonical
  import opened Tokens
  import opened Sums
  import opened MinRedundancy
  import opened HuffTable
  import opened Encoding
  import opened Rle

  function LitSym(t: Token): nat
    requires t.Match? ==> t.len >= MIN_MATCH
  {
    match t
    case Lit(b) => b
    case Match(len, _) => LenSym(len - MIN_MATCH)
  }

  function LitFreq(toks: seq<Token>, s: nat): nat
    requires AllOk(toks)
  {
    if toks == [] then 0
    else LitFreq(toks[..|toks| - 1], s) + if LitSym(toks[|toks| - 1]) == s then 1 else 0
  }

  function DistFreq(toks: seq<Token>, s: nat): nat
    requires AllOk(toks)
  {
    if toks == [] then 0
    else
      var t := toks[|toks| - 1];
      DistFreq(toks[..|toks| - 1], s) + if t.Match? && DistSym(t.dist - 1) == s then 1 else 0
  }

  /** The two count rows agree with the tokens recorded. */
  ghost predicate Tallied(lit: seq<nat>, dist: seq<nat>, toks: seq<Token>) {
    && |lit| == 288 && |dist| >= 32 && AllOk(toks)
    && (forall s :: 0 <= s < 288 ==> lit[s] == LitFreq(toks, s))
    && (forall s :: 0 <= s < 32 ==> dist[s] == DistFreq(toks, s))
  }

  lemma SymBounds(t: Token)
    requires t.Ok()
    ensures LitSym(t) <= 285 && LitSym(t) != 256
    ensures t.Match? ==> DistSym(t.dist - 1) <= 29
  {
    if t.Match? {
      LengthRoundTrip(t.len - MIN_MATCH);
      DistanceRoundTrip(t.dist - 1);
    }
  }

  lemma TallyPush(lit: seq<nat>, dist: seq<nat>, toks: seq<Token>, t: Token)
    requires Tallied(lit, dist, toks) && t.Ok()
    ensures LitSym(t) < 288 && (t.Match? ==> DistSym(t.dist - 1) < 32)
    ensures Tallied(lit[LitSym(t) := lit[LitSym(t)] + 1],
                    if t.Match? then dist[DistSym(t.dist - 1) := dist[DistSym(t.dist - 1)] + 1] else dist,
                    toks + [t])
  {
    SymBounds(t);
    assert (toks + [t])[..|toks|] == toks;
    hide LitSym, DistSym;
  }

  lemma {:induction false} LitFreqBound(toks: seq<Token>, s: nat)
    requires AllOk(toks)
    ensures s == 256 || s > 285 ==> LitFreq(toks, s) == 0
    ensures s > 29 ==> DistFreq(toks, s) == 0
  {
    if toks != [] {
      LitFreqBound(toks[..|toks| - 1], s);
      SymBounds(toks[|toks| - 1]);
      hide LitSym, DistSym;
    }
  }

  lemma {:induction false} FreqPositive(toks: seq<Token>, i: nat)
    requires AllOk(toks) && i < |toks|
    ensures LitFreq(toks, LitSym(toks[i])) >= 1
    ensures toks[i].Match? ==> DistFreq(toks, DistSym(toks[i].dist - 1)) >= 1
  {
    hide LitSym, DistSym;
    if i < |toks| - 1 { FreqPositive(toks[..|toks| - 1], i); }
  }

  /** Without the last token. */
  lemma TallyPop(lit: seq<nat>, dist: seq<nat>, toks: seq<Token>)
    requires Tallied(lit, dist, toks) && toks != []
    ensures
      var t, init := toks[|toks| - 1], toks[..|toks| - 1];
      var s := LitSym(t);
      && s < 288 && lit[s] > 0
      && (t.Lit? ==> Tallied(lit[s := lit[s] - 1], dist, init))
      && (t.Match? ==> DistSym(t.dist - 1) < 32 && dist[DistSym(t.dist - 1)] > 0
                       && Tallied(lit[s := lit[s] - 1],
                                  dist[DistSym(t.dist - 1) := dist[DistSym(t.dist - 1)] - 1], init))
  {
    SymBounds(toks[|toks| - 1]);
    hide LitSym, DistSym;
  }

  lemma {:induction false} TalliedSum(lit: seq<nat>, dist: seq<nat>, toks: seq<Token>)
    requires Tallied(lit, dist, toks) && |dist| == 32
    ensures Sum(lit) == |toks| && Sum(dist) <= |toks|
    decreases |toks|
  {
    if toks == [] {
      SumZeros(lit);
      SumZeros(dist);
    } else {
      var t, init := toks[|toks| - 1], toks[..|toks| - 1];
      TallyPop(lit, dist, toks);
      hide LitSym, DistSym, Sum, Tallied;
      var s := LitSym(t);
      SumChange(lit, s, lit[s] - 1);
      if t.Match? {
        var d := DistSym(t.dist - 1);
        SumChange(dist, d, dist[d] - 1);
        TalliedSum(lit[s := lit[s] - 1], dist[d := dist[d] - 1], init);
      } else {
        TalliedSum(lit[s := lit[s] - 1], dist, init);
      }
    }
  }

  // ---- Dropping unused symbols at the end of a code

  lemma TrimCount(lens: seq<nat>, n: nat, l: nat)
    requires n <= |lens| && l > 0 && forall s :: n <= s < |lens| ==> lens[s] == 0
    ensures Count(lens, l) == Count(lens[..n], l)
  {
    assert lens == lens[..n] + lens[n..];
    CountSplit(lens[..n], lens[n..], l);
    CountAbsent(lens[n..], l);
  }

  lemma {:induction false} TrimFirst(lens: seq<nat>, n: nat, l: nat)
    requires n <= |lens| && forall s :: n <= s < |lens| ==> lens[s] == 0
    ensures FirstCode(lens, l) == FirstCode(lens[..n], l)
    ensures Free(lens, l) == Free(lens[..n], l) && Used(lens, l) == Used(lens[..n], l)
  {
    if l > 0 {
      TrimFirst(lens, n, l - 1);
      TrimCount(lens, n, l);
      if l > 1 { TrimCount(lens, n, l - 1); }
    }
  }

  /** Unused symbols at the end do not matter: same codes, same usability. */
  lemma Trim(codes: seq<nat>, lens: seq<nat>, n: nat)
    requires n <= |lens| && forall s :: n <= s < |lens| ==> lens[s] == 0
    requires Usable(lens) && CodesFor(codes, lens)
    ensures Usable(lens[..n]) && CodesFor(codes, lens[..n])
  {
    TrimFirst(lens, n, MAX_BITS);
    hide Usable, Count, Free, FirstCode;
    forall s | 0 <= s < n && lens[s] > 0 ensures CodeBits(lens[..n], s) == CodeBits(lens, s) {
      TrimFirst(lens, n, lens[s]);
      assert lens[..n][..s] == lens[..s];
    }
  }

  /** Every token is coded by lengths that suit the counts. */
  lemma TokensCoded(lit: seq<nat>, dist: seq<nat>, litCount: seq<nat>, distCount: seq<nat>, toks: seq<Token>)
    requires AllOk(toks) && |litCount| == 288 && |distCount| == 32
    requires forall s :: 0 <= s < 288 && s != 256 ==> litCount[s] == LitFreq(toks, s)
    requires forall s :: 0 <= s < 32 ==> distCount[s] == DistFreq(toks, s)
    requires 257 <= |lit| <= 288 && 1 <= |dist| <= 32
    requires forall s :: 0 <= s < 288 && litCount[s] > 0 ==> s < |lit| && lit[s] > 0
    requires forall s :: 0 <= s < 32 && distCount[s] > 0 ==> s < |dist| && dist[s] > 0
    ensures AllCoded(lit, dist, toks)
  {
    forall i | 0 <= i < |toks| ensures Coded(lit, dist, toks[i]) {
      SymBounds(toks[i]);
      FreqPositive(toks, i);
      hide LenSym, DistSym;
      assert litCount[LitSym(toks[i])] > 0;
    }
  }
}
