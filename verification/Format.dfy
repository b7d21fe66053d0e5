/** The deflate format in numbers (sections 3.2.5 to 3.2.7 of RFC 1951): what the machine makes of each element,
    with positions, widths and values written out instead of the tables that the programs share. */
module Format {
  import opened Bits
  import opened Canonical
  import opened Tokens
  import opened InflateSpec
  import opened Encoding

  // ---- The code length code

  /** The order in which the lengths of the code length code are transmitted. */
  lemma OrderStated()
    ensures |CL_ORDER| == 19 && CL_ORDER[..4] == [16, 17, 18, 0]
    ensures forall k :: 0 <= k < 8 ==> CL_ORDER[4 + 2 * k] == 8 + k
    ensures forall k :: 0 <= k < 7 ==> CL_ORDER[5 + 2 * k] == 7 - k
  {
  }

  /** The number in bits `3 * i` to `3 * i + 2` from `pos` on, if it is among the first `n` such numbers. */
  function Three(s: bits, pos: nat, n: nat, i: nat): nat {
    var p := pos + 3 * i;
    if i < n && p + 3 <= |s| then BitVal(s[p]) + 2 * BitVal(s[p + 1]) + 4 * BitVal(s[p + 2]) else 0
  }

  /** The lengths of the code length code, of which `n` stand from `pos` on: first those of 16, 17, 18 and 0,
      then by turns those of 8, 9, ... and of 7, 6, .... */
  ghost predicate LengthCode(s: bits, pos: nat, n: nat, cl: seq<nat>) {
    && |cl| == 19
    && cl[16] == Three(s, pos, n, 0) && cl[17] == Three(s, pos, n, 1) && cl[18] == Three(s, pos, n, 2)
    && cl[0] == Three(s, pos, n, 3)
    && (forall k :: 0 <= k < 8 ==> cl[8 + k] == Three(s, pos, n, 4 + 2 * k))
    && (forall k :: 0 <= k < 7 ==> cl[7 - k] == Three(s, pos, n, 5 + 2 * k))
  }

  lemma ThreeRead(s: bits, pos: nat)
    requires pos + 3 <= |s|
    ensures ReadBits(s, pos, 3) == Some(BitVal(s[pos]) + 2 * BitVal(s[pos + 1]) + 4 * BitVal(s[pos + 2]))
  {
    var w := s[pos..pos + 3];
    assert w[1..] == [s[pos + 1], s[pos + 2]] && w[1..][1..] == [s[pos + 2]] && w[1..][1..][1..] == [];
    assert Val(w) == BitVal(w[0]) + 2 * Val(w[1..]) && Val(w[1..]) == BitVal(w[1]) + 2 * Val(w[1..][1..]);
    assert Val(w[1..][1..]) == BitVal(w[2]) + 2 * Val([]);
  }

  /** The same by symbol. */
  ghost predicate BySymbol(s: bits, pos: nat, n: nat, cl: seq<nat>) {
    |cl| == 19 && forall j :: 0 <= j < 19 ==> cl[j] == Three(s, pos, n, OrderIndex(j))
  }

  lemma OrderIndexIs(i: nat)
    requires i < 19
    ensures CL_ORDER[i] < 19 && OrderIndex(CL_ORDER[i]) == i
  {
  }

  lemma BySymbolStated(s: bits, pos: nat, n: nat, cl: seq<nat>)
    requires BySymbol(s, pos, n, cl)
    ensures LengthCode(s, pos, n, cl)
  {
    hide Three;
    forall k | 0 <= k < 8 ensures cl[8 + k] == Three(s, pos, n, 4 + 2 * k) { assert OrderIndex(8 + k) == 4 + 2 * k; }
    forall k | 0 <= k < 7 ensures cl[7 - k] == Three(s, pos, n, 5 + 2 * k) { assert OrderIndex(7 - k) == 5 + 2 * k; }
  }

  /** One length more. */
  lemma LengthCodeStep(s: bits, pos: nat, n: nat, cl: seq<nat>)
    requires BySymbol(s, pos, n, cl) && n < 19
    ensures CL_ORDER[n] < 19 && BySymbol(s, pos, n + 1, cl[CL_ORDER[n] := Three(s, pos, n + 1, n)])
  {
    OrderIndexIs(n);
    hide OrderIndex;
  }

  /** The code length code, read to its end from the start of its lengths. */
  lemma {:induction false} LengthCodeRead(s: bits, a: State, sizes: seq<nat>, n: nat)
    requires a.pc == ClLens(sizes, 0, seq(19, i => 0)) && |sizes| == 3 && n <= sizes[2] <= 19
    requires Run(s, a, n).Some?
    ensures
      var b := Run(s, a, n).value;
      if n < sizes[2] || n == 0 then
        && b.pc.ClLens? && b == a.(pos := a.pos + 3 * n, pc := ClLens(sizes, n, b.pc.cl))
        && BySymbol(s, a.pos, n, b.pc.cl)
      else
        b.pc.Failed? || (b.pc.Lens? && b.pc.lens == [] && LengthCode(s, a.pos, n, b.pc.cl))
    decreases n
  {
    hide Step;
    if n == 0 {
      assert forall j :: 0 <= j < 19 ==> Three(s, a.pos, 0, OrderIndex(j)) == 0;
    } else {
      Prefix(s, a, n - 1, 1);
      RunAdd(s, a, n - 1, 1);
      LengthCodeRead(s, a, sizes, n - 1);
      var b := Run(s, a, n - 1).value;
      assert Run(s, b, 1) == Step(s, b) by { OneStep(s, b); }
      LastLength(s, b, sizes, n - 1, a.pos);
    }
  }

  lemma OneStep(s: bits, a: State)
    ensures Run(s, a, 1) == Step(s, a)
  {
    hide Step;
    if Step(s, a).Some? { assert Run(s, Step(s, a).value, 0) == Step(s, a); }
  }

  lemma {:induction false} Prefix(s: bits, a: State, m: nat, n: nat)
    requires Run(s, a, m + n).Some?
    ensures Run(s, a, m).Some?
    decreases m
  {
    hide Step;
    if m > 0 { Prefix(s, Step(s, a).value, m - 1, n); }
  }

  lemma LastLength(s: bits, b: State, sizes: seq<nat>, n: nat, pos: nat)
    requires b.pc.ClLens? && b.pc == ClLens(sizes, n, b.pc.cl) && b.pos == pos + 3 * n
    requires |sizes| == 3 && n < sizes[2] <= 19
    requires BySymbol(s, pos, n, b.pc.cl) && Step(s, b).Some?
    ensures
      var c := Step(s, b).value;
      if n + 1 < sizes[2] then
        && c.pc.ClLens? && c == b.(pos := b.pos + 3, pc := ClLens(sizes, n + 1, c.pc.cl))
        && BySymbol(s, pos, n + 1, c.pc.cl)
      else
        c.pc.Failed? || (c.pc.Lens? && c.pc.lens == [] && LengthCode(s, pos, n + 1, c.pc.cl))
  {
    assert |b.pc.cl| == 19;
    hide LengthCode, BySymbol, Usable, Three, Step;
    var v := ClLensRead(s, b, sizes, n);
    assert v == Three(s, pos, n + 1, n) by { ThreeRead(s, b.pos); ThreeNow(s, pos, n); }
    LengthCodeStep(s, pos, n, b.pc.cl);
    BySymbolStated(s, pos, n + 1, b.pc.cl[CL_ORDER[n] := v]);
  }

  lemma ThreeNow(s: bits, pos: nat, n: nat)
    requires pos + 3 * n + 3 <= |s|
    ensures
      var p := pos + 3 * n;
      Three(s, pos, n + 1, n) == BitVal(s[p]) + 2 * BitVal(s[p + 1]) + 4 * BitVal(s[p + 2])
  {
  }

  lemma ClLensRead(s: bits, b: State, sizes: seq<nat>, n: nat) returns (v: nat)
    requires b.pc.ClLens? && b.pc == ClLens(sizes, n, b.pc.cl) && |sizes| == 3 && n < 19
    requires |b.pc.cl| == 19 && Step(s, b).Some?
    ensures b.pos + 3 <= |s| && ReadBits(s, b.pos, 3) == Some(v) && CL_ORDER[n] < 19
    ensures
      var c := b.pc.cl[CL_ORDER[n] := v];
      Step(s, b) == Some(b.(pos := b.pos + 3, pc :=
        if n + 1 < sizes[2] then ClLens(sizes, n + 1, c) else if Usable(c) then Lens(sizes, c, []) else Failed))
  {
    hide Usable, Val;
    v := ReadBits(s, b.pos, 3).value;
  }

  /** The header of a dynamic block up to its code length code: three sizes in 14 bits, then as many lengths of
      three bits as the last of them says. */
  lemma DynamicHeaderRead(s: bits, a: State)
    requires a.pc == Sizes([]) && Run(s, a, 3).Some? && a.pos + 14 <= |s|
    ensures
      var n := 4 + Val(s[a.pos + 10..a.pos + 14]);
      var sizes := [257 + Val(s[a.pos..a.pos + 5]), 1 + Val(s[a.pos + 5..a.pos + 10]), n];
      && Run(s, a, 3) == Some(a.(pos := a.pos + 14, pc := ClLens(sizes, 0, seq(19, i => 0))))
      && n <= 19
      && (Run(s, a, 3 + n).Some? ==>
            var b := Run(s, a, 3 + n).value;
            b.pc.Failed? || (b.pc.Lens? && b.pc.lens == [] && LengthCode(s, a.pos + 14, n, b.pc.cl)))
  {
    hide Val, Step;
    var n := 4 + Val(s[a.pos + 10..a.pos + 14]);
    var sizes := [257 + Val(s[a.pos..a.pos + 5]), 1 + Val(s[a.pos + 5..a.pos + 10]), n];
    SizesRead(s, a);
    FourBits(s, a.pos + 10);
    if Run(s, a, 3 + n).Some? {
      RunAdd(s, a, 3, n);
      LengthCodeRead(s, Run(s, a, 3).value, sizes, n);
    }
  }

  lemma FourBits(s: bits, pos: nat)
    requires pos + 4 <= |s|
    ensures Val(s[pos..pos + 4]) < 16
  {
    Pow2Table();
    ValBound(s[pos..pos + 4]);
  }

  lemma SizesRead(s: bits, a: State)
    requires a.pc == Sizes([]) && a.pos + 14 <= |s|
    ensures
      var x, y, z := Val(s[a.pos..a.pos + 5]), Val(s[a.pos + 5..a.pos + 10]), Val(s[a.pos + 10..a.pos + 14]);
      Run(s, a, 3) == Some(a.(pos := a.pos + 14, pc := ClLens([257 + x, 1 + y, 4 + z], 0, seq(19, i => 0))))
  {
    hide Step, Val, Run;
    var x, y := 257 + Val(s[a.pos..a.pos + 5]), 1 + Val(s[a.pos + 5..a.pos + 10]);
    var z := 4 + Val(s[a.pos + 10..a.pos + 14]);
    SizeRead(s, a, []);
    assert [] + [x] == [x];
    var b := a.(pos := a.pos + 5, pc := Sizes([x]));
    SizeRead(s, b, [x]);
    assert [x] + [y] == [x, y];
    var c := a.(pos := a.pos + 10, pc := Sizes([x, y]));
    SizeRead(s, c, [x, y]);
    assert [x, y] + [z] == [x, y, z];
    var d := a.(pos := a.pos + 14, pc := ClLens([x, y, z], 0, seq(19, i => 0)));
    ThreeSteps(s, a, b, c, d);
  }

  lemma ThreeSteps(s: bits, a: State, b: State, c: State, d: State)
    requires Step(s, a) == Some(b) && Step(s, b) == Some(c) && Step(s, c) == Some(d)
    ensures Run(s, a, 3) == Some(d)
  {
    hide Step;
    assert Run(s, d, 0) == Some(d) && Run(s, c, 1) == Some(d) && Run(s, b, 2) == Some(d);
  }

  lemma SizeRead(s: bits, a: State, sizes: seq<nat>)
    requires a.pc == Sizes(sizes) && |sizes| < 3 && a.pos + 5 <= |s| + |sizes| / 2
    ensures
      var n := if |sizes| == 2 then 4 else 5;
      var t := sizes + [(if |sizes| == 0 then 257 else if |sizes| == 1 then 1 else 4) + Val(s[a.pos..a.pos + n])];
      Step(s, a) == Some(a.(pos := a.pos + n,
                            pc := if |sizes| < 2 then Sizes(t) else ClLens(t, 0, seq(19, i => 0))))
  {
    hide Val;
  }

  lemma {:induction false} ClBitsAt(cl: seq<nat>, n: nat, i: nat)
    requires |cl| == 19 && i < n <= 19
    ensures |ClBits(cl, n)| == 3 * n && ClBits(cl, n)[3 * i..3 * i + 3] == BitsOf(cl[CL_ORDER[i]], 3)
  {
    hide BitsOf;
    var w := BitsOf(cl[CL_ORDER[n - 1]], 3);
    if n == 1 {
      assert ClBits(cl, 0) == [];
    } else {
      ClBitsAt(cl, n - 1, if i == n - 1 then 0 else i);
      var z := ClBits(cl, n - 1);
      assert ClBits(cl, n) == z + w;
      if i < n - 1 {
        assert (z + w)[3 * i..3 * i + 3] == z[3 * i..3 * i + 3];
      } else {
        assert (z + w)[3 * i..3 * i + 3] == w;
      }
    }
  }

  /** Three bits of a longer string. */
  lemma ThreeWithin(p: bits, c: bits, q: bits, n: nat, i: nat, v: nat)
    requires i < n && 3 * i + 3 <= |c| && v < 8 && c[3 * i..3 * i + 3] == BitsOf(v, 3)
    ensures Three(p + c + q, |p|, n, i) == v
  {
    var s, w := p + c + q, c[3 * i..3 * i + 3];
    assert s[|p| + 3 * i] == w[0] && s[|p| + 3 * i + 1] == w[1] && s[|p| + 3 * i + 2] == w[2];
    Pow2Table();
    ValBitsOf(v, 3);
    hide BitsOf;
    ThreeRead(w, 0);
    assert w[0..0 + 3] == w;
  }

  /** A length of the code length code, read from where it is written. */
  lemma LengthWritten(p: bits, cl: seq<nat>, n: nat, q: bits, i: nat)
    requires |cl| == 19 && Limited(cl, 7) && i < n <= 19
    ensures Three(p + ClBits(cl, n) + q, |p|, n, i) == cl[CL_ORDER[i]]
  {
    ClBitsAt(cl, n, i);
    hide ClBits, Three, BitsOf;
    ThreeWithin(p, ClBits(cl, n), q, n, i, cl[CL_ORDER[i]]);
  }

  /** The header that is written: the three sizes, and the lengths of the code length code where they belong. */
  lemma HeaderWritten(h: Dyn)
    requires h.Ok()
    ensures
      var s := DynHeader(h);
      && |s| >= 14 && LengthCode(s, 14, h.hclen, h.cl)
      && 257 + Val(s[..5]) == |h.lit| && 1 + Val(s[5..10]) == |h.dist| && 4 + Val(s[10..14]) == h.hclen
  {
    hide Val, BitsOf, ClBits, ItemsBits, DynHeader, Three, Usable, ItemsOk, Unpack, LengthCode;
    var x, y, z := BitsOf(|h.lit| - 257, 5), BitsOf(|h.dist| - 1, 5), BitsOf(h.hclen - 4, 4);
    var c, q, s := ClBits(h.cl, h.hclen), ItemsBits(h.cl, h.items), DynHeader(h);
    HeaderIs(h);
    SizesWritten(|h.lit|, |h.dist|, h.hclen, c, q);
    forall j | 0 <= j < 19 ensures h.cl[j] == Three(s, 14, h.hclen, OrderIndex(j)) {
      var i := OrderIndex(j);
      hide OrderIndex;
      if i < h.hclen {
        LengthWritten(x + y + z, h.cl, h.hclen, q, i);
      } else {
        NotAmong(s, 14, h.hclen, i);
      }
    }
    BySymbolStated(s, 14, h.hclen, h.cl);
  }

  lemma SizesWritten(lit: nat, dist: nat, n: nat, c: bits, q: bits)
    requires 257 <= lit <= 288 && 1 <= dist <= 32 && 4 <= n <= 19
    ensures
      var s := BitsOf(lit - 257, 5) + BitsOf(dist - 1, 5) + BitsOf(n - 4, 4) + c + q;
      257 + Val(s[..5]) == lit && 1 + Val(s[5..10]) == dist && 4 + Val(s[10..14]) == n
  {
    var x, y, z := BitsOf(lit - 257, 5), BitsOf(dist - 1, 5), BitsOf(n - 4, 4);
    Pow2Table();
    ValBitsOf(lit - 257, 5);
    ValBitsOf(dist - 1, 5);
    ValBitsOf(n - 4, 4);
    hide Val, BitsOf;
    var s := x + y + z + c + q;
    assert s[..5] == x && s[5..10] == y && s[10..14] == z;
  }

  lemma HeaderIs(h: Dyn)
    requires h.Ok()
    ensures DynHeader(h) == BitsOf(|h.lit| - 257, 5) + BitsOf(|h.dist| - 1, 5) + BitsOf(h.hclen - 4, 4)
                          + ClBits(h.cl, h.hclen) + ItemsBits(h.cl, h.items)
    ensures |h.cl| == 19 && Limited(h.cl, 7) && forall i :: h.hclen <= i < 19 ==> h.cl[CL_ORDER[i]] == 0
  {
    hide BitsOf, ClBits, ItemsBits;
  }

  lemma NotAmong(s: bits, pos: nat, n: nat, i: nat)
    requires i >= n
    ensures Three(s, pos, n, i) == 0
  {
  }

  /** Repetitions of code lengths: 16 copies the last one 3 to 6 times, 17 and 18 stand for 3 to 10 and 11 to 138
      zeros. */
  lemma RepetitionRead(s: bits, a: State)
    requires a.pc.LensRepeat? && 16 <= a.pc.sym <= 18 && (a.pc.sym == 16 ==> a.pc.lens != []) && Step(s, a).Some?
    ensures
      var w, least := if a.pc.sym == 16 then 2 else if a.pc.sym == 17 then 3 else 7, if a.pc.sym == 18 then 11 else 3;
      var x := if a.pc.sym == 16 then a.pc.lens[|a.pc.lens| - 1] else 0;
      && a.pos + w <= |s|
      && Step(s, a) == FinishLens(a.(pos := a.pos + w), a.pc.sizes, a.pc.cl,
                                  a.pc.lens + seq(least + Val(s[a.pos..a.pos + w]), i => x))
  {
    hide Val, FinishLens;
    var w, least := if a.pc.sym == 16 then 2 else if a.pc.sym == 17 then 3 else 7, if a.pc.sym == 18 then 11 else 3;
    var x := if a.pc.sym == 16 then a.pc.lens[|a.pc.lens| - 1] else 0;
    var v := Val(s[a.pos..a.pos + w]);
    assert Repeated(a.pc.lens, a.pc.sym, v + least) == a.pc.lens + seq(least + v, i => x);
  }

  // ---- Lengths and distances

  /** How many extra bits a length symbol has. */
  function LengthWidth(sym: nat): nat { if 265 <= sym < 285 then (sym - 261) / 4 else 0 }

  /** The length that a symbol and the number in its extra bits stand for: 3 to 10 for 257 to 264; from there on,
      four symbols share a width, and each begins where the one before ends; 258 has a symbol of its own. */
  function LengthOf(sym: nat, extra: nat): int {
    if sym < 265 then sym - 254
    else if sym == 285 then 258
    else 3 + (4 + (sym - 261) % 4) * Pow2(LengthWidth(sym)) + extra
  }

  function DistanceWidth(sym: nat): nat { if sym < 4 then 0 else sym / 2 - 1 }

  /** The distance that a symbol and the number in its extra bits stand for: two symbols share a width. */
  function DistanceOf(sym: nat, extra: nat): int {
    if sym < 4 then sym + 1 else 1 + (2 + sym % 2) * Pow2(DistanceWidth(sym)) + extra
  }

  lemma LengthsStated(sym: nat)
    requires 257 <= sym <= 285
    ensures LENGTH_EXTRA[sym - 257] == LengthWidth(sym) && LENGTH_BASE[sym - 257] == LengthOf(sym, 0)
  {
    Pow2Table();
    LengthTable(sym - 257);
  }

  lemma DistancesStated(sym: nat)
    requires sym <= 29
    ensures DIST_EXTRA[sym] == DistanceWidth(sym) && DIST_BASE[sym] == DistanceOf(sym, 0)
  {
    DistanceTable(sym);
    DistanceExtraTable(sym);
    hide Pow2;
    Pow2Table();
    if sym % 2 == 0 { DistanceBase(sym / 2); } else { DistanceBase(sym / 2); }
  }

  lemma DistanceBase(h: nat)
    requires h <= 14
    ensures DistBaseForm(2 * h) == DistanceOf(2 * h, 0) && DistBaseForm(2 * h + 1) == DistanceOf(2 * h + 1, 0)
  {
    Pow2Table();
    hide Pow2;
  }

  lemma LengthRead(s: bits, a: State)
    requires a.pc.LenBits? && 257 <= a.pc.sym <= 285 && Step(s, a).Some?
    ensures
      var w := LengthWidth(a.pc.sym);
      && a.pos + w <= |s|
      && Step(s, a).value.pc.DistCode?
      && Step(s, a).value.pc.len == LengthOf(a.pc.sym, Val(s[a.pos..a.pos + w]))
      && Step(s, a).value == a.(pos := a.pos + w, pc := Step(s, a).value.pc)
  {
    LengthsStated(a.pc.sym);
    NoNumber(s, a.pos);
    hide Val, Pow2;
  }

  lemma NoNumber(s: bits, pos: nat)
    ensures pos <= |s| ==> Val(s[pos..pos]) == 0
  {
  }

  lemma DistanceRead(s: bits, a: State)
    requires a.pc.DistBits? && a.pc.sym <= 29 && Step(s, a).Some?
    ensures
      var w := DistanceWidth(a.pc.sym);
      && a.pos + w <= |s|
      && var dist := DistanceOf(a.pc.sym, Val(s[a.pos..a.pos + w]));
         && Step(s, a).value == a.(pos := a.pos + w, pc := Step(s, a).value.pc)
         && if dist > |a.out| then Step(s, a).value.pc == TooFar
            else
              && Step(s, a).value.pc.CopyMatch?
              && Step(s, a).value.pc.left == a.pc.len && Step(s, a).value.pc.dist == dist
  {
    DistancesStated(a.pc.sym);
    NoNumber(s, a.pos);
    hide Val, Pow2;
  }

  // ---- The fixed codes

  /** The fixed literal and length code as section 3.2.6 of RFC 1951 lists it: eight bits from 00110000 on for the
      literals up to 143, nine from 110010000 on for the others, seven from 0000000 on for 256 to 279, and eight
      from 11000000 on for the rest. */
  lemma FixedLitStated(s: nat)
    requires s < 288
    ensures |FixedLit()| == 288
    ensures
      var width, code := FixedLit()[s], Code(FixedLit(), s);
      if s < 144 then width == 8 && code == 48 + s
      else if s < 256 then width == 9 && code == 400 + (s - 144)
      else if s < 280 then width == 7 && code == s - 256
      else width == 8 && code == 192 + (s - 280)
  {
    var lens := FixedLit();
    FixedFirst();
    FixedCount(if s < 144 then s else 144, if s < 144 then 0 else if s < 256 then s - 144 else 112,
               if s < 256 then 0 else if s < 280 then s - 256 else 24, if s < 280 then 0 else s - 280, lens[s]);
    hide Count, FirstCode;
  }

  /** How often a length occurs in a prefix of the fixed code. */
  lemma FixedCount(a: nat, b: nat, c: nat, d: nat, l: nat)
    requires a <= 144 && b <= 112 && c <= 24 && d <= 8
    requires (b > 0 ==> a == 144) && (c > 0 ==> b == 112) && (d > 0 ==> c == 24)
    ensures |FixedLit()| == 288
    ensures Count(FixedLit()[..a + b + c + d], l) ==
            if l == 7 then c else if l == 8 then a + d else if l == 9 then b else 0
  {
    hide Count;
    var w, x, y, z := seq(a, i => 8), seq(b, i => 9), seq(c, i => 7), seq(d, i => 8);
    assert FixedLit()[..a + b + c + d] == w + x + y + z;
    CountSplit(w + x + y, z, l);
    CountSplit(w + x, y, l);
    CountSplit(w, x, l);
    CountConst(8, a, l);
    CountConst(9, b, l);
    CountConst(7, c, l);
    CountConst(8, d, l);
  }

  lemma FixedFirst()
    ensures FirstCode(FixedLit(), 7) == 0 && FirstCode(FixedLit(), 8) == 48 && FirstCode(FixedLit(), 9) == 400
  {
    var f := FixedLit();
    assert f[..288] == f;
    forall l: nat | l <= 8 ensures Count(f, l) == if l == 7 then 24 else if l == 8 then 152 else 0 {
      FixedCount(144, 112, 24, 8, l);
    }
    hide Count;
    assert FirstCode(f, 1) == 0 && FirstCode(f, 2) == 0 && FirstCode(f, 3) == 0 && FirstCode(f, 4) == 0;
    assert FirstCode(f, 5) == 0 && FirstCode(f, 6) == 0 && FirstCode(f, 7) == 0;
  }

  /** The fixed distance code: five bits, in order. */
  lemma FixedDistStated(s: nat)
    requires s < 32
    ensures |FixedDist()| == 32 && FixedDist()[s] == 5 && Code(FixedDist(), s) == s
  {
    var f := FixedDist();
    assert f[..s] == seq(s, i => 5);
    CountConst(5, s, 5);
    forall l: nat | l <= 4 ensures Count(f, l) == 0 { CountConst(5, 32, l); }
    hide Count;
    assert FirstCode(f, 1) == 0 && FirstCode(f, 2) == 0 && FirstCode(f, 3) == 0 && FirstCode(f, 4) == 0;
  }
}
