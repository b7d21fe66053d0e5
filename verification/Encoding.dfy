/** The bit layout of deflate blocks, as the compressor means to write them, and the proof that the
    machine of `InflateSpec` reads each layout back as the bytes it stands for. */
module Encoding {
  import opened Bits
  import opened Canonical
  import opened Tokens
  import opened InflateSpec
  import opened Checksums

  // ---- Layouts

  /** The symbols of `t` have codes. */
  ghost predicate Coded(lit: seq<nat>, dist: seq<nat>, t: Token) {
    && t.Ok()
    && match t
       case Lit(b) => b < |lit| && lit[b] > 0
       case Match(len, d) =>
         && LenSym(len - MIN_MATCH) < |lit| && lit[LenSym(len - MIN_MATCH)] > 0
         && DistSym(d - 1) < |dist| && dist[DistSym(d - 1)] > 0
  }

  ghost predicate AllCoded(lit: seq<nat>, dist: seq<nat>, toks: seq<Token>) {
    forall i :: 0 <= i < |toks| ==> Coded(lit, dist, toks[i])
  }

  ghost function LenPart(lit: seq<nat>, l: nat): bits
    requires LenSym(l) < |lit|
  {
    CodeBits(lit, LenSym(l)) + BitsOf(l % Pow2(LenExtra(l)), LenExtra(l))
  }

  ghost function DistPart(dist: seq<nat>, d: nat): bits
    requires DistSym(d) < |dist|
  {
    CodeBits(dist, DistSym(d)) + BitsOf(d % Pow2(DistExtra(d)), DistExtra(d))
  }

  ghost function TokBits(lit: seq<nat>, dist: seq<nat>, t: Token): bits
    requires Coded(lit, dist, t)
  {
    match t
    case Lit(b) => CodeBits(lit, b)
    case Match(len, d) => LenPart(lit, len - MIN_MATCH) + DistPart(dist, d - 1)
  }

  ghost function ToksBits(lit: seq<nat>, dist: seq<nat>, toks: seq<Token>): bits
    requires AllCoded(lit, dist, toks)
  {
    if toks == [] then []
    else ToksBits(lit, dist, toks[..|toks| - 1]) + TokBits(lit, dist, toks[|toks| - 1])
  }

  /** The tokens of a block and its end-of-block code. */
  ghost function BodyBits(lit: seq<nat>, dist: seq<nat>, toks: seq<Token>): bits
    requires AllCoded(lit, dist, toks) && |lit| > 256
  {
    ToksBits(lit, dist, toks) + CodeBits(lit, 256)
  }

  ghost function HeaderBits(final: bool, kind: nat): bits { [final] + BitsOf(kind, 2) }

  ghost function FixedBits(final: bool, toks: seq<Token>): bits
    requires AllCoded(FixedLit(), FixedDist(), toks) && |FixedLit()| > 256
  {
    HeaderBits(final, 1) + BodyBits(FixedLit(), FixedDist(), toks)
  }

  function Zeros(n: nat): (z: bits)
    ensures |z| == n
  {
    seq(n, i => false)
  }

  /** Section 3.2.4 of RFC 1951; `pos` is where the block starts. */
  ghost function StoredBits(pos: nat, final: bool, data: seq<byte>): bits
    requires |data| <= 65535
  {
    HeaderBits(final, 0) + Zeros(AlignUp(pos + 3) - (pos + 3))
      + BitsOf(|data|, 16) + BitsOf(65535 - |data|, 16) + ByteBits(data)
  }

  /** One symbol of the code length code, with its repeat count. */
  datatype Item = Item(sym: nat, extra: nat)

  ghost predicate ItemOk(cl: seq<nat>, it: Item) {
    && it.sym <= 18 && it.sym < |cl| && cl[it.sym] > 0
    && (it.sym >= 16 ==> it.extra < Pow2(RepeatBits(it.sym)))
  }

  ghost predicate ItemsOk(cl: seq<nat>, items: seq<Item>) {
    forall i :: 0 <= i < |items| ==> ItemOk(cl, items[i])
  }

  ghost function ItemBits(cl: seq<nat>, it: Item): bits
    requires it.sym < |cl|
  {
    CodeBits(cl, it.sym) + if it.sym < 16 then [] else BitsOf(it.extra, RepeatBits(it.sym))
  }

  ghost function ItemsBits(cl: seq<nat>, items: seq<Item>): bits
    requires ItemsOk(cl, items)
  {
    if items == [] then []
    else ItemsBits(cl, items[..|items| - 1]) + ItemBits(cl, items[|items| - 1])
  }

  function UnpackOne(lens: seq<nat>, it: Item): Option<seq<nat>> {
    if it.sym < 16 then Some(lens + [it.sym])
    else if it.sym == 16 && lens == [] then None
    else Some(Repeated(lens, it.sym, it.extra + RepeatBase(it.sym)))
  }

  /** The code lengths a run-length coded sequence stands for (section 3.2.7 of RFC 1951). */
  function Unpack(items: seq<Item>): Option<seq<nat>> {
    if items == [] then Some([])
    else
      var r := Unpack(items[..|items| - 1]);
      if r.None? then None else UnpackOne(r.value, items[|items| - 1])
  }

  datatype Dyn = Dyn(lit: seq<nat>, dist: seq<nat>, hclen: nat, cl: seq<nat>, items: seq<Item>) {
    ghost predicate Ok() {
      && 257 <= |lit| <= 288 && 1 <= |dist| <= 32 && 4 <= hclen <= 19
      && Usable(lit) && Usable(dist)
      && |cl| == 19 && Usable(cl) && Limited(cl, 7)
      && (forall i :: hclen <= i < 19 ==> cl[CL_ORDER[i]] == 0)
      && ItemsOk(cl, items) && Unpack(items) == Some(lit + dist)
    }
  }

  ghost function ClBits(cl: seq<nat>, n: nat): bits
    requires |cl| == 19 && n <= 19
  {
    if n == 0 then [] else ClBits(cl, n - 1) + BitsOf(cl[CL_ORDER[n - 1]], 3)
  }

  ghost function DynHeader(h: Dyn): bits
    requires h.Ok()
  {
    BitsOf(|h.lit| - 257, 5) + BitsOf(|h.dist| - 1, 5) + BitsOf(h.hclen - 4, 4)
      + ClBits(h.cl, h.hclen) + ItemsBits(h.cl, h.items)
  }

  ghost function DynamicBits(final: bool, h: Dyn, toks: seq<Token>): bits
    requires h.Ok() && AllCoded(h.lit, h.dist, toks)
  {
    HeaderBits(final, 2) + DynHeader(h) + BodyBits(h.lit, h.dist, toks)
  }

  // ---- Reading a layout back

  /** The bits `w` stand at position `pos` of `s`. */
  ghost predicate At(s: bits, pos: nat, w: bits) {
    pos + |w| <= |s| && s[pos..pos + |w|] == w
  }

  lemma AtSplit(s: bits, pos: nat, a: bits, b: bits)
    requires At(s, pos, a + b)
    ensures At(s, pos, a) && At(s, pos + |a|, b)
  {
    assert s[pos..pos + |a|] == (a + b)[..|a|];
    assert s[pos + |a|..pos + |a| + |b|] == (a + b)[|a|..];
  }

  lemma AtNumber(s: bits, pos: nat, v: nat, n: nat)
    requires At(s, pos, BitsOf(v, n)) && v < Pow2(n)
    ensures ReadBits(s, pos, n) == Some(v)
  {
    ValBitsOf(v, n);
  }

  lemma AtCode(lens: seq<nat>, sym: nat, s: bits, pos: nat)
    requires Usable(lens) && sym < |lens| && lens[sym] > 0 && At(s, pos, CodeBits(lens, sym))
    ensures DecodeSym(lens, s, pos) == Some(sym)
  {
    DecodeSymUnique(lens, sym, s, pos);
  }

  lemma {:induction false} CopyRun(s: bits, a: State, left: nat, dist: nat)
    requires a.pc == CopyMatch(left, dist) && 1 <= dist <= |a.out|
    ensures Reaches(s, a, a.(pc := Sym, out := Copy(a.out, dist, left)))
    decreases left
  {
    var b := StepCopyMatch(a, left, dist).value;
    assert Step(s, a) == Some(b);
    hide Step;
    ReachStep(s, a, b);
    if left > 0 {
      CopyRun(s, b, left - 1, dist);
      ReachTrans(s, a, b, b.(pc := Sym, out := Copy(b.out, dist, left - 1)));
    }
  }

  lemma LitRun(s: bits, a: State, c: byte)
    requires a.pc == Sym && Usable(a.lit) && Coded(a.lit, a.dist, Lit(c))
    requires At(s, a.pos, CodeBits(a.lit, c))
    ensures Reaches(s, a, a.(pos := a.pos + a.lit[c], out := a.out + [c]))
  {
    AtCode(a.lit, c, s, a.pos);
    var b := a.(pc := EmitLit(c), pos := a.pos + a.lit[c]);
    assert Step(s, a) == Some(b);
    var d := b.(pc := Sym, out := a.out + [c]);
    assert Step(s, b) == Some(d);
    hide Step;
    ReachStep(s, a, b);
    ReachStep(s, b, d);
    ReachTrans(s, a, b, d);
  }

  lemma LenRun(s: bits, a: State, l: nat)
    requires a.pc == Sym && Usable(a.lit)
    requires l <= 255 && LenSym(l) < |a.lit| && a.lit[LenSym(l)] > 0
    requires At(s, a.pos, LenPart(a.lit, l))
    ensures Reaches(s, a, a.(pos := a.pos + |LenPart(a.lit, l)|, pc := DistCode(l + MIN_MATCH)))
  {
    hide Step, Run, Reaches, Code, DecodeSym, LenSym, LenExtra, Pow2, ReadBits, Val, Usable;
    var sym, e := LenSym(l), LenExtra(l);
    AtSplit(s, a.pos, CodeBits(a.lit, sym), BitsOf(l % Pow2(e), e));
    AtCode(a.lit, sym, s, a.pos);
    LengthRoundTrip(l);
    var b := a.(pc := LenBits(sym), pos := a.pos + a.lit[sym]);
    AtNumber(s, b.pos, l % Pow2(e), e);
    var c := b.(pc := DistCode(l + MIN_MATCH), pos := b.pos + e);
    LenSteps(s, a, b, c, sym);
    ReachStep(s, a, b);
    ReachStep(s, b, c);
    ReachTrans(s, a, b, c);
  }

  lemma LenSteps(s: bits, a: State, b: State, c: State, sym: nat)
    requires a.pc == Sym && 257 <= sym <= 285 && sym < |a.lit|
    requires DecodeSym(a.lit, s, a.pos) == Some(sym)
    requires b == a.(pc := LenBits(sym), pos := a.pos + a.lit[sym])
    requires ReadBits(s, b.pos, LENGTH_EXTRA[sym - 257]).Some?
    requires c == b.(pos := b.pos + LENGTH_EXTRA[sym - 257],
                     pc := DistCode(LENGTH_BASE[sym - 257] + ReadBits(s, b.pos, LENGTH_EXTRA[sym - 257]).value))
    ensures Step(s, a) == Some(b) && Step(s, b) == Some(c)
  {
    hide Canonical.CodeAt, Canonical.DecodeSym, ReadBits, Between, Val, At;
    assert StepSym(s, a) == Some(b);
    assert StepLenBits(s, b, sym) == Some(c);
  }

  lemma DistRun(s: bits, a: State, d: nat, len: nat)
    requires a.pc == DistCode(len) && Usable(a.dist)
    requires d < DICT_SIZE && DistSym(d) < |a.dist| && a.dist[DistSym(d)] > 0
    requires At(s, a.pos, DistPart(a.dist, d)) && d < |a.out|
    ensures Reaches(s, a, a.(pos := a.pos + |DistPart(a.dist, d)|, pc := Sym, out := Copy(a.out, d + 1, len)))
  {
    hide Step, Run, Reaches, Code, DecodeSym, DistSym, DistExtra, Copy, Pow2, ReadBits, Val, Usable;
    var sym, e := DistSym(d), DistExtra(d);
    AtSplit(s, a.pos, CodeBits(a.dist, sym), BitsOf(d % Pow2(e), e));
    AtCode(a.dist, sym, s, a.pos);
    DistanceRoundTrip(d);
    var b := a.(pc := DistBits(len, sym), pos := a.pos + a.dist[sym]);
    AtNumber(s, b.pos, d % Pow2(e), e);
    var c := b.(pc := CopyMatch(len, d + 1), pos := b.pos + e);
    DistSteps(s, a, b, c, sym, len);
    ReachStep(s, a, b);
    ReachStep(s, b, c);
    ReachTrans(s, a, b, c);
    CopyRun(s, c, len, d + 1);
    ReachTrans(s, a, c, c.(pc := Sym, out := Copy(c.out, d + 1, len)));
  }

  lemma DistSteps(s: bits, a: State, b: State, c: State, sym: nat, len: nat)
    requires a.pc == DistCode(len) && sym <= 29 && sym < |a.dist|
    requires DecodeSym(a.dist, s, a.pos) == Some(sym)
    requires b == a.(pc := DistBits(len, sym), pos := a.pos + a.dist[sym])
    requires ReadBits(s, b.pos, DIST_EXTRA[sym]).Some?
    requires DIST_BASE[sym] + ReadBits(s, b.pos, DIST_EXTRA[sym]).value <= |a.out|
    requires c == b.(pos := b.pos + DIST_EXTRA[sym],
                     pc := CopyMatch(len, DIST_BASE[sym] + ReadBits(s, b.pos, DIST_EXTRA[sym]).value))
    ensures Step(s, a) == Some(b) && Step(s, b) == Some(c)
  {
    hide Canonical.CodeAt, Canonical.DecodeSym, ReadBits, Between, Val;
    assert StepDistCode(s, a, len) == Some(b);
    assert StepDistBits(s, b, len, sym) == Some(c);
  }

  /** One token: its bits are read back as its meaning. */
  lemma TokRun(s: bits, a: State, t: Token)
    requires a.pc == Sym && Usable(a.lit) && Usable(a.dist) && Coded(a.lit, a.dist, t)
    requires At(s, a.pos, TokBits(a.lit, a.dist, t)) && Apply(a.out, t).Some?
    ensures Reaches(s, a, a.(pos := a.pos + |TokBits(a.lit, a.dist, t)|, out := Apply(a.out, t).value))
  {
    hide Step, Usable, LenSym, DistSym, LenPart, DistPart, Reaches;
    match t
    case Lit(c) =>
      LitRun(s, a, c);
    case Match(len, d) =>
      var l := len - MIN_MATCH;
      AtSplit(s, a.pos, LenPart(a.lit, l), DistPart(a.dist, d - 1));
      LenRun(s, a, l);
      var b := a.(pos := a.pos + |LenPart(a.lit, l)|, pc := DistCode(len));
      DistRun(s, b, d - 1, len);
      ReachTrans(s, a, b, b.(pos := b.pos + |DistPart(a.dist, d - 1)|, pc := Sym, out := Copy(a.out, d, len)));
  }

  lemma {:induction false} ToksRun(s: bits, a: State, toks: seq<Token>)
    requires a.pc == Sym && Usable(a.lit) && Usable(a.dist) && AllCoded(a.lit, a.dist, toks)
    requires At(s, a.pos, ToksBits(a.lit, a.dist, toks)) && Expand(a.out, toks).Some?
    ensures Reaches(s, a, a.(pos := a.pos + |ToksBits(a.lit, a.dist, toks)|, out := Expand(a.out, toks).value))
    decreases |toks|
  {
    hide Step, Usable, Coded, TokBits, Apply;
    if toks == [] {
      ReachSelf(s, a);
    } else {
      var init, t := toks[..|toks| - 1], toks[|toks| - 1];
      AtSplit(s, a.pos, ToksBits(a.lit, a.dist, init), TokBits(a.lit, a.dist, t));
      ToksRun(s, a, init);
      var b := a.(pos := a.pos + |ToksBits(a.lit, a.dist, init)|, out := Expand(a.out, init).value);
      TokRun(s, b, t);
      ReachTrans(s, a, b, b.(pos := b.pos + |TokBits(a.lit, a.dist, t)|, out := Apply(b.out, t).value));
    }
  }

  lemma EndRun(s: bits, a: State)
    requires a.pc == Sym && Usable(a.lit) && |a.lit| > 256 && a.lit[256] > 0
    requires At(s, a.pos, CodeBits(a.lit, 256))
    ensures Reaches(s, a, Between(a.mode, a.final, a.pos + a.lit[256], a.out))
  {
    AtCode(a.lit, 256, s, a.pos);
    var b := Between(a.mode, a.final, a.pos + a.lit[256], a.out);
    assert StepSym(s, a) == Some(b);
    ReachStep(s, a, b);
  }

  lemma BodyRun(s: bits, a: State, toks: seq<Token>)
    requires a.pc == Sym && Usable(a.lit) && Usable(a.dist) && AllCoded(a.lit, a.dist, toks)
    requires |a.lit| > 256 && a.lit[256] > 0
    requires At(s, a.pos, BodyBits(a.lit, a.dist, toks)) && Expand(a.out, toks).Some?
    ensures Reaches(s, a, Between(a.mode, a.final, a.pos + |BodyBits(a.lit, a.dist, toks)|, Expand(a.out, toks).value))
  {
    hide Step, Run, Reaches, Usable, Coded, Expand, Code;
    AtSplit(s, a.pos, ToksBits(a.lit, a.dist, toks), CodeBits(a.lit, 256));
    ToksRun(s, a, toks);
    var b := a.(pos := a.pos + |ToksBits(a.lit, a.dist, toks)|, out := Expand(a.out, toks).value);
    EndRun(s, b);
    ReachTrans(s, a, b, Between(a.mode, a.final, b.pos + a.lit[256], b.out));
  }

  // ---- Block headers and stored blocks

  lemma HeaderRead(s: bits, pos: nat, final: bool, kind: nat)
    requires kind <= 2 && At(s, pos, HeaderBits(final, kind))
    ensures ReadBits(s, pos, 3) == Some(2 * kind + BitVal(final))
  {
    var w := HeaderBits(final, kind);
    assert w[0] == final && w[1..] == BitsOf(kind, 2);
    Pow2Table();
    ValBitsOf(kind, 2);
  }

  lemma FixedHeaderRun(s: bits, a: State, final: bool)
    requires a.pc == Header && At(s, a.pos, HeaderBits(final, 1))
    ensures Reaches(s, a, a.(pos := a.pos + 3, final := final, pc := Sym, lit := FixedLit(), dist := FixedDist()))
  {
    HeaderRead(s, a.pos, final, 1);
    var b := a.(pos := a.pos + 3, final := final, pc := Sym, lit := FixedLit(), dist := FixedDist());
    assert StepHeader(s, a) == Some(b);
    ReachStep(s, a, b);
  }

  /** A block whose header `h` has set up the codes. */
  lemma BlockRun(s: bits, a: State, b: State, h: bits, toks: seq<Token>)
    requires Reaches(s, a, b) && b.pc == Sym && b.pos == a.pos + |h| && b.out == a.out && b.mode == a.mode
    requires Usable(b.lit) && Usable(b.dist) && AllCoded(b.lit, b.dist, toks)
    requires |b.lit| > 256 && b.lit[256] > 0
    requires At(s, a.pos, h + BodyBits(b.lit, b.dist, toks)) && Expand(a.out, toks).Some?
    ensures Reaches(s, a,
      Between(a.mode, b.final, a.pos + |h| + |BodyBits(b.lit, b.dist, toks)|, Expand(a.out, toks).value))
  {
    hide Step, Run, Reaches, Usable, Coded, Expand, BodyBits;
    AtSplit(s, a.pos, h, BodyBits(b.lit, b.dist, toks));
    BodyRun(s, b, toks);
    ReachTrans(s, a, b, Between(a.mode, b.final, b.pos + |BodyBits(b.lit, b.dist, toks)|, Expand(a.out, toks).value));
  }

  lemma FixedRun(s: bits, a: State, final: bool, toks: seq<Token>)
    requires a.pc == Header && AllCoded(FixedLit(), FixedDist(), toks) && |FixedLit()| > 256
    requires At(s, a.pos, FixedBits(final, toks)) && Expand(a.out, toks).Some?
    ensures Reaches(s, a, Between(a.mode, final, a.pos + |FixedBits(final, toks)|, Expand(a.out, toks).value))
  {
    hide Step, Run, Reaches, FixedLit, FixedDist, Usable, Coded, Expand, BodyBits;
    var lit, dist := FixedLit(), FixedDist();
    FixedUsable();
    var h := HeaderBits(final, 1);
    assert FixedBits(final, toks) == h + BodyBits(lit, dist, toks);
    AtSplit(s, a.pos, h, BodyBits(lit, dist, toks));
    FixedHeaderRun(s, a, final);
    BlockRun(s, a, a.(pos := a.pos + 3, final := final, pc := Sym, lit := lit, dist := dist), h, toks);
  }

  lemma StoredByteRun(s: bits, a: State, left: nat, c: byte)
    requires a.pc == StoredData(left) && At(s, a.pos, BitsOf(c, 8))
    ensures Reaches(s, a, StepEmitStored(a.(pos := a.pos + 8), left, c))
  {
    Pow2Table();
    AtNumber(s, a.pos, c, 8);
    var b := a.(pc := EmitStored(left, c), pos := a.pos + 8);
    assert StepStoredData(s, a, left) == Some(b);
    assert Step(s, a) == Some(b);
    var d := StepEmitStored(b, left, c);
    assert Step(s, b) == Some(d);
    hide Step;
    ReachStep(s, a, b);
    ReachStep(s, b, d);
    ReachTrans(s, a, b, d);
  }

  lemma {:induction false} StoredDataRun(s: bits, a: State, left: nat, data: seq<byte>)
    requires |data| == left > 0 && a.pc == StoredData(left)
    requires At(s, a.pos, ByteBits(data))
    ensures Reaches(s, a, Between(a.mode, a.final, a.pos + 8 * left, a.out + data))
    decreases left
  {
    hide ByteBits, BitsOf, Step, Reaches, Run;
    ByteBitsFirst(data);
    AtSplit(s, a.pos, BitsOf(data[0], 8), ByteBits(data[1..]));
    StoredByteRun(s, a, left, data[0]);
    var b := StepEmitStored(a.(pos := a.pos + 8), left, data[0]);
    if left > 1 {
      StoredDataRun(s, b, left - 1, data[1..]);
      assert b.out + data[1..] == a.out + data;
      ReachTrans(s, a, b, Between(a.mode, a.final, a.pos + 8 * left, a.out + data));
    } else {
      assert a.out + data == a.out + [data[0]];
    }
  }

  lemma StoredLenStep(s: bits, a: State, hdr: seq<nat>, v: nat)
    requires a.pc == StoredLen(hdr) && |hdr| < 3 && v < 256 && At(s, a.pos, BitsOf(v, 8))
    ensures Reaches(s, a, a.(pc := StoredLen(hdr + [v]), pos := a.pos + 8))
  {
    Pow2Table();
    AtNumber(s, a.pos, v, 8);
    assert StepStoredLen(s, a, hdr) == Some(a.(pc := StoredLen(hdr + [v]), pos := a.pos + 8));
    ReachStep(s, a, a.(pc := StoredLen(hdr + [v]), pos := a.pos + 8));
  }

  lemma SplitTwo(v: nat)
    requires v <= 65535
    ensures BitsOf(v, 16) == BitsOf(v % 256, 8) + BitsOf(v / 256, 8)
  {
    Pow2Table();
    BitsOfSplit(v, 8, 8, v / 256, v % 256);
  }

  lemma StoredLenLast(s: bits, a: State, hdr: seq<nat>, v: nat)
    requires a.pc == StoredLen(hdr) && |hdr| == 3 && v < 256 && At(s, a.pos, BitsOf(v, 8))
    requires hdr[0] + 256 * hdr[1] + hdr[2] + 256 * v == 65535
    ensures Reaches(s, a,
      var len, b := hdr[0] + 256 * hdr[1], a.(pos := a.pos + 8);
      if len == 0 then EndBlock(b) else b.(pc := StoredData(len)))
  {
    Pow2Table();
    AtNumber(s, a.pos, v, 8);
    var len, b := hdr[0] + 256 * hdr[1], a.(pos := a.pos + 8);
    var c := if len == 0 then EndBlock(b) else b.(pc := StoredData(len));
    assert StepStoredLen(s, a, hdr) == Some(c);
    ReachStep(s, a, c);
  }

  lemma StoredLenBytes(s: bits, pos: nat, len: nat)
    requires len <= 65535 && At(s, pos, BitsOf(len, 16) + BitsOf(65535 - len, 16))
    ensures At(s, pos, BitsOf(len % 256, 8)) && At(s, pos + 8, BitsOf(len / 256, 8))
    ensures At(s, pos + 16, BitsOf((65535 - len) % 256, 8)) && At(s, pos + 24, BitsOf((65535 - len) / 256, 8))
  {
    hide BitsOf, At;
    var neg := 65535 - len;
    SplitTwo(len);
    SplitTwo(neg);
    AtSplit(s, pos, BitsOf(len, 16), BitsOf(neg, 16));
    AtSplit(s, pos, BitsOf(len % 256, 8), BitsOf(len / 256, 8));
    AtSplit(s, pos + 16, BitsOf(neg % 256, 8), BitsOf(neg / 256, 8));
  }

  lemma StoredLenThree(s: bits, a: State, x0: nat, x1: nat, x2: nat)
    requires a.pc == StoredLen([]) && x0 < 256 && x1 < 256 && x2 < 256
    requires At(s, a.pos, BitsOf(x0, 8)) && At(s, a.pos + 8, BitsOf(x1, 8)) && At(s, a.pos + 16, BitsOf(x2, 8))
    ensures Reaches(s, a, a.(pc := StoredLen([x0, x1, x2]), pos := a.pos + 24))
  {
    hide BitsOf, Step, Reaches, Run, At;
    StoredLenStep(s, a, [], x0);
    var b := a.(pc := StoredLen([x0]), pos := a.pos + 8);
    assert [] + [x0] == [x0];
    StoredLenStep(s, b, [x0], x1);
    var c := a.(pc := StoredLen([x0, x1]), pos := a.pos + 16);
    assert [x0] + [x1] == [x0, x1];
    StoredLenStep(s, c, [x0, x1], x2);
    assert [x0, x1] + [x2] == [x0, x1, x2];
    ReachTrans(s, a, b, c);
    ReachTrans(s, a, c, a.(pc := StoredLen([x0, x1, x2]), pos := a.pos + 24));
  }

  lemma StoredLenRun(s: bits, a: State, len: nat)
    requires a.pc == StoredLen([]) && len <= 65535
    requires At(s, a.pos, BitsOf(len, 16) + BitsOf(65535 - len, 16))
    ensures Reaches(s, a,
      if len == 0 then Between(a.mode, a.final, a.pos + 32, a.out) else a.(pos := a.pos + 32, pc := StoredData(len)))
  {
    hide BitsOf, Step, Reaches, Run, At;
    var neg := 65535 - len;
    var hdr := [len % 256, len / 256, neg % 256];
    StoredLenBytes(s, a.pos, len);
    StoredLenThree(s, a, hdr[0], hdr[1], hdr[2]);
    var d := a.(pc := StoredLen(hdr), pos := a.pos + 24);
    assert hdr[0] + 256 * hdr[1] == len;
    StoredLenLast(s, d, hdr, neg / 256);
    ReachTrans(s, a, d,
      if len == 0 then Between(a.mode, a.final, a.pos + 32, a.out) else a.(pos := a.pos + 32, pc := StoredData(len)));
  }

  lemma StoredHeaderRun(s: bits, a: State, final: bool)
    requires a.pc == Header && At(s, a.pos, HeaderBits(final, 0))
    ensures Reaches(s, a, a.(pos := AlignUp(a.pos + 3), final := final, pc := StoredLen([])))
  {
    HeaderRead(s, a.pos, final, 0);
    var b := a.(pos := AlignUp(a.pos + 3), final := final, pc := StoredLen([]));
    assert StepHeader(s, a) == Some(b);
    ReachStep(s, a, b);
  }

  lemma StoredRun(s: bits, a: State, final: bool, data: seq<byte>)
    requires a.pc == Header && |data| <= 65535
    requires At(s, a.pos, StoredBits(a.pos, final, data))
    ensures Reaches(s, a, Between(a.mode, final, a.pos + |StoredBits(a.pos, final, data)|, a.out + data))
  {
    hide BitsOf, ByteBits, Step, Reaches, Run, At, AlignUp;
    var len := |data|;
    var h, z := HeaderBits(final, 0), Zeros(AlignUp(a.pos + 3) - (a.pos + 3));
    var l1, l2, d := BitsOf(len, 16), BitsOf(65535 - len, 16), ByteBits(data);
    assert StoredBits(a.pos, final, data) == h + (z + ((l1 + l2) + d));
    hide StoredBits, HeaderBits;
    AtSplit(s, a.pos, h, z + ((l1 + l2) + d));
    AtSplit(s, a.pos + 3, z, (l1 + l2) + d);
    AtSplit(s, AlignUp(a.pos + 3), l1 + l2, d);
    StoredHeaderRun(s, a, final);
    var b := a.(pos := AlignUp(a.pos + 3), final := final, pc := StoredLen([]));
    StoredLenRun(s, b, len);
    var e := Between(a.mode, final, b.pos + 32 + 8 * len, a.out + data);
    if len == 0 {
      assert a.out + data == a.out;
    } else {
      var c := b.(pos := b.pos + 32, pc := StoredData(len));
      StoredDataRun(s, c, len, data);
      ReachTrans(s, b, c, e);
    }
    ReachTrans(s, a, b, e);
  }

  // ---- Dynamic blocks

  lemma ItemPlainStep(s: bits, a: State, sizes: seq<nat>, cl: seq<nat>, lens: seq<nat>, sym: nat)
    requires a.pc == Lens(sizes, cl, lens) && Usable(cl) && sym < 16 && sym < |cl| && cl[sym] > 0
    requires At(s, a.pos, CodeBits(cl, sym)) && |sizes| == 3
    ensures Step(s, a) == FinishLens(a.(pos := a.pos + cl[sym]), sizes, cl, lens + [sym])
  {
    AtCode(cl, sym, s, a.pos);
    hide DecodeSym, FinishLens, Usable, CodeBits;
    assert Step(s, a) == StepLens(s, a, sizes, cl, lens);
  }

  lemma ItemRepeatStep(s: bits, a: State, sizes: seq<nat>, cl: seq<nat>, lens: seq<nat>, sym: nat)
    requires a.pc == Lens(sizes, cl, lens) && Usable(cl) && 16 <= sym < |cl| && cl[sym] > 0
    requires At(s, a.pos, CodeBits(cl, sym)) && (sym == 16 ==> lens != [])
    ensures Step(s, a) == Some(a.(pos := a.pos + cl[sym], pc := LensRepeat(sizes, cl, lens, sym)))
  {
    AtCode(cl, sym, s, a.pos);
    hide DecodeSym, FinishLens, Usable, CodeBits;
    assert Step(s, a) == StepLens(s, a, sizes, cl, lens);
  }

  lemma ItemCountStep(s: bits, a: State, sizes: seq<nat>, cl: seq<nat>, lens: seq<nat>, it: Item)
    requires a.pc == LensRepeat(sizes, cl, lens, it.sym) && 16 <= it.sym
    requires it.extra < Pow2(RepeatBits(it.sym)) && At(s, a.pos, BitsOf(it.extra, RepeatBits(it.sym)))
    ensures Step(s, a) == FinishLens(a.(pos := a.pos + RepeatBits(it.sym)), sizes, cl,
                                     Repeated(lens, it.sym, it.extra + RepeatBase(it.sym)))
  {
    AtNumber(s, a.pos, it.extra, RepeatBits(it.sym));
    hide FinishLens, Usable, Repeated, BitsOf, ReadBits;
    assert Step(s, a) == StepLensRepeat(s, a, sizes, cl, lens, it.sym);
  }

  /** One item of the run-length coded lengths. */
  lemma ItemRun(s: bits, a: State, sizes: seq<nat>, cl: seq<nat>, lens: seq<nat>, it: Item, b: State)
    requires a.pc == Lens(sizes, cl, lens) && Usable(cl) && ItemOk(cl, it) && |sizes| == 3
    requires At(s, a.pos, ItemBits(cl, it)) && UnpackOne(lens, it).Some?
    requires FinishLens(a.(pos := a.pos + |ItemBits(cl, it)|), sizes, cl, UnpackOne(lens, it).value) == Some(b)
    ensures Reaches(s, a, b)
  {
    hide Step, Reaches, Run, Usable, FinishLens, Repeated, BitsOf, Code;
    if it.sym < 16 {
      assert ItemBits(cl, it) == CodeBits(cl, it.sym);
      ItemPlainStep(s, a, sizes, cl, lens, it.sym);
      ReachStep(s, a, b);
    } else {
      AtSplit(s, a.pos, CodeBits(cl, it.sym), BitsOf(it.extra, RepeatBits(it.sym)));
      ItemRepeatStep(s, a, sizes, cl, lens, it.sym);
      var c := a.(pos := a.pos + cl[it.sym], pc := LensRepeat(sizes, cl, lens, it.sym));
      ReachStep(s, a, c);
      ItemCountStep(s, c, sizes, cl, lens, it);
      FinishLensPc(a, c, sizes, cl, it, lens);
      ReachStep(s, c, b);
      ReachTrans(s, a, c, b);
    }
  }

  lemma FinishLensPc(a: State, c: State, sizes: seq<nat>, cl: seq<nat>, it: Item, lens: seq<nat>)
    requires a.pc.Lens? && c == a.(pos := c.pos, pc := c.pc)
    ensures forall pos: nat, ls :: FinishLens(a.(pos := pos), sizes, cl, ls).Some? ==>
      FinishLens(a.(pos := pos), sizes, cl, ls) == FinishLens(c.(pos := pos), sizes, cl, ls)
  {
    hide Usable;
  }

  lemma UnpackInit(items: seq<Item>)
    requires items != [] && Unpack(items).Some?
    ensures Unpack(items[..|items| - 1]).Some?
    ensures UnpackOne(Unpack(items[..|items| - 1]).value, items[|items| - 1]) == Unpack(items)
    ensures |Unpack(items[..|items| - 1]).value| < |Unpack(items).value|
  {
  }

  /** A proper part of the code lengths. */
  lemma {:induction false} ItemsRun(s: bits, a: State, sizes: seq<nat>, cl: seq<nat>, items: seq<Item>)
    requires a.pc == Lens(sizes, cl, []) && Usable(cl) && ItemsOk(cl, items) && |sizes| == 3
    requires At(s, a.pos, ItemsBits(cl, items)) && Unpack(items).Some?
    requires |Unpack(items).value| < sizes[0] + sizes[1]
    ensures Reaches(s, a, a.(pos := a.pos + |ItemsBits(cl, items)|, pc := Lens(sizes, cl, Unpack(items).value)))
    decreases |items|
  {
    hide Step, Reaches, Run, Usable, ItemBits, UnpackOne;
    if items == [] {
      ReachSelf(s, a);
    } else {
      var init, it := items[..|items| - 1], items[|items| - 1];
      UnpackInit(items);
      AtSplit(s, a.pos, ItemsBits(cl, init), ItemBits(cl, it));
      ItemsRun(s, a, sizes, cl, init);
      var b := a.(pos := a.pos + |ItemsBits(cl, init)|, pc := Lens(sizes, cl, Unpack(init).value));
      var c := a.(pos := a.pos + |ItemsBits(cl, items)|, pc := Lens(sizes, cl, Unpack(items).value));
      ItemRun(s, b, sizes, cl, Unpack(init).value, it, c);
      ReachTrans(s, a, b, c);
    }
  }

  lemma LensRun(s: bits, a: State, sizes: seq<nat>, h: Dyn)
    requires h.Ok() && sizes == [|h.lit|, |h.dist|, h.hclen]
    requires a.pc == Lens(sizes, h.cl, []) && At(s, a.pos, ItemsBits(h.cl, h.items))
    ensures Reaches(s, a, a.(pos := a.pos + |ItemsBits(h.cl, h.items)|, pc := Sym, lit := h.lit, dist := h.dist))
  {
    hide Step, Reaches, Run, Usable, ItemBits, UnpackOne;
    var items := h.items;
    var init, it := items[..|items| - 1], items[|items| - 1];
    UnpackInit(items);
    AtSplit(s, a.pos, ItemsBits(h.cl, init), ItemBits(h.cl, it));
    ItemsRun(s, a, sizes, h.cl, init);
    var b := a.(pos := a.pos + |ItemsBits(h.cl, init)|, pc := Lens(sizes, h.cl, Unpack(init).value));
    var c := a.(pos := a.pos + |ItemsBits(h.cl, items)|, pc := Sym, lit := h.lit, dist := h.dist);
    var all := h.lit + h.dist;
    assert all[..|h.lit|] == h.lit && all[|h.lit|..] == h.dist;
    assert FinishLens(b.(pos := c.pos), sizes, h.cl, all) == Some(c);
    ItemRun(s, b, sizes, h.cl, Unpack(init).value, it, c);
    ReachTrans(s, a, b, c);
  }

  /** The code length code when its first `n` lengths, in transmission order, are known. */
  function PartialCl(cl: seq<nat>, n: nat): (c: seq<nat>)
    requires |cl| == 19 && n <= 19
    ensures |c| == 19
  {
    if n == 0 then seq(19, i => 0) else PartialCl(cl, n - 1)[CL_ORDER[n - 1] := cl[CL_ORDER[n - 1]]]
  }

  lemma {:induction false} PartialClAt(cl: seq<nat>, n: nat, j: nat)
    requires |cl| == 19 && n <= 19 && j < 19
    ensures PartialCl(cl, n)[j] == if exists i :: 0 <= i < n && CL_ORDER[i] == j then cl[j] else 0
  {
    if n > 0 {
      PartialClAt(cl, n - 1, j);
    }
  }

  /** Where symbol `j` stands in `CL_ORDER`. */
  function OrderIndex(j: nat): (i: nat)
    requires j < 19
    ensures i < 19 && CL_ORDER[i] == j
  {
    if j == 0 then 3
    else if j >= 16 then j - 16
    else if j >= 8 then 4 + 2 * (j - 8)
    else 19 - 2 * j
  }

  lemma PartialClWhole(cl: seq<nat>, n: nat)
    requires |cl| == 19 && n <= 19
    requires forall i :: n <= i < 19 ==> cl[CL_ORDER[i]] == 0
    ensures PartialCl(cl, n) == cl
  {
    forall j | 0 <= j < 19 ensures PartialCl(cl, n)[j] == cl[j] {
      PartialClAt(cl, n, j);
      var i := OrderIndex(j);
      if i < n { assert exists i :: 0 <= i < n && CL_ORDER[i] == j; }
    }
  }

  lemma ClStep(s: bits, a: State, sizes: seq<nat>, cl: seq<nat>, n: nat)
    requires |sizes| == 3 && |cl| == 19 && Limited(cl, 7) && n < 19
    requires a.pc == ClLens(sizes, n, PartialCl(cl, n)) && At(s, a.pos, BitsOf(cl[CL_ORDER[n]], 3))
    requires n + 1 >= sizes[2] ==> Usable(PartialCl(cl, n + 1))
    ensures Reaches(s, a, a.(pos := a.pos + 3, pc :=
      if n + 1 < sizes[2] then ClLens(sizes, n + 1, PartialCl(cl, n + 1)) else Lens(sizes, PartialCl(cl, n + 1), [])))
  {
    Pow2Table();
    AtNumber(s, a.pos, cl[CL_ORDER[n]], 3);
    hide Usable, ReadBits, BitsOf;
    var b := a.(pos := a.pos + 3, pc :=
      if n + 1 < sizes[2] then ClLens(sizes, n + 1, PartialCl(cl, n + 1)) else Lens(sizes, PartialCl(cl, n + 1), []));
    assert StepClLens(s, a, sizes, n, PartialCl(cl, n)) == Some(b);
    ReachStep(s, a, b);
  }

  lemma {:induction false} ClRun(s: bits, a: State, sizes: seq<nat>, cl: seq<nat>, n: nat)
    requires |sizes| == 3 && |cl| == 19 && Limited(cl, 7) && 0 < n <= sizes[2] <= 19
    requires a.pc == ClLens(sizes, 0, PartialCl(cl, 0)) && At(s, a.pos, ClBits(cl, n))
    requires n == sizes[2] ==> Usable(PartialCl(cl, n))
    ensures Reaches(s, a, a.(pos := a.pos + |ClBits(cl, n)|, pc :=
      if n < sizes[2] then ClLens(sizes, n, PartialCl(cl, n)) else Lens(sizes, PartialCl(cl, n), [])))
    decreases n
  {
    hide Step, Reaches, Run, Usable, PartialCl, BitsOf;
    AtSplit(s, a.pos, ClBits(cl, n - 1), BitsOf(cl[CL_ORDER[n - 1]], 3));
    if n == 1 {
      assert ClBits(cl, 0) == [];
      ClStep(s, a, sizes, cl, 0);
    } else {
      ClRun(s, a, sizes, cl, n - 1);
      var b := a.(pos := a.pos + |ClBits(cl, n - 1)|, pc := ClLens(sizes, n - 1, PartialCl(cl, n - 1)));
      ClStep(s, b, sizes, cl, n - 1);
      ReachTrans(s, a, b, a.(pos := a.pos + |ClBits(cl, n)|, pc :=
        if n < sizes[2] then ClLens(sizes, n, PartialCl(cl, n)) else Lens(sizes, PartialCl(cl, n), [])));
    }
  }

  lemma SizeStep(s: bits, a: State, sizes: seq<nat>, v: nat)
    requires |sizes| < 3 && a.pc == Sizes(sizes) && v >= MIN_SIZES[|sizes|]
    requires v - MIN_SIZES[|sizes|] < Pow2(SIZE_BITS[|sizes|])
    requires At(s, a.pos, BitsOf(v - MIN_SIZES[|sizes|], SIZE_BITS[|sizes|]))
    ensures Reaches(s, a, a.(pos := a.pos + SIZE_BITS[|sizes|], pc :=
      if |sizes| < 2 then Sizes(sizes + [v]) else ClLens(sizes + [v], 0, seq(19, i => 0))))
  {
    hide ReadBits, BitsOf, Pow2, Val, Run;
    var i := |sizes|;
    AtNumber(s, a.pos, v - MIN_SIZES[i], SIZE_BITS[i]);
    var b := a.(pos := a.pos + SIZE_BITS[|sizes|], pc :=
      if |sizes| < 2 then Sizes(sizes + [v]) else ClLens(sizes + [v], 0, seq(19, i => 0)));
    assert StepSizes(s, a, sizes) == Some(b);
    assert Step(s, a) == Some(b);
    hide Step, StepSizes;
    ReachStep(s, a, b);
  }

  lemma SizesRun(s: bits, a: State, x: nat, y: nat, z: nat, cl: seq<nat>)
    requires a.pc == Sizes([]) && 257 <= x <= 288 && 1 <= y <= 32 && 4 <= z <= 19 && |cl| == 19
    requires At(s, a.pos, BitsOf(x - 257, 5) + (BitsOf(y - 1, 5) + BitsOf(z - 4, 4)))
    ensures Reaches(s, a, a.(pos := a.pos + 14, pc := ClLens([x, y, z], 0, PartialCl(cl, 0))))
  {
    hide Step, Reaches, Run, BitsOf, At, Pow2;
    Pow2Table();
    AtSplit(s, a.pos, BitsOf(x - 257, 5), BitsOf(y - 1, 5) + BitsOf(z - 4, 4));
    AtSplit(s, a.pos + 5, BitsOf(y - 1, 5), BitsOf(z - 4, 4));
    SizeStep(s, a, [], x);
    assert [] + [x] == [x];
    var b := a.(pos := a.pos + 5, pc := Sizes([x]));
    SizeStep(s, b, [x], y);
    assert [x] + [y] == [x, y];
    var c := a.(pos := a.pos + 10, pc := Sizes([x, y]));
    SizeStep(s, c, [x, y], z);
    assert [x, y] + [z] == [x, y, z];
    var d := a.(pos := a.pos + 14, pc := ClLens([x, y, z], 0, PartialCl(cl, 0)));
    ReachTrans(s, a, b, c);
    ReachTrans(s, a, c, d);
  }

  lemma Regroup(x: bits, y: bits, z: bits, c: bits, d: bits)
    ensures x + y + z + c + d == (x + (y + z)) + (c + d)
  {
  }

  /** The whole dynamic header: both codes arrive as they were sent. */
  lemma DynHeaderRun(s: bits, a: State, h: Dyn)
    requires a.pc == Sizes([]) && h.Ok() && At(s, a.pos, DynHeader(h))
    ensures Reaches(s, a, a.(pos := a.pos + |DynHeader(h)|, pc := Sym, lit := h.lit, dist := h.dist))
  {
    hide Step, Reaches, Run, Usable, BitsOf, ItemOk, Unpack, PartialCl, ClBits, ItemsBits;
    var sizes := [|h.lit|, |h.dist|, h.hclen];
    var x, y, z := BitsOf(|h.lit| - 257, 5), BitsOf(|h.dist| - 1, 5), BitsOf(h.hclen - 4, 4);
    var c, it := ClBits(h.cl, h.hclen), ItemsBits(h.cl, h.items);
    Regroup(x, y, z, c, it);
    AtSplit(s, a.pos, x + (y + z), c + it);
    AtSplit(s, a.pos + 14, c, it);
    PartialClWhole(h.cl, h.hclen);
    SizesRun(s, a, |h.lit|, |h.dist|, h.hclen, h.cl);
    var b := a.(pos := a.pos + 14, pc := ClLens(sizes, 0, PartialCl(h.cl, 0)));
    ClRun(s, b, sizes, h.cl, h.hclen);
    var d := b.(pos := b.pos + |c|, pc := Lens(sizes, h.cl, []));
    LensRun(s, d, sizes, h);
    var e := a.(pos := d.pos + |it|, pc := Sym, lit := h.lit, dist := h.dist);
    ReachTrans(s, a, b, d);
    ReachTrans(s, a, d, e);
  }

  lemma DynamicHeaderRun(s: bits, a: State, final: bool)
    requires a.pc == Header && At(s, a.pos, HeaderBits(final, 2))
    ensures Reaches(s, a, a.(pos := a.pos + 3, final := final, pc := Sizes([])))
  {
    HeaderRead(s, a.pos, final, 2);
    var b := a.(pos := a.pos + 3, final := final, pc := Sizes([]));
    assert StepHeader(s, a) == Some(b);
    ReachStep(s, a, b);
  }

  lemma DynamicRun(s: bits, a: State, final: bool, h: Dyn, toks: seq<Token>)
    requires a.pc == Header && h.Ok() && h.lit[256] > 0 && AllCoded(h.lit, h.dist, toks)
    requires At(s, a.pos, DynamicBits(final, h, toks)) && Expand(a.out, toks).Some?
    ensures Reaches(s, a, Between(a.mode, final, a.pos + |DynamicBits(final, h, toks)|, Expand(a.out, toks).value))
  {
    hide Step, Reaches, Run, Usable, DynHeader, BodyBits, Coded, Expand;
    var k, d, b := HeaderBits(final, 2), DynHeader(h), BodyBits(h.lit, h.dist, toks);
    assert DynamicBits(final, h, toks) == k + (d + b) == (k + d) + b;
    AtSplit(s, a.pos, k, d + b);
    AtSplit(s, a.pos + 3, d, b);
    DynamicHeaderRun(s, a, final);
    var c := a.(pos := a.pos + 3, final := final, pc := Sizes([]));
    DynHeaderRun(s, c, h);
    var e := c.(pos := c.pos + |d|, pc := Sym, lit := h.lit, dist := h.dist);
    ReachTrans(s, a, c, e);
    BlockRun(s, a, e, k + d, toks);
  }

  // ---- The zlib header and trailer

  /** The header of a zlib stream: deflate with a 32 KB window, no preset dictionary. */
  const ZLIB_HEAD: seq<byte> := [0x78, 0x01]

  function BigEndian(x: nat): (r: seq<byte>)
    requires x < 0x1_0000_0000
    ensures |r| == 4
  {
    [x / 0x100_0000, x / 0x1_0000 % 256, x / 256 % 256, x % 256]
  }

  lemma Within(s: bits, pos: nat, n: nat, i: nat, k: nat)
    requires pos + n <= |s| && i + k <= n
    ensures s[pos..pos + n][i..i + k] == s[pos + i..pos + i + k]
  {
    var w, u := s[pos..pos + n], s[pos..pos + n][i..i + k];
    assert forall j :: 0 <= j < k ==> u[j] == w[i + j];
  }

  /** The bytes stand one after the other. */
  lemma {:induction false} AtByte(s: bits, pos: nat, data: seq<byte>, i: nat)
    requires At(s, pos, ByteBits(data)) && i < |data|
    ensures ReadBits(s, pos + 8 * i, 8) == Some(data[i] as nat)
  {
    hide ByteBits, BitsOf, Val;
    ByteBitsAt(data, i);
    Pow2Table();
    ValBitsOf(data[i], 8);
    Within(s, pos, 8 * |data|, 8 * i, 8);
  }

  lemma ZlibHeadRun(s: bits, m: Mode)
    requires m.zlib && m.limit >= DICT_SIZE && At(s, 0, ByteBits(ZLIB_HEAD))
    ensures Reaches(s, Start(m), Between(m, false, 16, []))
  {
    hide ByteBits, ReadBits;
    Pow2Table();
    AtByte(s, 0, ZLIB_HEAD, 0);
    AtByte(s, 0, ZLIB_HEAD, 1);
    var a, c := Start(m), Between(m, false, 16, []);
    var b := a.(pc := ZlibHeader([0x78]), pos := 8);
    assert Step(s, a) == Some(b);
    assert Step(s, b) == Some(c);
    ReachStep(s, a, b);
    ReachStep(s, b, c);
    ReachTrans(s, a, b, c);
  }

  lemma TrailerStep(s: bits, a: State, n: nat, sum: nat, v: nat)
    requires a.pc == Trailer(n, sum) && n < 3 && ReadBits(s, a.pos, 8) == Some(v)
    ensures Reaches(s, a, a.(pc := Trailer(n + 1, 256 * sum + v), pos := a.pos + 8))
  {
    ReachStep(s, a, a.(pc := Trailer(n + 1, 256 * sum + v), pos := a.pos + 8));
  }

  lemma TrailerLast(s: bits, a: State, sum: nat, v: nat)
    requires a.pc == Trailer(3, sum) && ReadBits(s, a.pos, 8) == Some(v) && 256 * sum + v == Adler(1, a.out) as nat
    ensures Reaches(s, a, a.(pc := Done, pos := a.pos + 8))
  {
    hide Adler, ReadBits;
    ReachStep(s, a, a.(pc := Done, pos := a.pos + 8));
  }

  lemma BytesOf(x: nat)
    requires x < 0x1_0000_0000
    ensures
      var d := BigEndian(x);
      256 * (256 * (256 * d[0] as nat + d[1]) + d[2]) + d[3] == x
  {
    var y, z := x / 256, x / 0x1_0000;
    assert x == 256 * y + x % 256 && y == 256 * z + y % 256 && z == x / 0x100_0000 * 256 + z % 256;
  }

  /** The checksum of the output, at the next byte boundary, ends a zlib stream. */
  lemma TrailerRun(s: bits, m: Mode, pos: nat, out: seq<byte>)
    requires m.zlib && At(s, AlignUp(pos), ByteBits(BigEndian(Adler(1, out) as nat)))
    ensures Reaches(s, Between(m, true, pos, out), Ended(m, AlignUp(pos) + 32, out))
  {
    hide ByteBits, ReadBits, Step, Run, Reaches, Adler, AlignUp, BigEndian, At;
    var x, p := Adler(1, out) as nat, AlignUp(pos);
    var d := BigEndian(x);
    TrailerBytes(s, p, x);
    var a := Between(m, true, pos, out);
    var b := a.(pc := Trailer(0, 0), pos := p);
    TrailerStart(s, a);
    TrailerSteps(s, b, d[0] as nat, d[1] as nat, d[2] as nat, d[3] as nat);
    ReachTrans(s, a, b, Ended(m, p + 32, out));
  }

  lemma TrailerStart(s: bits, a: State)
    requires a.pc.LastBlockDone? && a.mode.zlib
    ensures Reaches(s, a, a.(pc := Trailer(0, 0), pos := AlignUp(a.pos)))
  {
    hide Run, Reaches, AlignUp;
    ReachStep(s, a, a.(pc := Trailer(0, 0), pos := AlignUp(a.pos)));
  }

  lemma TrailerBytes(s: bits, p: nat, x: nat)
    requires x < 0x1_0000_0000 && At(s, p, ByteBits(BigEndian(x)))
    ensures
      var d := BigEndian(x);
      && |d| == 4 && 256 * (256 * (256 * d[0] as nat + d[1] as nat) + d[2] as nat) + d[3] as nat == x
      && ReadBits(s, p, 8) == Some(d[0] as nat) && ReadBits(s, p + 8, 8) == Some(d[1] as nat)
      && ReadBits(s, p + 16, 8) == Some(d[2] as nat) && ReadBits(s, p + 24, 8) == Some(d[3] as nat)
  {
    var d := BigEndian(x);
    BytesOf(x);
    hide ByteBits, ReadBits, BigEndian;
    AtByte(s, p, d, 0);
    AtByte(s, p, d, 1);
    AtByte(s, p, d, 2);
    AtByte(s, p, d, 3);
  }

  lemma TrailerSteps(s: bits, b: State, x0: nat, x1: nat, x2: nat, x3: nat)
    requires b.pc == Trailer(0, 0) && ReadBits(s, b.pos, 8) == Some(x0) && ReadBits(s, b.pos + 8, 8) == Some(x1)
    requires ReadBits(s, b.pos + 16, 8) == Some(x2) && ReadBits(s, b.pos + 24, 8) == Some(x3)
    requires 256 * (256 * (256 * x0 + x1) + x2) + x3 == Adler(1, b.out) as nat
    ensures Reaches(s, b, b.(pc := Done, pos := b.pos + 32))
  {
    hide ReadBits, Step, Run, Reaches, Adler;
    TrailerStep(s, b, 0, 0, x0);
    var c := b.(pc := Trailer(1, x0), pos := b.pos + 8);
    TrailerStep(s, c, 1, x0, x1);
    var e := b.(pc := Trailer(2, 256 * x0 + x1), pos := b.pos + 16);
    TrailerStep(s, e, 2, 256 * x0 + x1, x2);
    var f := b.(pc := Trailer(3, 256 * (256 * x0 + x1) + x2), pos := b.pos + 24);
    TrailerLast(s, f, 256 * (256 * x0 + x1) + x2, x3);
    ReachTrans(s, b, c, e);
    ReachTrans(s, b, e, f);
    ReachTrans(s, b, f, b.(pc := Done, pos := b.pos + 32));
  }

  /** A raw stream ends with its last block. */
  lemma RawEndRun(s: bits, m: Mode, pos: nat, out: seq<byte>)
    requires !m.zlib
    ensures Reaches(s, Between(m, true, pos, out), Ended(m, pos, out))
  {
    ReachStep(s, Between(m, true, pos, out), Ended(m, pos, out));
  }
}
