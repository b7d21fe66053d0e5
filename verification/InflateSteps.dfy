/** What each step of the stream machine asks for, seen from the state it starts in. */
module InflateSteps {
  import opened Bits
  import opened Canonical
  import opened Tokens
  import opened InflateSpec
  import opened Checksums

  /** A run that ends has a first step, unless it is at its end. */
  lemma FirstStep(s: bits, a: State, n: nat, goal: State)
    requires Run(s, a, n) == Some(goal) && Terminal(goal.pc)
    ensures Terminal(a.pc) ==> a == goal
    ensures !Terminal(a.pc) ==> n > 0 && Step(s, a).Some? && Run(s, Step(s, a).value, n - 1) == Some(goal)
  {
    TerminalStops(s, a);
    hide Step;
  }

  // ---- A run from the start of the stream to its end

  /** `a` is where the run of `total` steps from the start to `goal` has `fuel` steps left. */
  ghost predicate OnCourse(s: bits, m: Mode, total: nat, a: State, fuel: nat, goal: State) {
    && fuel <= total && Run(s, Start(m), total - fuel) == Some(a)
    && Run(s, a, fuel) == Some(goal) && Terminal(goal.pc)
  }

  lemma CourseBegins(s: bits, m: Mode, total: nat, goal: State)
    requires Run(s, Start(m), total) == Some(goal) && Terminal(goal.pc)
    ensures OnCourse(s, m, total, Start(m), total, goal)
  {
    hide Step;
  }

  /** The next step stays on course; there is one unless the run is at its end. */
  lemma CourseStep(s: bits, m: Mode, total: nat, a: State, fuel: nat, goal: State)
    requires OnCourse(s, m, total, a, fuel, goal)
    ensures Terminal(a.pc) ==> a == goal
    ensures !Terminal(a.pc) ==> fuel > 0 && Step(s, a).Some? && OnCourse(s, m, total, Step(s, a).value, fuel - 1, goal)
  {
    hide Step, Run;
    FirstStep(s, a, fuel, goal);
    if !Terminal(a.pc) {
      var k: nat := total - fuel;
      RunAdd(s, Start(m), k, 1);
      RunOne(s, a);
      assert total - (fuel - 1) == k + 1;
    }
  }

  lemma RunOne(s: bits, a: State)
    requires Step(s, a).Some?
    ensures Run(s, a, 1) == Step(s, a)
  {
    hide Step;
    assert Run(s, Step(s, a).value, 0) == Step(s, a);
  }

  /** After a literal comes another symbol. */
  lemma AfterLiteral(s: bits, m: Mode, total: nat, a: State, n: nat, goal: State)
    requires OnCourse(s, m, total, a, n, goal)
    requires a.pc.Sym? && Step(s, a).Some? && Step(s, a).value.pc.EmitLit?
    ensures
      var b := Step(s, a).value;
      var c := b.(pc := Sym, out := b.out + [b.pc.b]);
      n >= 3 && Step(s, c).Some? && OnCourse(s, m, total, Step(s, c).value, n - 3, goal)
  {
    hide OnCourse;
    CourseStep(s, m, total, a, n, goal);
    var b := Step(s, a).value;
    CourseStep(s, m, total, b, n - 1, goal);
    ViewEmitLit(s, b);
    CourseStep(s, m, total, b.(pc := Sym, out := b.out + [b.pc.b]), n - 2, goal);
  }

  lemma ModeStays(s: bits, a: State)
    requires Step(s, a).Some?
    ensures Step(s, a).value.mode == a.mode
  {
    hide Usable, DecodeSym, ReadBits;
  }

  lemma {:induction false} RunMode(s: bits, a: State, n: nat)
    requires Run(s, a, n).Some?
    ensures Run(s, a, n).value.mode == a.mode
    decreases n
  {
    if n > 0 {
      ModeStays(s, a);
      hide Step;
      RunMode(s, Step(s, a).value, n - 1);
    }
  }

  lemma CourseMode(s: bits, m: Mode, total: nat, a: State, fuel: nat, goal: State)
    requires OnCourse(s, m, total, a, fuel, goal)
    ensures a.mode == m
  {
    hide Step, Run;
    RunMode(s, Start(m), total - fuel);
  }

  lemma OutGrows(s: bits, a: State)
    requires Step(s, a).Some?
    ensures a.out <= Step(s, a).value.out
  {
    hide Usable, DecodeSym, ReadBits, FixedLit, FixedDist, Adler, AlignUp, HeaderBad, Repeated, RepeatBase;
  }

  /** The output of a run never shrinks. */
  lemma {:induction false} RunGrows(s: bits, a: State, n: nat, goal: State)
    requires Run(s, a, n) == Some(goal)
    ensures a.out <= goal.out
    decreases n
  {
    if n > 0 {
      OutGrows(s, a);
      hide Step;
      RunGrows(s, Step(s, a).value, n - 1, goal);
    }
  }

  /** Whatever comes next, a byte is put out first. */
  predicate Emits(pc: Pc) {
    pc.EmitLit? || pc.EmitStored? || pc.StoredData? || (pc.CopyMatch? && pc.left > 0)
  }

  lemma MoreToCome(s: bits, a: State, n: nat, goal: State)
    requires Run(s, a, n) == Some(goal) && Terminal(goal.pc) && Emits(a.pc)
    ensures |a.out| < |goal.out|
  {
    FirstStep(s, a, n, goal);
    var b := Step(s, a).value;
    RunGrows(s, b, n - 1, goal);
    if a.pc.StoredData? {
      ViewStoredData(s, a);
      FirstStep(s, b, n - 1, goal);
      ViewEmitStored(s, b);
      RunGrows(s, Step(s, b).value, n - 2, goal);
    } else if a.pc.EmitStored? {
      ViewEmitStored(s, a);
    }
  }

  lemma ViewZlibHeader(s: bits, a: State)
    requires a.pc.ZlibHeader? && Step(s, a).Some?
    ensures a.pos + 8 <= |s| && ReadBits(s, a.pos, 8).Some?
    ensures
      var v, b := ReadBits(s, a.pos, 8).value, Step(s, a).value;
      && b.pos == a.pos + 8 && b.final == a.final && b.out == a.out
      && b.pc == (if a.pc.hdr == [] then ZlibHeader([v])
                  else if HeaderBad(a.pc.hdr[0], v, a.mode.limit) then Failed else Header)
    ensures Needed(a.pc) == 8
  {
    hide Val;
  }

  lemma ViewLastBlockDone(s: bits, a: State)
    requires a.pc.LastBlockDone?
    ensures Step(s, a) == Some(if a.mode.zlib then a.(pc := Trailer(0, 0), pos := AlignUp(a.pos)) else a.(pc := Done))
  {
  }

  lemma ViewTrailer(s: bits, a: State)
    requires a.pc.Trailer? && Step(s, a).Some?
    ensures a.pos + 8 <= |s| && ReadBits(s, a.pos, 8).Some? && ReadBits(s, a.pos, 8).value < 256
    ensures
      var t := 256 * a.pc.sum + ReadBits(s, a.pos, 8).value;
      Step(s, a) == Some(a.(pos := a.pos + 8,
        pc := if a.pc.n < 3 then Trailer(a.pc.n + 1, t) else if t == Adler(1, a.out) as nat then Done else Mismatch))
    ensures Needed(a.pc) == 8
  {
    Pow2Table();
    ValBound(s[a.pos..a.pos + 8]);
    hide Val, Pow2, Adler;
  }

  lemma ViewHeader(s: bits, a: State)
    requires a.pc.Header? && Step(s, a).Some?
    ensures a.pos + 3 <= |s| && ReadBits(s, a.pos, 3).Some? && ReadBits(s, a.pos, 3).value < 8
    ensures
      var v, b := ReadBits(s, a.pos, 3).value, Step(s, a).value;
      var kind := v / 2;
      && b.final == (v % 2 == 1) && b.out == a.out
      && b.pos == (if kind == 0 then AlignUp(a.pos + 3) else a.pos + 3)
      && b.pc == (if kind == 0 then StoredLen([])
                  else if kind == 1 then Sym
                  else if kind == 2 then Sizes([]) else Failed)
      && (kind == 1 ==> b.lit == FixedLit() && b.dist == FixedDist())
    ensures Needed(a.pc) == 3
  {
    Pow2Table();
    ValBound(s[a.pos..a.pos + 3]);
    hide Val, AlignUp, FixedLit, FixedDist, Pow2;
  }

  lemma ViewStoredLen(s: bits, a: State)
    requires a.pc.StoredLen? && |a.pc.hdr| < 4 && Step(s, a).Some?
    ensures a.pos + 8 <= |s| && ReadBits(s, a.pos, 8).Some?
    ensures
      var b, h := Step(s, a).value, a.pc.hdr + [ReadBits(s, a.pos, 8).value];
      var len := h[0] + if |h| > 1 then 256 * h[1] else 0;
      && b.pos == a.pos + 8 && b.final == a.final && b.out == a.out
      && (if |h| < 4 then b.pc == StoredLen(h)
          else if len + h[2] + 256 * h[3] != 65535 then b.pc == Failed
          else if len == 0 then b.pc == (if a.final then LastBlockDone else Header)
          else b.pc == StoredData(len))
    ensures Needed(a.pc) == 8
  {
    hide Val;
  }

  lemma ViewStoredData(s: bits, a: State)
    requires a.pc.StoredData? && Step(s, a).Some?
    ensures a.pos + 8 <= |s| && ReadBits(s, a.pos, 8).Some? && ReadBits(s, a.pos, 8).value < 256
    ensures Step(s, a).value == a.(pc := EmitStored(a.pc.left, ReadBits(s, a.pos, 8).value), pos := a.pos + 8)
    ensures Needed(a.pc) == 8
  {
  }

  lemma ViewEmitStored(s: bits, a: State)
    requires a.pc.EmitStored?
    ensures Step(s, a).Some?
    ensures
      var b := Step(s, a).value;
      && b.pos == a.pos && b.final == a.final && b.out == a.out + [a.pc.b]
      && b.pc == (if a.pc.left <= 1 then (if a.final then LastBlockDone else Header) else StoredData(a.pc.left - 1))
  {
  }

  lemma ViewSizes(s: bits, a: State)
    requires a.pc.Sizes? && Step(s, a).Some?
    ensures |a.pc.sizes| < 3 && a.pos + SIZE_BITS[|a.pc.sizes|] <= |s|
    ensures ReadBits(s, a.pos, SIZE_BITS[|a.pc.sizes|]).Some?
    ensures
      var n, b := SIZE_BITS[|a.pc.sizes|], Step(s, a).value;
      var v := ReadBits(s, a.pos, n).value;
      var t := a.pc.sizes + [v + MIN_SIZES[|a.pc.sizes|]];
      && v < Pow2(n) && b.pos == a.pos + n && b.final == a.final && b.out == a.out
      && b.pc == (if |t| < 3 then Sizes(t) else ClLens(t, 0, seq(19, i => 0)))
    ensures Needed(a.pc) == SIZE_BITS[|a.pc.sizes|]
  {
    ValBound(s[a.pos..a.pos + SIZE_BITS[|a.pc.sizes|]]);
    hide Val;
  }

  lemma ViewClLens(s: bits, a: State)
    requires a.pc.ClLens? && Step(s, a).Some?
    ensures a.pos + 3 <= |s| && ReadBits(s, a.pos, 3).Some? && ReadBits(s, a.pos, 3).value < 8
    ensures |a.pc.sizes| == 3 && |a.pc.cl| == 19 && a.pc.n < 19
    ensures
      var b, c := Step(s, a).value, a.pc.cl[CL_ORDER[a.pc.n] := ReadBits(s, a.pos, 3).value];
      && b.pos == a.pos + 3 && b.final == a.final && b.out == a.out
      && (if a.pc.n + 1 < a.pc.sizes[2] then b.pc == ClLens(a.pc.sizes, a.pc.n + 1, c)
          else if Usable(c) then b.pc == Lens(a.pc.sizes, c, [])
          else b.pc == Failed)
    ensures Needed(a.pc) == 3
  {
    Pow2Table();
    ValBound(s[a.pos..a.pos + 3]);
    hide Usable, Val, Pow2;
  }

  lemma ViewLens(s: bits, a: State)
    requires a.pc.Lens? && Step(s, a).Some?
    ensures
      var d := DecodeSym(a.pc.cl, s, a.pos);
      && d.Some? && CodeAt(a.pc.cl, d.value, s, a.pos)
      && Step(s, a) ==
           (var b := a.(pos := a.pos + a.pc.cl[d.value]);
            if d.value < 16 then FinishLens(b, a.pc.sizes, a.pc.cl, a.pc.lens + [d.value])
            else if d.value == 16 && a.pc.lens == [] then Some(b.(pc := Failed))
            else Some(b.(pc := LensRepeat(a.pc.sizes, a.pc.cl, a.pc.lens, d.value))))
      && Step(s, a).value.pos == a.pos + a.pc.cl[d.value]
      && Step(s, a).value.final == a.final && Step(s, a).value.out == a.out
    ensures CodeRead(a) == a.pc.cl
  {
    hide Usable, CodeAt;
  }

  lemma ViewLensRepeat(s: bits, a: State)
    requires a.pc.LensRepeat? && Step(s, a).Some?
    ensures a.pos + RepeatBits(a.pc.sym) <= |s| && ReadBits(s, a.pos, RepeatBits(a.pc.sym)).Some?
    ensures
      var v := ReadBits(s, a.pos, RepeatBits(a.pc.sym)).value;
      && v < Pow2(RepeatBits(a.pc.sym))
      && Step(s, a) == FinishLens(a.(pos := a.pos + RepeatBits(a.pc.sym)), a.pc.sizes, a.pc.cl,
                                  Repeated(a.pc.lens, a.pc.sym, v + RepeatBase(a.pc.sym)))
      && Step(s, a).value.pos == a.pos + RepeatBits(a.pc.sym)
      && Step(s, a).value.final == a.final && Step(s, a).value.out == a.out
    ensures Needed(a.pc) == RepeatBits(a.pc.sym)
  {
    ValBound(s[a.pos..a.pos + RepeatBits(a.pc.sym)]);
    hide Usable, Val, Pow2, Repeated;
  }

  lemma ViewSym(s: bits, a: State)
    requires a.pc.Sym? && Step(s, a).Some?
    ensures
      var d := DecodeSym(a.lit, s, a.pos);
      d.Some? && d.value <= 285 && CodeAt(a.lit, d.value, s, a.pos) && d.value < |a.lit|
    ensures
      var d, b := DecodeSym(a.lit, s, a.pos).value, Step(s, a).value;
      && b.pos == a.pos + a.lit[d] && b.final == a.final && b.out == a.out
      && b.pc == (if d < 256 then EmitLit(d)
                  else if d == 256 then (if a.final then LastBlockDone else Header)
                  else LenBits(d))
      && (d != 256 ==> b.lit == a.lit && b.dist == a.dist)
    ensures CodeRead(a) == a.lit
  {
    hide CodeBits;
  }

  lemma ViewEmitLit(s: bits, a: State)
    requires a.pc.EmitLit?
    ensures Step(s, a) == Some(a.(pc := Sym, out := a.out + [a.pc.b]))
  {
  }

  lemma ViewLenBits(s: bits, a: State)
    requires a.pc.LenBits? && Step(s, a).Some?
    ensures 257 <= a.pc.sym <= 285 && a.pos + LENGTH_EXTRA[a.pc.sym - 257] <= |s|
    ensures ReadBits(s, a.pos, LENGTH_EXTRA[a.pc.sym - 257]).Some?
    ensures
      var n := LENGTH_EXTRA[a.pc.sym - 257];
      Step(s, a).value
      == a.(pos := a.pos + n, pc := DistCode(LENGTH_BASE[a.pc.sym - 257] + ReadBits(s, a.pos, n).value))
    ensures LENGTH_BASE[a.pc.sym - 257] >= MIN_MATCH
    ensures Needed(a.pc) == LENGTH_EXTRA[a.pc.sym - 257]
  {
    LengthTable(a.pc.sym - 257);
    hide Val;
  }

  lemma ViewDistCode(s: bits, a: State)
    requires a.pc.DistCode? && Step(s, a).Some?
    ensures
      var d := DecodeSym(a.dist, s, a.pos);
      && d.Some? && d.value <= 29 && CodeAt(a.dist, d.value, s, a.pos) && d.value < |a.dist|
      && Step(s, a).value == a.(pos := a.pos + a.dist[d.value], pc := DistBits(a.pc.len, d.value))
    ensures CodeRead(a) == a.dist
  {
    hide CodeBits;
  }

  lemma DistanceBound(sym: nat, v: nat)
    requires sym <= 29 && v < Pow2(DIST_EXTRA[sym])
    ensures 1 <= DIST_BASE[sym] + v <= DICT_SIZE
  {
    DistanceTable(sym);
    DistanceExtraTable(sym);
    Pow2Table();
  }

  lemma ViewDistBits(s: bits, a: State)
    requires a.pc.DistBits? && Step(s, a).Some?
    ensures a.pc.sym <= 29 && a.pos + DIST_EXTRA[a.pc.sym] <= |s|
    ensures ReadBits(s, a.pos, DIST_EXTRA[a.pc.sym]).Some?
    ensures
      var n := DIST_EXTRA[a.pc.sym];
      var dist := DIST_BASE[a.pc.sym] + ReadBits(s, a.pos, n).value;
      && 1 <= dist <= DICT_SIZE
      && Step(s, a).value ==
           a.(pos := a.pos + n, pc := if dist > |a.out| then TooFar else CopyMatch(a.pc.len, dist))
    ensures Needed(a.pc) == DIST_EXTRA[a.pc.sym]
  {
    ValBound(s[a.pos..a.pos + DIST_EXTRA[a.pc.sym]]);
    DistanceBound(a.pc.sym, ReadBits(s, a.pos, DIST_EXTRA[a.pc.sym]).value);
    hide Val;
  }

  lemma ViewCopyMatch(s: bits, a: State)
    requires a.pc.CopyMatch? && 1 <= a.pc.dist <= |a.out|
    ensures Step(s, a) == Some(
      if a.pc.left == 0 then a.(pc := Sym)
      else a.(pc := CopyMatch(a.pc.left - 1, a.pc.dist), out := a.out + [a.out[|a.out| - a.pc.dist]]))
  {
  }

  lemma NoBits(s: bits, pos: nat)
    requires pos <= |s|
    ensures ReadBits(s, pos, 0) == Some(0)
  {
  }

  // ---- What the machine can do with a part of the stream

  /** How many bits the next element takes, where that does not depend on the bits. */
  function Needed(pc: Pc): nat {
    match pc
    case ZlibHeader(_) => 8
    case Header => 3
    case StoredLen(_) => 8
    case StoredData(_) => 8
    case Sizes(sizes) => if |sizes| < 3 then SIZE_BITS[|sizes|] else 0
    case ClLens(_, _, _) => 3
    case LensRepeat(_, _, _, sym) => RepeatBits(sym)
    case LenBits(sym) => if 257 <= sym <= 285 then LENGTH_EXTRA[sym - 257] else 0
    case DistBits(_, sym) => if sym <= 29 then DIST_EXTRA[sym] else 0
    case Trailer(_, _) => 8
    case _ => 0
  }

  /** The code that is read next. */
  function CodeRead(a: State): seq<nat> {
    match a.pc
    case Lens(_, cl, _) => cl
    case Sym => a.lit
    case DistCode(_) => a.dist
    case _ => []
  }

  lemma NeedsBits(s: bits, a: State)
    requires a.pos + Needed(a.pc) > |s| && Needed(a.pc) > 0
    ensures Step(s, a).None?
  {
  }

  lemma NeedsCode(s: bits, a: State)
    requires a.pc.Lens? || a.pc.Sym? || a.pc.DistCode?
    requires DecodeSym(CodeRead(a), s, a.pos).None?
    ensures Step(s, a).None?
  {
    hide DecodeSym, Usable;
  }

  /** A code that is not all there is not decoded. */
  lemma CodeIncomplete(lens: seq<nat>, sym: nat, s: bits, pos: nat, n: nat)
    requires NotOver(lens) && Limited(lens, MAX_BITS) && CodeAt(lens, sym, s, pos)
    requires pos + n <= |s| && n < lens[sym]
    ensures DecodeSym(lens, s[..pos + n], pos).None?
  {
    hide CodeBits;
    var w := s[..pos + n];
    var d := DecodeSym(lens, w, pos);
    if d.Some? {
      assert w[pos..pos + lens[d.value]] == s[pos..pos + lens[d.value]];
      CodeAtUnique(lens, sym, d.value, s, pos);
    }
  }

  /** All codes in use are usable. */
  ghost predicate Decodable(a: State) {
    match a.pc
    case Lens(_, cl, _) => Usable(cl)
    case LensRepeat(_, cl, _, _) => Usable(cl)
    case Sym => Usable(a.lit) && Usable(a.dist)
    case EmitLit(_) => Usable(a.lit) && Usable(a.dist)
    case LenBits(_) => Usable(a.lit) && Usable(a.dist)
    case DistCode(_) => Usable(a.lit) && Usable(a.dist)
    case DistBits(_, _) => Usable(a.lit) && Usable(a.dist)
    case CopyMatch(_, _) => Usable(a.lit) && Usable(a.dist)
    case _ => true
  }

  lemma DecodableStep(s: bits, a: State)
    requires Decodable(a) && Step(s, a).Some?
    ensures Decodable(Step(s, a).value)
  {
    hide Step, Usable;
    if Decoding(a.pc) {
      SameCodesStep(s, a);
    } else {
      NewCodesStep(s, a);
    }
  }

  predicate Decoding(pc: Pc) {
    pc.Sym? || pc.EmitLit? || pc.LenBits? || pc.DistCode? || pc.DistBits? || pc.CopyMatch?
  }

  /** Within a compressed block the codes stay. */
  lemma SameCodesStep(s: bits, a: State)
    requires Decoding(a.pc) && Step(s, a).Some?
    ensures
      var b := Step(s, a).value;
      if Decoding(b.pc) then b.lit == a.lit && b.dist == a.dist
      else b.pc.Header? || b.pc.LastBlockDone? || b.pc.Failed? || b.pc.TooFar?
  {
    hide Usable, DecodeSym, ReadBits, Copy;
  }

  lemma NewCodesStep(s: bits, a: State)
    requires Decodable(a) && !Decoding(a.pc) && Step(s, a).Some?
    ensures Decodable(Step(s, a).value)
  {
    FixedUsable();
    hide Usable, DecodeSym, ReadBits, FixedLit, FixedDist, Adler, AlignUp, HeaderBad, RepeatBase, Repeated;
    hide StepSym, StepLenBits, StepDistCode, StepDistBits, StepCopyMatch;
  }

  /** What is decoded from a part is decoded from the whole. */
  lemma DecodeExtends(lens: seq<nat>, s: bits, k: nat, pos: nat)
    requires Usable(lens) && k <= |s| && DecodeSym(lens, s[..k], pos).Some?
    ensures DecodeSym(lens, s, pos) == DecodeSym(lens, s[..k], pos)
  {
    hide CodeBits;
    var t := DecodeSym(lens, s[..k], pos).value;
    assert s[..k][pos..pos + lens[t]] == s[pos..pos + lens[t]];
    DecodeSymUnique(lens, t, s, pos);
  }

  lemma ReadExtends(s: bits, k: nat, pos: nat, n: nat)
    requires k <= |s| && ReadBits(s[..k], pos, n).Some?
    ensures ReadBits(s, pos, n) == ReadBits(s[..k], pos, n)
  {
    assert s[..k][pos..pos + n] == s[pos..pos + n];
  }

  lemma StepExtendsCode(s: bits, k: nat, a: State)
    requires k <= |s| && Decodable(a) && Step(s[..k], a).Some? && (a.pc.Lens? || a.pc.Sym? || a.pc.DistCode?)
    ensures Step(s, a) == Step(s[..k], a)
  {
    hide Usable, DecodeSym;
    if DecodeSym(CodeRead(a), s[..k], a.pos).None? {
      NeedsCode(s[..k], a);
    }
    DecodeExtends(CodeRead(a), s, k, a.pos);
  }

  predicate ReadsBits(pc: Pc) {
    || pc.ZlibHeader? || pc.Header? || pc.StoredLen? || pc.StoredData? || pc.Sizes? || pc.ClLens?
    || pc.LensRepeat? || pc.LenBits? || pc.DistBits? || pc.Trailer?
  }

  /** Of the stream, a step that decodes no symbol depends on the bits it reads only. */
  lemma SameReads(s: bits, t: bits, a: State)
    requires !(a.pc.Lens? || a.pc.Sym? || a.pc.DistCode?)
    requires ReadsBits(a.pc) ==> ReadBits(s, a.pos, Needed(a.pc)) == ReadBits(t, a.pos, Needed(a.pc))
    ensures Step(s, a) == Step(t, a)
  {
    hide StepZlibHeader, StepHeader, StepStoredLen, StepStoredData, StepSizes, StepTrailer;
    hide StepClLens, StepLensRepeat, StepLenBits, StepDistBits, StepEmitStored, StepCopyMatch, StepLastBlockDone;
    SameFraming(s, t, a);
    SameCodes(s, t, a);
    if a.pc.LenBits? { SameLength(s, t, a); }
    if a.pc.DistBits? { SameDistance(s, t, a); }
  }

  lemma SameFraming(s: bits, t: bits, a: State)
    requires ReadsBits(a.pc) ==> ReadBits(s, a.pos, Needed(a.pc)) == ReadBits(t, a.pos, Needed(a.pc))
    ensures a.pc.ZlibHeader? ==> StepZlibHeader(s, a, a.pc.hdr) == StepZlibHeader(t, a, a.pc.hdr)
    ensures a.pc.Header? ==> StepHeader(s, a) == StepHeader(t, a)
    ensures a.pc.StoredLen? ==> StepStoredLen(s, a, a.pc.hdr) == StepStoredLen(t, a, a.pc.hdr)
    ensures a.pc.StoredData? ==> StepStoredData(s, a, a.pc.left) == StepStoredData(t, a, a.pc.left)
    ensures a.pc.Trailer? ==> StepTrailer(s, a, a.pc.n, a.pc.sum) == StepTrailer(t, a, a.pc.n, a.pc.sum)
  {
    hide ReadBits, FixedLit, FixedDist, Adler, AlignUp, HeaderBad, Between;
  }

  lemma SameCodes(s: bits, t: bits, a: State)
    requires ReadsBits(a.pc) ==> ReadBits(s, a.pos, Needed(a.pc)) == ReadBits(t, a.pos, Needed(a.pc))
    ensures a.pc.Sizes? ==> StepSizes(s, a, a.pc.sizes) == StepSizes(t, a, a.pc.sizes)
    ensures a.pc.ClLens? ==>
      StepClLens(s, a, a.pc.sizes, a.pc.n, a.pc.cl) == StepClLens(t, a, a.pc.sizes, a.pc.n, a.pc.cl)
    ensures a.pc.LensRepeat? ==>
      StepLensRepeat(s, a, a.pc.sizes, a.pc.cl, a.pc.lens, a.pc.sym)
      == StepLensRepeat(t, a, a.pc.sizes, a.pc.cl, a.pc.lens, a.pc.sym)
  {
    hide ReadBits, Usable, Repeated, RepeatBase, FinishLens;
  }

  lemma SameLength(s: bits, t: bits, a: State)
    requires a.pc.LenBits? && ReadBits(s, a.pos, Needed(a.pc)) == ReadBits(t, a.pos, Needed(a.pc))
    ensures StepLenBits(s, a, a.pc.sym) == StepLenBits(t, a, a.pc.sym)
  {
    hide ReadBits, Between;
  }

  lemma SameDistance(s: bits, t: bits, a: State)
    requires a.pc.DistBits? && ReadBits(s, a.pos, Needed(a.pc)) == ReadBits(t, a.pos, Needed(a.pc))
    ensures StepDistBits(s, a, a.pc.len, a.pc.sym) == StepDistBits(t, a, a.pc.len, a.pc.sym)
  {
    hide ReadBits;
  }

  lemma StepExtendsBits(s: bits, k: nat, a: State)
    requires k <= |s| && Step(s[..k], a).Some? && !(a.pc.Lens? || a.pc.Sym? || a.pc.DistCode?)
    ensures Step(s, a) == Step(s[..k], a)
  {
    if ReadsBits(a.pc) {
      ReadsSome(s[..k], a);
      hide Step;
      ReadExtends(s, k, a.pos, Needed(a.pc));
    }
    hide Step, Needed;
    SameReads(s, s[..k], a);
  }

  lemma ReadsSome(s: bits, a: State)
    requires ReadsBits(a.pc) && Step(s, a).Some?
    ensures ReadBits(s, a.pos, Needed(a.pc)).Some?
  {
    hide ReadBits, Usable, FixedLit, FixedDist, Adler, AlignUp, HeaderBad, Repeated, RepeatBase, FinishLens, Between;
  }

  /** A run over a part of the stream is one over the whole. */
  lemma {:induction false} RunExtends(s: bits, k: nat, a: State, n: nat)
    requires k <= |s| && Decodable(a) && Run(s[..k], a, n).Some?
    ensures Run(s, a, n) == Run(s[..k], a, n)
    decreases n
  {
    hide Step, Decodable;
    if n > 0 {
      var b := Step(s[..k], a).value;
      if a.pc.Lens? || a.pc.Sym? || a.pc.DistCode? {
        StepExtendsCode(s, k, a);
      } else {
        StepExtendsBits(s, k, a);
      }
      DecodableStep(s[..k], a);
      RunExtends(s, k, b, n - 1);
    }
  }

  /** Where the machine stands still for want of bits, everything that the part stands for is out. */
  lemma StandstillIsLast(s: bits, k: nat, m: Mode, j: nat, a: State, n: nat)
    requires k <= |s| && Run(s, Start(m), j) == Some(a) && Step(s[..k], a).None? && Run(s[..k], Start(m), n).Some?
    ensures Run(s[..k], Start(m), n).value.out <= a.out
  {
    hide Step;
    var b := Run(s[..k], Start(m), n).value;
    RunExtends(s, k, Start(m), n);
    if n <= j {
      RunAdd(s, Start(m), n, j - n);
      RunGrows(s, b, j - n, a);
    } else {
      RunShorter(s[..k], Start(m), j, n);
      RunExtends(s, k, Start(m), j);
    }
  }

  /** A run of `n` steps goes through a state after `j` of them, from which there is a step. */
  lemma {:induction false} RunShorter(s: bits, a: State, j: nat, n: nat)
    requires j < n && Run(s, a, n).Some?
    ensures Run(s, a, j).Some? && Step(s, Run(s, a, j).value).Some?
    decreases n
  {
    hide Step;
    if j > 0 { RunShorter(s, Step(s, a).value, j - 1, n - 1); }
  }

  // ---- How far back the matches of a run reach

  ghost predicate Within(s: bits, m: Mode, total: nat, window: nat) {
    forall n: nat :: n <= total ==> ReachesBack(Run(s, Start(m), n), window)
  }

  /** A state that copies does so from within the window. */
  ghost predicate ReachesBack(a: Option<State>, window: nat) {
    a.Some? && a.value.pc.CopyMatch? ==> a.value.pc.dist <= window
  }

  lemma BackStep(s: bits, a: State)
    requires ReachesBack(Some(a), DICT_SIZE) && Step(s, a).Some?
    ensures ReachesBack(Step(s, a), DICT_SIZE)
  {
    hide Step;
    if a.pc.DistBits? {
      ViewDistBits(s, a);
    } else if Step(s, a).value.pc.CopyMatch? {
      NewMatch(s, a);
    }
  }

  /** Only a distance starts a match. */
  lemma NewMatch(s: bits, a: State)
    requires !a.pc.DistBits? && Step(s, a).Some? && Step(s, a).value.pc.CopyMatch?
    ensures a.pc.CopyMatch? && a.pc.dist == Step(s, a).value.pc.dist
  {
    hide Usable, DecodeSym, ReadBits, FixedLit, FixedDist, Adler, AlignUp, HeaderBad, Repeated, RepeatBase;
    hide StepDistBits;
  }

  lemma {:induction false} RunBack(s: bits, a: State, n: nat)
    requires ReachesBack(Some(a), DICT_SIZE)
    ensures ReachesBack(Run(s, a, n), DICT_SIZE)
    decreases n
  {
    if n > 0 && Step(s, a).Some? {
      BackStep(s, a);
      hide Step;
      RunBack(s, Step(s, a).value, n - 1);
    }
  }

  /** A window of 32 KB is enough for every stream. */
  lemma WithinWindow(s: bits, m: Mode, total: nat, window: nat)
    requires window >= DICT_SIZE
    ensures Within(s, m, total, window)
  {
    forall n: nat | n <= total ensures ReachesBack(Run(s, Start(m), n), window) {
      RunBack(s, Start(m), n);
    }
  }

  lemma CourseBack(s: bits, m: Mode, total: nat, a: State, fuel: nat, goal: State, window: nat)
    requires OnCourse(s, m, total, a, fuel, goal) && Within(s, m, total, window)
    ensures a.pc.CopyMatch? ==> a.pc.dist <= window
  {
    hide Run;
    assert ReachesBack(Run(s, Start(m), total - fuel), window);
  }
}
