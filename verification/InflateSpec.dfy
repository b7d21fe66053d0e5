/** What a deflate stream means, as a machine that reads a bit string (section 3.2 of RFC 1951), with or
    without the header and trailer of RFC 1950. `Step` reads one element of the format: a header field, a
    code, extra bits, a byte. It has no bit buffer, tables, output window or suspension: those belong to
    the program. `Step` is `None` where the stream ends or holds a code the format leaves unassigned. */
module InflateSpec {
  import opened Bits
  import opened Canonical
  import opened Tokens
  import opened Checksums

  /** `zlib`: the stream has a zlib header and trailer, and its window is at most `limit` bytes. */
  datatype Mode = Mode(zlib: bool, limit: nat)

  datatype Pc =
    | ZlibHeader(hdr: seq<nat>)
    | Header
    | StoredLen(hdr: seq<nat>)
    | StoredData(left: nat)
    | EmitStored(left: nat, b: byte)
    | Sizes(sizes: seq<nat>)
    | ClLens(sizes: seq<nat>, n: nat, cl: seq<nat>)
    | Lens(sizes: seq<nat>, cl: seq<nat>, lens: seq<nat>)
    | LensRepeat(sizes: seq<nat>, cl: seq<nat>, lens: seq<nat>, sym: nat)
    | Sym
    | EmitLit(b: byte)
    | LenBits(sym: nat)
    | DistCode(len: nat)
    | DistBits(len: nat, sym: nat)
    | CopyMatch(left: nat, dist: nat)
    | LastBlockDone
    | Trailer(n: nat, sum: nat)
    | Done
    | Mismatch
    | Failed
    | TooFar

  datatype State =
    State(pc: Pc, pos: nat, final: bool, lit: seq<nat>, dist: seq<nat>, out: seq<byte>, mode: Mode)

  /** Between blocks: at the next header, or after the last block. */
  function Between(m: Mode, final: bool, pos: nat, out: seq<byte>): State {
    State(if final then LastBlockDone else Header, pos, final, [], [], out, m)
  }

  function Start(m: Mode): State {
    State(if m.zlib then ZlibHeader([]) else Header, 0, false, [], [], [], m)
  }

  /** The end of a stream that stands for `out`. */
  function Ended(m: Mode, pos: nat, out: seq<byte>): State {
    State(Done, pos, true, [], [], out, m)
  }

  /** `s_length_dezigzag`: the order in which the code length code is transmitted. */
  const CL_ORDER: seq<nat> := [16, 17, 18, 0, 8, 7, 9, 6, 10, 5, 11, 4, 12, 3, 13, 2, 14, 1, 15]
  const SIZE_BITS: seq<nat> := [5, 5, 4]
  const MIN_SIZES: seq<nat> := [257, 1, 4]

  function FixedLit(): seq<nat> {
    seq(144, i => 8) + seq(112, i => 9) + seq(24, i => 7) + seq(8, i => 8)
  }

  function FixedDist(): seq<nat> { seq(32, i => 5) }

  function RepeatBits(sym: nat): nat {
    if sym == 16 then 2 else if sym == 17 then 3 else 7
  }

  function RepeatBase(sym: nat): nat {
    if sym == 18 then 11 else 3
  }

  function ReadBits(s: bits, pos: nat, n: nat): Option<nat> {
    if pos + n <= |s| then Some(Val(s[pos..pos + n])) else None
  }

  function AlignUp(pos: nat): nat { (pos + 7) / 8 * 8 }

  function EndBlock(a: State): State {
    Between(a.mode, a.final, a.pos, a.out)
  }

  /** A zlib header that is not accepted: wrong check bits, a preset dictionary, another method than
      deflate, or too large a window (section 2.2 of RFC 1950). */
  function HeaderBad(cmf: nat, flg: nat, limit: nat): bool {
    (cmf * 256 + flg) % 31 != 0 || flg / 32 % 2 == 1 || cmf % 16 != 8 || Pow2(8 + cmf / 16) > limit
  }

  function StepZlibHeader(s: bits, a: State, hdr: seq<nat>): Option<State> {
    var v := ReadBits(s, a.pos, 8);
    if v.None? then None
    else
      var b := a.(pos := a.pos + 8);
      if hdr == [] then Some(b.(pc := ZlibHeader([v.value])))
      else Some(b.(pc := if HeaderBad(hdr[0], v.value, a.mode.limit) then Failed else Header))
  }

  /** A zlib stream goes on at the next byte boundary. */
  function StepLastBlockDone(a: State): State {
    if a.mode.zlib then a.(pc := Trailer(0, 0), pos := AlignUp(a.pos)) else a.(pc := Done)
  }

  /** One byte of the checksum, most significant first. */
  function StepTrailer(s: bits, a: State, n: nat, sum: nat): Option<State> {
    var v := ReadBits(s, a.pos, 8);
    if v.None? then None
    else
      var b := a.(pos := a.pos + 8);
      var t := 256 * sum + v.value;
      if n < 3 then Some(b.(pc := Trailer(n + 1, t)))
      else Some(b.(pc := if t == Adler(1, a.out) as nat then Done else Mismatch))
  }

  function StepHeader(s: bits, a: State): Option<State> {
    var v := ReadBits(s, a.pos, 3);
    if v.None? then None
    else
      var b := a.(pos := a.pos + 3, final := v.value % 2 == 1);
      var kind := v.value / 2;
      if kind == 0 then Some(b.(pc := StoredLen([]), pos := AlignUp(b.pos)))
      else if kind == 1 then Some(b.(pc := Sym, lit := FixedLit(), dist := FixedDist()))
      else if kind == 2 then Some(b.(pc := Sizes([])))
      else Some(b.(pc := Failed))
  }

  function StepStoredLen(s: bits, a: State, hdr: seq<nat>): Option<State> {
    var v := ReadBits(s, a.pos, 8);
    if v.None? then None
    else
      var b := a.(pos := a.pos + 8);
      var h := hdr + [v.value];
      if |h| != 4 then Some(b.(pc := StoredLen(h)))
      else
        var len := h[0] + 256 * h[1];
        if len + h[2] + 256 * h[3] != 65535 then Some(b.(pc := Failed))
        else if len == 0 then Some(EndBlock(b))
        else Some(b.(pc := StoredData(len)))
  }

  function StepStoredData(s: bits, a: State, left: nat): Option<State> {
    var v := ReadBits(s, a.pos, 8);
    if v.None? || v.value >= 256 then None
    else Some(a.(pc := EmitStored(left, v.value), pos := a.pos + 8))
  }

  function StepEmitStored(a: State, left: nat, c: byte): State {
    var b := a.(out := a.out + [c]);
    if left <= 1 then EndBlock(b) else b.(pc := StoredData(left - 1))
  }

  function StepSizes(s: bits, a: State, sizes: seq<nat>): Option<State> {
    if |sizes| >= 3 then None
    else
      var v := ReadBits(s, a.pos, SIZE_BITS[|sizes|]);
      if v.None? then None
      else
        var t := sizes + [v.value + MIN_SIZES[|sizes|]];
        Some(a.(pos := a.pos + SIZE_BITS[|sizes|],
                pc := if |t| < 3 then Sizes(t) else ClLens(t, 0, seq(19, i => 0))))
  }

  ghost function StepClLens(s: bits, a: State, sizes: seq<nat>, n: nat, cl: seq<nat>): Option<State> {
    var v := ReadBits(s, a.pos, 3);
    if v.None? || |sizes| != 3 || |cl| != 19 || n >= 19 then None
    else
      var b := a.(pos := a.pos + 3);
      var c := cl[CL_ORDER[n] := v.value];
      if n + 1 < sizes[2] then Some(b.(pc := ClLens(sizes, n + 1, c)))
      else if Usable(c) then Some(b.(pc := Lens(sizes, c, [])))
      else Some(b.(pc := Failed))
  }

  /** Once all code lengths are known: they must form two usable codes. */
  ghost function FinishLens(a: State, sizes: seq<nat>, cl: seq<nat>, lens: seq<nat>): Option<State> {
    if |sizes| != 3 then None
    else if |lens| < sizes[0] + sizes[1] then Some(a.(pc := Lens(sizes, cl, lens)))
    else if |lens| > sizes[0] + sizes[1] then Some(a.(pc := Failed))
    else if Usable(lens[..sizes[0]]) && Usable(lens[sizes[0]..]) then
      Some(a.(pc := Sym, lit := lens[..sizes[0]], dist := lens[sizes[0]..]))
    else Some(a.(pc := Failed))
  }

  ghost function StepLens(s: bits, a: State, sizes: seq<nat>, cl: seq<nat>, lens: seq<nat>): Option<State> {
    var r := DecodeSym(cl, s, a.pos);
    if r.None? then None
    else
      var b := a.(pos := a.pos + cl[r.value]);
      if r.value < 16 then FinishLens(b, sizes, cl, lens + [r.value])
      else if r.value == 16 && lens == [] then Some(b.(pc := Failed))
      else Some(b.(pc := LensRepeat(sizes, cl, lens, r.value)))
  }

  function Repeated(lens: seq<nat>, sym: nat, n: nat): seq<nat> {
    lens + seq(n, i => if sym == 16 && lens != [] then lens[|lens| - 1] else 0)
  }

  ghost function StepLensRepeat(s: bits, a: State, sizes: seq<nat>, cl: seq<nat>, lens: seq<nat>,
                                sym: nat): Option<State> {
    var v := ReadBits(s, a.pos, RepeatBits(sym));
    if v.None? then None
    else
      FinishLens(a.(pos := a.pos + RepeatBits(sym)), sizes, cl, Repeated(lens, sym, v.value + RepeatBase(sym)))
  }

  ghost function StepSym(s: bits, a: State): Option<State> {
    var r := DecodeSym(a.lit, s, a.pos);
    if r.None? || r.value > 285 then None
    else
      var b := a.(pos := a.pos + a.lit[r.value]);
      if r.value < 256 then Some(b.(pc := EmitLit(r.value)))
      else if r.value == 256 then Some(EndBlock(b))
      else Some(b.(pc := LenBits(r.value)))
  }

  function StepLenBits(s: bits, a: State, sym: nat): Option<State> {
    if !(257 <= sym <= 285) then None
    else
      var n := LENGTH_EXTRA[sym - 257];
      var v := ReadBits(s, a.pos, n);
      if v.None? then None
      else Some(a.(pos := a.pos + n, pc := DistCode(LENGTH_BASE[sym - 257] + v.value)))
  }

  ghost function StepDistCode(s: bits, a: State, len: nat): Option<State> {
    var r := DecodeSym(a.dist, s, a.pos);
    if r.None? || r.value > 29 then None
    else Some(a.(pos := a.pos + a.dist[r.value], pc := DistBits(len, r.value)))
  }

  function StepDistBits(s: bits, a: State, len: nat, sym: nat): Option<State> {
    if sym > 29 then None
    else
      var n := DIST_EXTRA[sym];
      var v := ReadBits(s, a.pos, n);
      if v.None? then None
      else
        var dist := DIST_BASE[sym] + v.value;
        Some(a.(pos := a.pos + n, pc := if dist > |a.out| then TooFar else CopyMatch(len, dist)))
  }

  function StepCopyMatch(a: State, left: nat, dist: nat): Option<State> {
    if left == 0 then Some(a.(pc := Sym))
    else if !(1 <= dist <= |a.out|) then None
    else Some(a.(pc := CopyMatch(left - 1, dist), out := a.out + [a.out[|a.out| - dist]]))
  }

  ghost function Step(s: bits, a: State): Option<State> {
    match a.pc
    case ZlibHeader(hdr) => StepZlibHeader(s, a, hdr)
    case Header => StepHeader(s, a)
    case StoredLen(hdr) => StepStoredLen(s, a, hdr)
    case StoredData(left) => StepStoredData(s, a, left)
    case EmitStored(left, b) => Some(StepEmitStored(a, left, b))
    case Sizes(sizes) => StepSizes(s, a, sizes)
    case ClLens(sizes, n, cl) => StepClLens(s, a, sizes, n, cl)
    case Lens(sizes, cl, lens) => StepLens(s, a, sizes, cl, lens)
    case LensRepeat(sizes, cl, lens, sym) => StepLensRepeat(s, a, sizes, cl, lens, sym)
    case Sym => StepSym(s, a)
    case EmitLit(b) => Some(a.(pc := Sym, out := a.out + [b]))
    case LenBits(sym) => StepLenBits(s, a, sym)
    case DistCode(len) => StepDistCode(s, a, len)
    case DistBits(len, sym) => StepDistBits(s, a, len, sym)
    case CopyMatch(left, dist) => StepCopyMatch(a, left, dist)
    case LastBlockDone => Some(StepLastBlockDone(a))
    case Trailer(n, sum) => StepTrailer(s, a, n, sum)
    case Done => None
    case Mismatch => None
    case Failed => None
    case TooFar => None
  }

  ghost function Run(s: bits, a: State, n: nat): Option<State>
    decreases n
  {
    if n == 0 then Some(a)
    else
      var b := Step(s, a);
      if b.None? then None else Run(s, b.value, n - 1)
  }

  ghost predicate Reaches(s: bits, a: State, b: State) {
    exists n: nat :: Run(s, a, n) == Some(b)
  }

  lemma {:induction false} RunAdd(s: bits, a: State, m: nat, n: nat)
    requires Run(s, a, m).Some?
    ensures Run(s, a, m + n) == Run(s, Run(s, a, m).value, n)
    decreases m
  {
    hide Step;
    if m > 0 { RunAdd(s, Step(s, a).value, m - 1, n); }
  }

  lemma ReachTrans(s: bits, a: State, b: State, c: State)
    requires Reaches(s, a, b) && Reaches(s, b, c)
    ensures Reaches(s, a, c)
  {
    hide Step;
    var m: nat :| Run(s, a, m) == Some(b);
    var n: nat :| Run(s, b, n) == Some(c);
    RunAdd(s, a, m, n);
  }

  lemma ReachSelf(s: bits, a: State)
    ensures Reaches(s, a, a)
  {
    hide Step;
    assert Run(s, a, 0) == Some(a);
  }

  lemma ReachStep(s: bits, a: State, b: State)
    requires Step(s, a) == Some(b)
    ensures Reaches(s, a, b)
  {
    hide Step;
    assert Run(s, b, 0) == Some(b);
    assert Run(s, a, 1) == Some(b);
  }

  ghost predicate Terminal(pc: Pc) {
    pc.Done? || pc.Mismatch? || pc.Failed? || pc.TooFar?
  }

  lemma TerminalStops(s: bits, a: State)
    ensures Terminal(a.pc) ==> Step(s, a).None?
  {
  }

  /** A stream ends in at most one way: the machine is deterministic and stops at terminal states. */
  lemma {:induction false} EndUnique(s: bits, a: State, b: State, m: nat, c: State, n: nat)
    requires Run(s, a, m) == Some(b) && Terminal(b.pc)
    requires Run(s, a, n) == Some(c) && Terminal(c.pc)
    ensures b == c
    decreases m
  {
    hide Step;
    TerminalStops(s, b);
    TerminalStops(s, c);
    if m > 0 && n > 0 {
      EndUnique(s, Step(s, a).value, b, m - 1, c, n - 1);
    }
  }

  lemma FixedLitComplete(lens: seq<nat>)
    requires forall l: nat :: Count(lens, l) == if l == 8 then 152 else if l == 9 then 112 else if l == 7 then 24 else 0
    ensures Complete(lens)
  {
    assert Free(lens, 1) == 2;
    assert Free(lens, 3) == 8;
    assert Free(lens, 5) == 32;
    assert Free(lens, 7) == 104;
    assert Free(lens, 9) == 0;
    FreeAfterLast(lens, 9, MAX_BITS);
  }

  lemma FixedDistComplete(lens: seq<nat>)
    requires forall l: nat :: Count(lens, l) == if l == 5 then 32 else 0
    ensures Complete(lens)
  {
    assert Free(lens, 1) == 2;
    assert Free(lens, 3) == 8;
    assert Free(lens, 5) == 0;
    FreeAfterLast(lens, 5, MAX_BITS);
  }

  /** The fixed codes of section 3.2.6 are complete. */
  lemma FixedUsable()
    ensures |FixedLit()| == 288 && |FixedDist()| == 32 && FixedLit()[256] == 7
    ensures forall i :: 0 <= i < 288 ==> FixedLit()[i] > 0
    ensures forall i :: 0 <= i < 32 ==> FixedDist()[i] == 5
    ensures Usable(FixedLit()) && Usable(FixedDist())
  {
    var a, b, c, d := seq(144, i => 8), seq(112, i => 9), seq(24, i => 7), seq(8, i => 8);
    forall l: nat
      ensures Count(FixedLit(), l) == if l == 8 then 152 else if l == 9 then 112 else if l == 7 then 24 else 0
      ensures Count(FixedDist(), l) == if l == 5 then 32 else 0
    {
      CountSplit(a + b + c, d, l);
      CountSplit(a + b, c, l);
      CountSplit(a, b, l);
      CountConst(8, 144, l);
      CountConst(9, 112, l);
      CountConst(7, 24, l);
      CountConst(8, 8, l);
      CountConst(5, 32, l);
    }
    FixedLitComplete(FixedLit());
    FixedDistComplete(FixedDist());
  }
}
