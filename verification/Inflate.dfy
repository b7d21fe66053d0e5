/** The decompressor `tinfl_decompress` as the coroutine it is: `state` says where to go on, every
    suspension keeps what is needed for that, and each handler below is the code between two such
    points. All handlers follow one run of the stream machine. */
module Inflate {
  import opened Bits
  import opened Arrays
  import opened Canonical
  import opened Tokens
  import opened Checksums
  import opened InflateSpec
  import opened InflateTable
  import opened InflateBuild
  import opened InflateReader
  import opened InflateHuffman
  import opened InflateOutput
  import opened InflateSteps

  datatype Status = BadParam | AdlerMismatch | Failed | Finished | NeedsMoreInput | HasMoreOutput

  /** What a handler reports: go on, or leave the coroutine. */
  datatype Turn = Go | Leave(status: Status)

  const MAX_LENS: nat := 457

  /** Where the coroutine can stand (the values of `m_state`: 1, 2; 3, 7, 9, 52; 11, 14, 16, 18; 23 to 27, 53;
      after the last block, 42, 34; and the points it never leaves, 36, 10, 39, 35, 17, 21, 37). */
  datatype Point =
    | AtZlibCmf | AtZlibFlg
    | AtHeader | AtStoredLen | AtStoredData | AtStoredByte
    | AtSizes | AtClLens | AtLens | AtRepeat
    | AtSym | AtLit | AtLenBits | AtDistCode | AtDistBits | AtCopy
    | AtLastBlockDone | AtTrailer | AtEnd
    | BadHeader | BadType | BadStored | BadCode | BadRepeat | BadCount | TooFarBack

  /** More than any zlib header can ask for. */
  const NO_LIMIT: nat := 0x80_0000

  function Lesser(a: nat, b: nat): nat { if a <= b then a else b }

  /** Which streams a decompressor takes: a whole buffer any window, a wrapping one windows up to its size
      and up to 32 KB. */
  function ModeOf(zlib: bool, wrap: bool, window: nat): Mode {
    Mode(zlib, if wrap then Lesser(DICT_SIZE, window) else NO_LIMIT)
  }

  ghost predicate SizesOk(sizes: seq<nat>) {
    && |sizes| <= 3
    && (|sizes| > 0 ==> 257 <= sizes[0] <= 288)
    && (|sizes| > 1 ==> 1 <= sizes[1] <= 32)
    && (|sizes| > 2 ==> 4 <= sizes[2] <= 19)
  }

  ghost predicate Unlike(t: Lookup, u: Lookup) {
    && t.Shaped() && u.Shaped() && t != u && t.sizes != u.sizes
    && t.look != u.look && t.look != u.tree && t.tree != u.look && t.tree != u.tree
  }

  method NewLookups() returns (t0: Lookup, t1: Lookup, t2: Lookup)
    ensures Unlike(t0, t1) && Unlike(t0, t2) && Unlike(t1, t2)
    ensures fresh(t0) && fresh(t0.look) && fresh(t0.tree) && fresh(t0.sizes)
    ensures fresh(t1) && fresh(t1.look) && fresh(t1.tree) && fresh(t1.sizes)
    ensures fresh(t2) && fresh(t2.look) && fresh(t2.tree) && fresh(t2.sizes)
  {
    t0 := new Lookup();
    t1 := new Lookup();
    t2 := new Lookup();
  }

  class Inflater {
    const r: Reader
    const o: Output
    const t0: Lookup
    const t1: Lookup
    const t2: Lookup
    const tableSizes: array<nat>
    const rawHeader: array<nat>
    const lenCodes: array<nat>
    const zlib: bool
    const summing: bool
    const wide: bool
    const unaligned: bool
    var state: Point
    var dist: nat
    var counter: nat
    var numExtra: nat
    var final: nat
    var from: nat
    var zhdr0: byte
    var zAdler: uint32
    var checkAdler: uint32
    ghost var laps: nat
    ghost var abs: State
    ghost var fuel: nat
    ghost const mode: Mode
    ghost const total: nat
    ghost const goal: State

    /** `tinfl_init`, for a stream whose run is known to end in `goal` after `total` steps. A wrapping buffer
        must reach back as far as the matches of the stream do. */
    constructor (zlib: bool, summing: bool, wrap: bool, wide: bool, unaligned: bool, ghost stream: seq<byte>,
                 ghost window: nat, ghost goal: State, ghost total: nat)
      requires Run(ByteBits(stream), Start(ModeOf(zlib, wrap, window)), total) == Some(goal) && Terminal(goal.pc)
      requires wrap ==> !goal.pc.TooFar? && Within(ByteBits(stream), ModeOf(zlib, wrap, window), total, window)
      ensures Resting() && abs == Start(mode) && mode == ModeOf(zlib, wrap, window) && this.goal == goal
      ensures r.stream == stream && r.eaten == 0 && this.total == total
      ensures o.wrap == wrap && o.window == window && o.out == [] && o.outPos == 0
      ensures this.zlib == zlib && this.summing == summing && this.wide == wide && fresh(Memory())
    {
      hide Run, Step, ByteBits, Start, Unlike, Within, Buffered, Resting, Lookup.Shaped, Lesser, NO_LIMIT;
      tableSizes := new nat[3](i => 0);
      rawHeader := new nat[4](i => 0);
      lenCodes := new nat[MAX_LENS](i => 0);
      r := new Reader(stream, wide);
      o := new Output(wrap, window);
      var a, b, c := NewLookups();
      t0, t1, t2 := a, b, c;
      this.zlib, this.summing, this.wide, this.unaligned := zlib, summing, wide, unaligned;
      state := if zlib then AtZlibCmf else AtHeader;
      dist, counter, numExtra, final, from := 0, 0, 0, 0, 0;
      zhdr0, zAdler, checkAdler := 0, 1, 1;
      mode, this.total, this.goal := ModeOf(zlib, wrap, window), total, goal;
      laps, abs, fuel := 0, Start(ModeOf(zlib, wrap, window)), total;
      new;
      FirstState();
    }

    lemma FirstState()
      requires Linked() && Run(Str(), Start(mode), total) == Some(goal) && abs == Start(mode) && fuel == total
      requires Buffered(r.stream, r.eaten, 0, 0, 0) && r.pos == r.bitBuf == r.numBits == 0
      requires o.out == [] && final == 0 && checkAdler == 1 && state == if zlib then AtZlibCmf else AtHeader
      ensures Resting()
    {
      hide Run, Unlike, Within, Buffered, Str, Adler;
      CourseBegins(Str(), mode, total, goal);
      NothingSummed();
    }

    ghost function Memory(): set<object> {
      {r, o, t0, t1, t2, t0.look, t0.tree, t0.sizes, t1.look, t1.tree, t1.sizes, t2.look, t2.tree, t2.sizes,
       tableSizes, rawHeader, lenCodes}
    }

    /** What the decompressor keeps between calls: "bit buffer, then unread input" is what is left of the
        stream, and the place of suspension fits the machine. */
    ghost predicate Resting()
      reads this, r, o, tableSizes, rawHeader, lenCodes
      reads t0, t0.look, t0.tree, t1, t1.look, t1.tree, t2, t2.look, t2.tree, t2.sizes
    {
      && Linked() && Buffered(r.stream, r.eaten, r.pos, r.numBits, r.bitBuf) && r.Sized()
      && r.pos == abs.pos && o.out == abs.out && abs.final == (final % 2 == 1)
      && Course(abs, fuel) && Placed() && (Rejected(abs.pc) || Summed(o.out))
    }

    /** The running checksum, where one is kept. */
    ghost predicate Summed(out: seq<byte>)
      reads this`checkAdler
    {
      zlib || summing ==> checkAdler == Adler(1, out)
    }

    /** The parts fit together and their memory is separate. */
    ghost predicate Linked() {
      && Unlike(t0, t1) && Unlike(t0, t2) && Unlike(t1, t2)
      && tableSizes.Length == 3 && rawHeader.Length == 4 && lenCodes.Length == MAX_LENS
      && tableSizes != rawHeader && tableSizes != lenCodes && rawHeader != lenCodes
      && {t0.sizes, t1.sizes, t2.sizes} !! {tableSizes, rawHeader, lenCodes}
      && Terminal(goal.pc) && mode == ModeOf(zlib, o.wrap, o.window)
      && (o.wrap ==> !goal.pc.TooFar? && Within(Str(), mode, total, o.window))
      && r.capacity == if wide then WIDE_BITS else NARROW_BITS
    }

    ghost function Str(): (s: bits)
      ensures s == ByteBits(r.stream)
    {
      ByteBits(r.stream)
    }

    /** The concrete state is where the machine is in `abs`, on its way to `goal`. */
    ghost predicate Synced()
      reads this`abs, this`fuel, this`final, r, o, o.buf
    {
      SyncedAt(abs.pos)
    }

    /** The same with the reader at bit `pos`. */
    ghost predicate SyncedAt(pos: nat)
      reads this`abs, this`fuel, this`final, r, o, o.buf
    {
      && Linked() && r.Valid() && o.Valid()
      && r.pos == pos && o.out == abs.out && abs.final == (final % 2 == 1)
      && Course(abs, fuel)
    }

    // ---- What holds at each point

    ghost predicate StoredLenAt()
      reads this`abs, this`counter, rawHeader, r`numBits
    {
      && abs.pc.StoredLen? && counter == |abs.pc.hdr| < 4 == rawHeader.Length
      && rawHeader[..counter] == abs.pc.hdr && r.numBits % 8 == 0
    }

    ghost predicate StoredDataAt()
      reads this`abs, this`counter, r`numBits
    {
      abs.pc == StoredData(counter) && counter > 0 && r.numBits % 8 == 0
    }

    ghost predicate StoredByteAt()
      reads this`abs, this`counter, this`dist, r`numBits
    {
      && abs.pc.EmitStored? && abs.pc.left == counter && abs.pc.b == dist < 256 && counter > 0
      && r.numBits % 8 == 0
    }

    ghost predicate SizesAt()
      reads this`abs, this`counter, tableSizes
    {
      && abs.pc.Sizes? && counter == |abs.pc.sizes| < 3 == tableSizes.Length && SizesOk(abs.pc.sizes)
      && tableSizes[..counter] == abs.pc.sizes
    }

    ghost predicate ClLensAt()
      reads this`abs, this`counter, tableSizes, t2.sizes
    {
      && abs.pc.ClLens? && |abs.pc.sizes| == 3 == tableSizes.Length && SizesOk(abs.pc.sizes)
      && tableSizes[..] == abs.pc.sizes && counter == abs.pc.n < abs.pc.sizes[2]
      && t2.sizes.Length == MAX_CODES && t2.sizes[..19] == abs.pc.cl && Limited(abs.pc.cl, 7)
    }

    /** The code lengths read so far are `lens`. */
    ghost predicate LensHeld(sizes: seq<nat>, cl: seq<nat>, lens: seq<nat>)
      reads this`counter, tableSizes, lenCodes, t2, t2.look, t2.tree
    {
      && |sizes| == 3 == tableSizes.Length && SizesOk(sizes)
      && tableSizes[0] == sizes[0] && tableSizes[1] == sizes[1]
      && |cl| == 19 && t2.For(cl) && counter == |lens| && |lens| < sizes[0] + sizes[1]
      && lenCodes.Length == MAX_LENS && lenCodes[..counter] == lens && Limited(lens, MAX_BITS)
    }

    ghost predicate LensAt()
      reads this`abs, this`counter, tableSizes, lenCodes, t2, t2.look, t2.tree
    {
      abs.pc.Lens? && LensHeld(abs.pc.sizes, abs.pc.cl, abs.pc.lens)
    }

    ghost predicate RepeatAt()
      reads this`abs, this`counter, this`dist, this`numExtra, tableSizes, lenCodes, t2, t2.look, t2.tree
    {
      && abs.pc.LensRepeat? && LensHeld(abs.pc.sizes, abs.pc.cl, abs.pc.lens)
      && dist == abs.pc.sym && 16 <= dist <= 18 && numExtra == RepeatBits(dist)
      && (dist == 16 ==> counter > 0)
    }

    /** The tables decode the codes of the current block. */
    ghost predicate Coding()
      reads this`abs, t0, t0.look, t0.tree, t1, t1.look, t1.tree
    {
      t0.For(abs.lit) && t1.For(abs.dist)
    }

    ghost predicate LenBitsAt()
      reads this`abs, this`counter, this`numExtra
    {
      && abs.pc.LenBits? && 257 <= abs.pc.sym <= 285
      && counter == LENGTH_BASE[abs.pc.sym - 257] && numExtra == LENGTH_EXTRA[abs.pc.sym - 257]
    }

    ghost predicate DistBitsAt()
      reads this`abs, this`counter, this`dist, this`numExtra
    {
      && abs.pc.DistBits? && abs.pc.sym <= 29 && abs.pc.len == counter && MIN_MATCH <= counter
      && dist == DIST_BASE[abs.pc.sym] && numExtra == DIST_EXTRA[abs.pc.sym]
    }

    ghost predicate CopyAt(pos: nat)
      reads this`abs, this`counter, this`dist, this`from, this`laps
    {
      && abs.pc == CopyMatch(counter + 1, dist) && 1 <= dist <= |abs.out| && o.Near(dist)
      && from == pos + (if o.wrap then o.window * laps else 0)
    }

    /** The bytes of the checksum read so far are the low ones of `zAdler`. */
    ghost predicate TrailerAt()
      reads this`abs, this`counter, this`zAdler, r`numBits
    {
      && zlib && abs.pc.Trailer? && counter == abs.pc.n < 4 && r.numBits % 8 == 0
      && zAdler as nat % Pow256(counter) == abs.pc.sum
    }

    ghost predicate EndAt()
      reads this`abs, this`zAdler
    {
      if zlib then abs.pc == if zAdler == Adler(1, abs.out) then Done else Mismatch
      else abs.pc.Done?
    }

    ghost predicate Placed()
      reads this, r`numBits, o`outPos, tableSizes, rawHeader, lenCodes
      reads t0, t0.look, t0.tree, t1, t1.look, t1.tree, t2, t2.look, t2.tree, t2.sizes
    {
      PlacedFor(o.outPos)
    }

    /** Every point of suspension keeps what the machine knows there; the output goes on at `pos`. */
    ghost predicate PlacedFor(pos: nat)
      reads this, r`numBits, tableSizes, rawHeader, lenCodes
      reads t0, t0.look, t0.tree, t1, t1.look, t1.tree, t2, t2.look, t2.tree, t2.sizes
    {
      match state
      case AtZlibCmf => abs.pc == ZlibHeader([]) && r.numBits == 0
      case AtZlibFlg => abs.pc == ZlibHeader([zhdr0 as nat]) && r.numBits == 0
      case AtHeader => abs.pc.Header?
      case AtStoredLen => StoredLenAt()
      case AtStoredData => StoredDataAt()
      case AtStoredByte => StoredByteAt()
      case AtSizes => SizesAt()
      case AtClLens => ClLensAt()
      case AtLens => LensAt()
      case AtRepeat => RepeatAt()
      case AtSym => abs.pc.Sym? && Coding()
      case AtLit => abs.pc.EmitLit? && abs.pc.b == counter && Coding()
      case AtLenBits => LenBitsAt() && Coding()
      case AtDistCode => abs.pc == DistCode(counter) && MIN_MATCH <= counter && Coding()
      case AtDistBits => DistBitsAt() && Coding()
      case AtCopy => CopyAt(pos) && Coding()
      case AtLastBlockDone => abs.pc.LastBlockDone?
      case AtTrailer => TrailerAt()
      case AtEnd => EndAt()
      case TooFarBack => abs.pc.TooFar?
      case _ => abs.pc.Failed?
    }

    ghost predicate Inv()
      reads this, r, o, o.buf, tableSizes, rawHeader, lenCodes
      reads t0, t0.look, t0.tree, t1, t1.look, t1.tree, t2, t2.look, t2.tree, t2.sizes
    {
      Synced() && Placed()
    }

    // ---- The run

    /** The run from the start of the stream to `goal` goes through `a`, with `n` steps to come. */
    ghost predicate Course(a: State, n: nat) {
      OnCourse(Str(), mode, total, a, n, goal)
    }

    /** Nothing can be done without more input: what has been fetched holds no further element. */
    ghost predicate Hungry()
      reads this`abs, r
    {
      r.Starved() && !Terminal(abs.pc) && Step(Fed(r), abs).None?
    }

    lemma HungryBits()
      requires r.Valid() && r.pos == abs.pos && r.Starved() && !Terminal(abs.pc) && Needed(abs.pc) > r.numBits
      ensures Hungry()
    {
      hide Needed;
      NeedsBits(Fed(r), abs);
    }

    lemma HungryCode()
      requires r.Valid() && r.pos == abs.pos && r.Starved() && (abs.pc.Lens? || abs.pc.Sym? || abs.pc.DistCode?)
      requires DecodeSym(CodeRead(abs), Fed(r), abs.pos).None?
      ensures Hungry()
    {
      hide CodeRead, DecodeSym, Step;
      NeedsCode(Fed(r), abs);
    }

    lemma Ahead()
      requires Synced() && !Terminal(abs.pc)
      ensures fuel > 0 && Step(Str(), abs).Some? && Course(Step(Str(), abs).value, fuel - 1)
      ensures 8 * |r.stream| == |Str()|
    {
      hide Step;
      CourseStep(Str(), mode, total, abs, fuel, goal);
    }

    /** After the last element of a block. */
    method EndOfBlock()
      requires Synced() && (abs.pc.LastBlockDone? || abs.pc.Header?) && abs.final == abs.pc.LastBlockDone?
      modifies this`state
      ensures Synced() && Placed()
    {
      state := if final % 2 == 1 then AtLastBlockDone else AtHeader;
    }

    /** Points outside the blocks. */
    lemma StandsOutside()
      requires Synced()
      requires match state
               case AtZlibFlg => abs.pc == ZlibHeader([zhdr0 as nat]) && r.numBits == 0
               case AtHeader => abs.pc.Header?
               case AtTrailer => TrailerAt()
               case AtEnd => EndAt()
               case BadHeader => abs.pc.Failed?
               case _ => false
      ensures Inv()
    {
      hide Synced, TrailerAt, EndAt;
    }

    /** Points within a stored block and after it. */
    lemma StandsInStored()
      requires Synced()
      requires match state
               case AtStoredLen => StoredLenAt()
               case AtStoredData => StoredDataAt()
               case AtStoredByte => StoredByteAt()
               case AtHeader => abs.pc.Header?
               case AtLastBlockDone => abs.pc.LastBlockDone?
               case BadStored => abs.pc.Failed?
               case _ => false
      ensures Inv()
    {
      hide Synced, StoredLenAt, StoredDataAt, StoredByteAt;
    }

    /** Points within the tables of a block. */
    lemma StandsInTables()
      requires Synced()
      requires match state
               case AtSizes => SizesAt()
               case AtClLens => ClLensAt()
               case AtLens => LensAt()
               case AtRepeat => RepeatAt()
               case AtSym => abs.pc.Sym? && Coding()
               case BadCode => abs.pc.Failed?
               case BadRepeat => abs.pc.Failed?
               case BadCount => abs.pc.Failed?
               case _ => false
      ensures Inv()
    {
      hide Synced, SizesAt, ClLensAt, LensAt, RepeatAt, Coding;
    }

    /** Points within the symbols of a block. */
    lemma StandsInSymbols()
      requires Synced() && Coding()
      requires match state
               case AtLenBits => LenBitsAt()
               case AtDistCode => abs.pc == DistCode(counter) && MIN_MATCH <= counter
               case AtDistBits => DistBitsAt()
               case _ => false
      ensures Inv()
    {
      hide Synced, LenBitsAt, DistBitsAt, Coding;
    }

    // ---- The zlib header and trailer

    method DoZlibCmf() returns (turn: Turn)
      requires Synced() && abs.pc == ZlibHeader([]) && r.numBits == 0
      modifies this`state, this`zhdr0, this`abs, this`fuel, r`inPos, r`eaten, r`pos
      ensures Inv() && (turn.Go? ==> fuel < old(fuel)) && Sane(turn) && (turn.Leave? ==> turn.status == NeedsMoreInput)
      ensures o.out == old(o.out) && r.eaten - r.inPos == old(r.eaten - r.inPos)
    {
      hide Step, Course, Needed, CodeRead, Hungry, ReadBits, Reader.Valid, Output.Valid, Linked, Coding, Str;
      Ahead();
      ViewZlibHeader(Str(), abs);
      state := AtZlibCmf;
      var ok, v := r.GetRaw();
      if !ok {
        HungryBits();
        return Leave(NeedsMoreInput);
      }
      zhdr0 := v;
      abs, fuel := Step(Str(), abs).value, fuel - 1;
      state := AtZlibFlg;
      return Go;
    }

    /** The header is complete: it must be consistent, and its window must fit into a wrapping buffer. */
    method DoZlibFlg() returns (turn: Turn)
      requires Synced() && abs.pc == ZlibHeader([zhdr0 as nat]) && r.numBits == 0
      modifies this`state, this`counter, this`abs, this`fuel, r`inPos, r`eaten, r`pos
      ensures Inv() && (turn.Go? ==> fuel < old(fuel)) && Sane(turn) && (turn.Leave? ==> turn.status == NeedsMoreInput)
      ensures o.out == old(o.out) && r.eaten - r.inPos == old(r.eaten - r.inPos)
    {
      hide Step, Course, Needed, CodeRead, Hungry, ReadBits, Reader.Valid, Output.Valid, Linked, Coding, Str, HeaderBad;
      hide Inv, Placed;
      Ahead();
      ViewZlibHeader(Str(), abs);
      HeaderLimit();
      state := AtZlibFlg;
      var ok, v := r.GetRaw();
      if !ok {
        HungryBits();
        StandsOutside();
        return Leave(NeedsMoreInput);
      }
      var bad := RefusesHeader(v);
      counter := if bad then 1 else 0;
      abs, fuel := Step(Str(), abs).value, fuel - 1;
      state := if bad then BadHeader else AtHeader;
      StandsOutside();
      return Go;
    }

    /** What limits the window of the stream. */
    lemma HeaderLimit()
      requires Synced() && abs.pc.ZlibHeader?
      ensures abs.mode.limit == if o.wrap then Lesser(DICT_SIZE, o.outEnd) else NO_LIMIT
    {
      hide OnCourse;
      CourseMode(Str(), mode, total, abs, fuel, goal);
    }

    method RefusesHeader(flg: byte) returns (bad: bool)
      requires abs.mode.limit == if o.wrap then Lesser(DICT_SIZE, o.outEnd) else NO_LIMIT
      ensures bad == HeaderBad(zhdr0 as nat, flg as nat, abs.mode.limit)
      ensures bad == ((zhdr0 * 256 + flg) % 31 != 0 || flg / 32 % 2 == 1 || zhdr0 % 16 != 8
                      || (o.wrap && (zhdr0 / 16 > 7 || o.outEnd < Pow2(8 + zhdr0 / 16))))
    {
      HeaderTest(zhdr0, flg);
      bad := (zhdr0 * 256 + flg) % 31 != 0 || flg / 32 % 2 == 1 || zhdr0 % 16 != 8;
      if o.wrap {
        var size := Pow2(8 + zhdr0 / 16);
        bad := bad || size > DICT_SIZE || o.outEnd < size;
      }
    }

    /** After the last block: a zlib stream goes on with its checksum, at the next byte boundary. */
    method DoLastBlockDone()
      requires Synced() && abs.pc.LastBlockDone?
      modifies this`state, this`counter, this`abs, this`fuel, r`bitBuf, r`numBits, r`pos
      ensures Inv() && fuel < old(fuel)
      ensures o.out == old(o.out) && r.eaten - r.inPos == old(r.eaten - r.inPos)
    {
      hide BitsOf, CopyAt, Adler, StoredDataAt, StoredByteAt, SizesAt, ClLensAt, LensHeld, RepeatAt;
      hide StoredLenAt;
      hide Step, Course, Needed, CodeRead, Hungry, Reader.Valid, Output.Valid, Linked, Coding, Str, AlignUp;
      Ahead();
      ViewLastBlockDone(Str(), abs);
      ModeIs();
      if zlib {
        r.Align();
        counter := 0;
        state := AtTrailer;
      } else {
        state := AtEnd;
      }
      abs, fuel := Step(Str(), abs).value, fuel - 1;
    }

    lemma ModeIs()
      requires Synced()
      ensures abs.mode.zlib == zlib
    {
      hide OnCourse;
      CourseMode(Str(), mode, total, abs, fuel, goal);
    }

    /** One byte of the checksum. */
    method DoTrailer() returns (turn: Turn)
      requires Synced() && TrailerAt()
      modifies this`state, this`counter, this`zAdler, this`abs, this`fuel
      modifies r`inPos, r`bitBuf, r`numBits, r`eaten, r`pos
      ensures Inv() && (turn.Go? ==> fuel < old(fuel)) && Sane(turn) && (turn.Leave? ==> turn.status == NeedsMoreInput)
      ensures o.out == old(o.out) && r.eaten - r.inPos == old(r.eaten - r.inPos)
    {
      hide Step, Course, Needed, CodeRead, Hungry, ReadBits, Reader.Valid, Output.Valid, Linked;
      hide Coding, Str, Adler, Pow256;
      hide Inv, Placed;
      Ahead();
      ViewTrailer(Str(), abs);
      state := AtTrailer;
      var ok, v := r.GetAligned();
      if !ok {
        HungryBits();
        StandsOutside();
        return Leave(NeedsMoreInput);
      }
      TrailerWord(zAdler as nat, counter, v);
      zAdler := ((zAdler as nat * 256 + v) % 0x1_0000_0000) as uint32;
      counter := counter + 1;
      abs, fuel := Step(Str(), abs).value, fuel - 1;
      state := if counter < 4 then AtTrailer else AtEnd;
      StandsOutside();
      return Go;
    }

    // ---- Stored blocks

    /** The last byte of the stored block's lengths has been read; `b` is what the machine makes of them. */
    method StoredStart(ghost b: State)
      requires Synced() && rawHeader.Length == 4 && b == abs
      requires
        var len := rawHeader[0] + 256 * rawHeader[1];
        if len + rawHeader[2] + 256 * rawHeader[3] != 65535 then b.pc.Failed?
        else if len == 0 then b.pc == (if b.final then LastBlockDone else Header)
        else b.pc == StoredData(len)
      requires r.numBits % 8 == 0
      modifies this`state, this`counter
      ensures Inv()
    {
      hide Course, Linked, Str;
      counter := rawHeader[0] + 256 * rawHeader[1];
      if counter + rawHeader[2] + 256 * rawHeader[3] != 65535 {
        state := BadStored;
      } else if counter == 0 {
        EndOfBlock();
      } else {
        state := AtStoredData;
      }
    }

    /** One byte of the stored block's lengths. */
    method DoStoredLen() returns (turn: Turn)
      requires Synced() && StoredLenAt()
      modifies this`state, this`counter, this`abs, this`fuel, rawHeader
      modifies r`inPos, r`bitBuf, r`numBits, r`eaten, r`pos
      ensures Inv() && (turn.Go? ==> fuel < old(fuel)) && Sane(turn) && (turn.Leave? ==> turn.status == NeedsMoreInput)
      ensures o.out == old(o.out) && r.eaten - r.inPos == old(r.eaten - r.inPos)
    {
      hide Adler, Feeding, Reader.Sized, Reader.Starved, Emits;
      hide Step, Course, Needed, CodeRead, Hungry, ReadBits, Reader.Valid, Output.Valid, Linked, Coding, AlignUp, Str;
      hide Inv, Placed, SizesAt, ClLensAt, LensAt, RepeatAt, LenBitsAt, DistBitsAt, CopyAt, StoredByteAt, StoredDataAt;
      Ahead();
      ViewStoredLen(Str(), abs);
      ghost var b, hdr := Step(Str(), abs).value, abs.pc.hdr;
      state := AtStoredLen;
      var ok, v := r.GetAligned();
      if !ok {
        HungryBits();
        StandsInStored();
        return Leave(NeedsMoreInput);
      }
      rawHeader[counter] := v;
      counter := counter + 1;
      abs, fuel := b, fuel - 1;
      assert rawHeader[..counter] == hdr + [v];
      if counter == 4 {
        StoredStart(b);
      } else {
        StandsInStored();
      }
      return Go;
    }

    /** The byte `dist` of a stored block goes to the output. */
    method StoredByteOut()
      requires Synced() && StoredByteAt() && o.outPos < o.outEnd
      modifies this`state, this`counter, this`abs, this`fuel, o`outPos, o`out, o.buf
      ensures Inv() && fuel < old(fuel) && old(o.out) < o.out && |o.out| - o.outPos == old(|o.out| - o.outPos)
      ensures o.outPos == old(o.outPos) + 1
      ensures counter == old(counter) - 1 && (counter > 0 ==> StoredDataAt())
    {
      hide Step, Course, Needed, CodeRead, Hungry, Reader.Valid, Output.Valid, Linked, Str;
      Ahead();
      ViewEmitStored(Str(), abs);
      o.Put(dist);
      counter := counter - 1;
      abs, fuel := Step(Str(), abs).value, fuel - 1;
      if counter == 0 {
        EndOfBlock();
      } else {
        state := AtStoredData;
      }
    }

    method DoStoredByte() returns (turn: Turn)
      requires Synced() && StoredByteAt()
      modifies this`state, this`counter, this`abs, this`fuel, o`outPos, o`out, o.buf
      ensures Inv() && (turn.Go? ==> fuel < old(fuel))
      ensures Sane(turn) && (turn.Leave? ==> turn.status == HasMoreOutput)
      ensures old(o.out) <= o.out && |o.out| - o.outPos == old(|o.out| - o.outPos)
    {
      hide Course, Reader.Valid, Linked, Str, Holds;
      state := AtStoredByte;
      if o.outPos >= o.outEnd {
        return Leave(HasMoreOutput);
      }
      hide Output.Valid, StoredByteAt, StoredDataAt, Synced, Placed;
      StoredByteOut();
      return Go;
    }

    /** While the bit buffer holds bytes, a stored byte comes from there. */
    method StoredFromBits()
      requires Synced() && StoredDataAt() && r.numBits > 0
      modifies this`state, this`dist, this`abs, this`fuel
      modifies r`inPos, r`bitBuf, r`numBits, r`eaten, r`pos
      ensures Inv() && fuel < old(fuel) && r.eaten - r.inPos == old(r.eaten - r.inPos)
    {
      hide Step, Course, Needed, CodeRead, Hungry, ReadBits, Reader.Valid, Output.Valid, Linked, Str;
      Ahead();
      ViewStoredData(Str(), abs);
      var v := r.GetBuffered();
      dist := v;
      abs, fuel := Step(Str(), abs).value, fuel - 1;
      state := AtStoredByte;
    }

    /** A stored byte straight from the input to the output: one turn of the `memcpy`. */
    method StoredFromInput()
      requires Synced() && StoredDataAt() && r.numBits == 0 && r.inPos < |r.input| && o.outPos < o.outEnd
      modifies this`state, this`counter, this`dist, this`abs, this`fuel, o`outPos, o`out, o.buf
      modifies r`inPos, r`eaten, r`pos
      ensures Inv() && fuel < old(fuel) && old(o.out) < o.out && |o.out| - o.outPos == old(|o.out| - o.outPos)
      ensures o.outPos == old(o.outPos) + 1 && r.inPos == old(r.inPos) + 1
      ensures r.eaten - r.inPos == old(r.eaten - r.inPos)
      ensures counter == old(counter) - 1 && (counter > 0 ==> StoredDataAt())
    {
      hide Step, Course, Needed, CodeRead, Hungry, ReadBits, Reader.Valid, Output.Valid, Linked, Str;
      Ahead();
      ViewStoredData(Str(), abs);
      var ok, v := r.GetRaw();
      dist := v;
      abs, fuel := Step(Str(), abs).value, fuel - 1;
      hide Placed;
      StoredByteOut();
    }

    method DoStoredData() returns (turn: Turn)
      requires Synced() && StoredDataAt()
      modifies this`state, this`counter, this`dist, this`abs, this`fuel, o`outPos, o`out, o.buf
      modifies r`inPos, r`bitBuf, r`numBits, r`eaten, r`pos
      ensures Inv() && (turn.Go? ==> fuel < old(fuel))
      ensures Sane(turn) && (turn.Leave? ==> turn.status == HasMoreOutput || turn.status == NeedsMoreInput)
      ensures old(o.out) <= o.out && |o.out| - o.outPos == old(|o.out| - o.outPos)
      ensures r.eaten - r.inPos == old(r.eaten - r.inPos)
    {
      hide Course, Reader.Valid, Linked, Str, Holds, Output.Valid;
      if r.numBits > 0 {
        StoredFromBits();
        return Go;
      }
      state := AtStoredData;
      if o.outPos >= o.outEnd {
        OutputEnd();
        return Leave(HasMoreOutput);
      }
      StoredLeft();
      if r.inPos >= |r.input| {
        HungryBits();
        return Leave(NeedsMoreInput);
      }
      var n := o.outEnd - o.outPos;
      n := if |r.input| - r.inPos < n then |r.input| - r.inPos else n;
      n := if counter < n then counter else n;
      hide Synced, Placed, StoredDataAt;
      for i := 0 to n
        invariant Inv() && fuel <= old(fuel) - i && (counter > 0 ==> StoredDataAt()) && r.numBits == 0
        invariant old(o.out) <= o.out && |o.out| - o.outPos == old(|o.out| - o.outPos)
        invariant o.outPos == old(o.outPos) + i && r.inPos == old(r.inPos) + i && counter == old(counter) - i
        invariant r.eaten - r.inPos == old(r.eaten - r.inPos)
      {
        StoredFromInput();
      }
      return Go;
    }

    lemma OutputEnd()
      requires o.Valid()
      ensures o.outPos <= o.outEnd
    {
    }

    /** Inside a stored block of a stream that ends properly, running out of input means more will come:
        the point where the program gives up instead (state 40) is not reached. */
    lemma StoredLeft()
      requires Synced() && StoredDataAt() && r.numBits == 0
      ensures r.inPos == |r.input| ==> r.more
      ensures r.inPos <= |r.input|
    {
      hide Step, Course, Needed, CodeRead, Hungry, Linked, Output.Valid;
      Ahead();
      ViewStoredData(Str(), abs);
    }

    // ---- Block headers

    /** The fixed codes of section 3.2.6 of RFC 1951. */
    method FixedTables()
      requires Linked()
      modifies t0`nodes, t0.look, t0.tree, t0.sizes, t1`nodes, t1.look, t1.tree, t1.sizes
      ensures t0.For(FixedLit()) && t1.For(FixedDist())
    {
      hide Usable, FixedLit, FixedDist;
      FixedUsable();
      FixedLimited();
      Fill(t1.sizes, 0, 32, 5);
      Fill(t0.sizes, 0, 144, 8);
      Fill(t0.sizes, 144, 256, 9);
      Fill(t0.sizes, 256, 280, 7);
      Fill(t0.sizes, 280, 288, 8);
      FixedShape(t0.sizes[..], t1.sizes[..32]);
      assert t0.sizes[..288] == t0.sizes[..];
      var ok1 := t1.Build(32);
      var ok0 := t0.Build(288);
    }

    /** The three header bits have been read, and skipped to a byte boundary for a stored block. */
    method StartBlock(kind: nat)
      requires Synced() && kind <= 3 && (kind == 0 ==> r.numBits % 8 == 0)
      requires abs.pc == (if kind == 0 then StoredLen([]) else if kind == 1 then Sym
                          else if kind == 2 then Sizes([]) else Pc.Failed)
      requires kind == 1 ==> abs.lit == FixedLit() && abs.dist == FixedDist()
      modifies this`state, this`counter
      modifies t0`nodes, t0.look, t0.tree, t0.sizes, t1`nodes, t1.look, t1.tree, t1.sizes
      ensures Inv()
    {
      hide Course, Reader.Valid, Output.Valid, Str, FixedLit, FixedDist, Lookup.For;
      if kind == 0 {
        counter := 0;
        state := AtStoredLen;
      } else if kind == 3 {
        state := BadType;
      } else if kind == 1 {
        FixedTables();
        state := AtSym;
      } else {
        counter := 0;
        state := AtSizes;
      }
    }

    method DoHeader() returns (turn: Turn)
      requires Synced() && abs.pc.Header?
      modifies this`state, this`counter, this`final, this`abs, this`fuel
      modifies r`inPos, r`bitBuf, r`numBits, r`eaten, r`pos
      modifies t0`nodes, t0.look, t0.tree, t0.sizes, t1`nodes, t1.look, t1.tree, t1.sizes
      ensures Inv() && (turn.Go? ==> fuel < old(fuel)) && Sane(turn) && (turn.Leave? ==> turn.status == NeedsMoreInput)
      ensures o.out == old(o.out) && r.eaten - r.inPos == old(r.eaten - r.inPos)
    {
      hide ByteBits, Reader.Starved, EndAt, TrailerAt;
      hide Step, Course, Needed, CodeRead, Hungry, ReadBits, Reader.Valid, Output.Valid, AlignUp;
      hide Str, FixedLit, FixedDist, Coding, Linked;
      hide StoredLenAt, SizesAt, ClLensAt, LensAt, RepeatAt, LenBitsAt, DistBitsAt, CopyAt, StoredByteAt, StoredDataAt;
      Ahead();
      ViewHeader(Str(), abs);
      ghost var b := Step(Str(), abs).value;
      state := AtHeader;
      var ok, v := r.GetBits(3);
      if !ok {
        HungryBits();
        return Leave(NeedsMoreInput);
      }
      hide Placed;
      final := v;
      if v / 2 == 0 {
        r.Align();
      }
      abs, fuel := b, fuel - 1;
      StartBlock(v / 2);
      return Go;
    }

    // ---- The codes of a dynamic block

    /** A table size has been read. */
    method StoreSize(v: nat, ghost sizes: seq<nat>)
      requires Synced() && counter == |sizes| < 3 && tableSizes[..counter] == sizes && SizesOk(sizes + [v])
      requires abs.pc == (if counter < 2 then Sizes(sizes + [v]) else ClLens(sizes + [v], 0, seq(19, i => 0)))
      modifies this`state, this`counter, tableSizes, t2.sizes
      ensures Inv()
    {
      hide Course, Reader.Valid, Output.Valid, Str;
      tableSizes[counter] := v;
      counter := counter + 1;
      assert tableSizes[..counter] == sizes + [v];
      if counter < 3 {
        state := AtSizes;
      } else {
        assert tableSizes[..] == tableSizes[..counter];
        hide Placed;
        ClearLengthCode(sizes + [v]);
      }
    }

    /** All table sizes are there; the lengths of the code length code start out as zero. */
    method ClearLengthCode(ghost sizes: seq<nat>)
      requires Synced() && |sizes| == 3 && SizesOk(sizes) && tableSizes[..] == sizes
      requires abs.pc == ClLens(sizes, 0, seq(19, i => 0))
      modifies this`state, this`counter, t2.sizes
      ensures Inv()
    {
      hide Course, Reader.Valid, Output.Valid, Str, Placed;
      Fill(t2.sizes, 0, MAX_CODES, 0);
      counter := 0;
      state := AtClLens;
      assert t2.sizes[..19] == seq(19, i => 0);
      PlacedClLens();
    }

    lemma PlacedClLens()
      requires state == AtClLens && ClLensAt()
      ensures Placed()
    {
    }

    method DoSizes() returns (turn: Turn)
      requires Synced() && SizesAt()
      modifies this`state, this`counter, this`abs, this`fuel, tableSizes, t2.sizes
      modifies r`inPos, r`bitBuf, r`numBits, r`eaten, r`pos
      ensures Inv() && (turn.Go? ==> fuel < old(fuel)) && Sane(turn) && (turn.Leave? ==> turn.status == NeedsMoreInput)
      ensures o.out == old(o.out) && r.eaten - r.inPos == old(r.eaten - r.inPos)
    {
      hide Step, Course, Needed, CodeRead, Hungry, ReadBits, Reader.Valid, Output.Valid, Str, Coding, Linked;
      Ahead();
      ViewSizes(Str(), abs);
      Pow2Table();
      ghost var sizes := abs.pc.sizes;
      state := AtSizes;
      var ok, v := r.GetBits(SIZE_BITS[counter]);
      if !ok {
        HungryBits();
        return Leave(NeedsMoreInput);
      }
      hide Placed;
      abs, fuel := Step(Str(), abs).value, fuel - 1;
      StoreSize(v + MIN_SIZES[counter], sizes);
      return Go;
    }

    /** A length of the code length code has been read. */
    method StoreClLen(v: nat, ghost sizes: seq<nat>, ghost cl: seq<nat>)
      requires Synced() && v < 8 && |cl| == 19 && Limited(cl, 7) && t2.sizes[..19] == cl
      requires |sizes| == 3 && SizesOk(sizes) && tableSizes[..] == sizes && counter < sizes[2]
      requires
        var c := cl[CL_ORDER[counter] := v];
        if counter + 1 < sizes[2] then abs.pc == ClLens(sizes, counter + 1, c)
        else if Usable(c) then abs.pc == Lens(sizes, c, [])
        else abs.pc.Failed?
      modifies this`state, this`counter, tableSizes, t2.sizes, t2`nodes, t2.look, t2.tree
      ensures Inv()
    {
      hide Inv, Placed, Course, Reader.Valid, Output.Valid, Str, Usable, Limited, Lookup.For;
      ghost var c := cl[CL_ORDER[counter] := v];
      OrderInside(cl, counter, v);
      t2.sizes[CL_ORDER[counter]] := v;
      assert t2.sizes[..19] == c;
      counter := counter + 1;
      state := AtClLens;
      if counter >= tableSizes[2] {
        BuildLengthCode(c);
      } else {
        StandsInTables();
      }
    }

    method DoClLens() returns (turn: Turn)
      requires Synced() && ClLensAt()
      modifies this`state, this`counter, this`abs, this`fuel, tableSizes, t2.sizes, t2`nodes, t2.look, t2.tree
      modifies r`inPos, r`bitBuf, r`numBits, r`eaten, r`pos
      ensures Inv() && (turn.Go? ==> fuel < old(fuel)) && Sane(turn) && (turn.Leave? ==> turn.status == NeedsMoreInput)
      ensures o.out == old(o.out) && r.eaten - r.inPos == old(r.eaten - r.inPos)
    {
      hide Step, Course, Needed, CodeRead, Hungry, ReadBits, Reader.Valid, Output.Valid, Str, Coding, Usable, Linked;
      Ahead();
      ViewClLens(Str(), abs);
      ghost var sizes, cl := abs.pc.sizes, abs.pc.cl;
      state := AtClLens;
      var ok, v := r.GetBits(3);
      if !ok {
        HungryBits();
        return Leave(NeedsMoreInput);
      }
      hide Placed;
      abs, fuel := Step(Str(), abs).value, fuel - 1;
      StoreClLen(v, sizes, cl);
      return Go;
    }

    /** All lengths of the code length code are there. */
    method BuildLengthCode(ghost c: seq<nat>)
      requires Synced() && |c| == 19 && Limited(c, MAX_BITS) && t2.sizes[..19] == c
      requires if Usable(c) then abs.pc.Lens? && abs.pc.lens == [] && abs.pc.cl == c else abs.pc.Failed?
      requires Usable(c) ==> |abs.pc.sizes| == 3 && SizesOk(abs.pc.sizes) && tableSizes[..] == abs.pc.sizes
      modifies this`state, this`counter, tableSizes, t2`nodes, t2.look, t2.tree
      ensures Inv()
    {
      hide Inv, Placed, BitsOf, Repeated, Lookup.Shaped;
      hide Course, Reader.Valid, Output.Valid, Str, Coding, Usable, Lookup.For;
      tableSizes[2] := 19;
      var ok := t2.Build(19);
      if !ok {
        state := BadCode;
      } else {
        counter := 0;
        state := AtLens;
        assert lenCodes[..0] == [];
      }
      StandsInTables();
    }

    /** The code lengths read so far, of which there may now be enough or too many. */
    ghost predicate Collected(sizes: seq<nat>, cl: seq<nat>, lens: seq<nat>)
      reads this`counter, tableSizes, lenCodes, t2, t2.look, t2.tree
    {
      && |sizes| == 3 == tableSizes.Length && SizesOk(sizes)
      && tableSizes[0] == sizes[0] && tableSizes[1] == sizes[1]
      && |cl| == 19 && t2.For(cl) && counter == |lens|
      && lenCodes.Length == MAX_LENS && counter <= MAX_LENS && lenCodes[..counter] == lens && Limited(lens, MAX_BITS)
    }

    /** The code lengths go to the two tables. */
    method CopySizes(n0: nat, n1: nat, ghost lens: seq<nat>)
      requires Linked() && n0 + n1 == |lens| && n0 <= 288 && n1 <= 32 && lenCodes[..|lens|] == lens
      modifies t0.sizes, t1.sizes
      ensures t0.sizes[..n0] == lens[..n0] && t1.sizes[..n1] == lens[n0..]
    {
      CopyTo(lenCodes, 0, t0.sizes, n0);
      CopyTo(lenCodes, n0, t1.sizes, n1);
    }

    /** The literal/length and distance tables, from as many code lengths as they need. */
    method BuildTables(n0: nat, n1: nat, ghost lit: seq<nat>, ghost dist: seq<nat>)
      requires Synced() && n0 <= 288 && n1 <= 32 && t0.sizes[..n0] == lit && t1.sizes[..n1] == dist
      requires Limited(lit, MAX_BITS) && Limited(dist, MAX_BITS)
      requires if Usable(lit) && Usable(dist) then abs.pc.Sym? && abs.lit == lit && abs.dist == dist else abs.pc.Failed?
      modifies this`state, t0`nodes, t0.look, t0.tree, t1`nodes, t1.look, t1.tree
      ensures Inv()
    {
      hide Terminal, Repeated, ByteBits, TrailerAt;
      hide Inv, Placed, Course, Reader.Valid, Output.Valid, Str, Usable, Lookup.For, Limited;
      var ok := t1.Build(n1);
      if ok {
        ok := t0.Build(n0);
      }
      state := if ok then AtSym else BadCode;
      StandsInTables();
    }

    method AfterLens(ghost a: State, ghost sizes: seq<nat>, ghost cl: seq<nat>, ghost lens: seq<nat>)
      requires Synced() && Collected(sizes, cl, lens) && FinishLens(a, sizes, cl, lens) == Some(abs)
      modifies this`state
      modifies t0`nodes, t0.look, t0.tree, t0.sizes, t1`nodes, t1.look, t1.tree, t1.sizes
      ensures Inv()
    {
      hide Course, Reader.Valid, Output.Valid, Str, Usable, Lookup.For, Linked;
      if counter < tableSizes[0] + tableSizes[1] {
        state := AtLens;
      } else if counter != tableSizes[0] + tableSizes[1] {
        state := BadCount;
      } else {
        hide Placed;
        var n0, n1 := tableSizes[0], tableSizes[1];
        LimitedParts(lens, n0);
        CopySizes(n0, n1, lens);
        BuildTables(n0, n1, lens[..n0], lens[n0..]);
      }
    }

    /** A plain code length has been read. */
    method StoreLen(v: nat, ghost a: State, ghost sizes: seq<nat>, ghost cl: seq<nat>, ghost lens: seq<nat>)
      requires Synced() && LensHeld(sizes, cl, lens) && v < 16
      requires FinishLens(a, sizes, cl, lens + [v]) == Some(abs)
      modifies this`state, this`counter, lenCodes
      modifies t0`nodes, t0.look, t0.tree, t0.sizes, t1`nodes, t1.look, t1.tree, t1.sizes
      ensures Inv()
    {
      hide Course, Reader.Valid, Output.Valid, Str, Usable, Lookup.For, FinishLens, Placed;
      lenCodes[counter] := v;
      counter := counter + 1;
      assert lenCodes[..counter] == lens + [v];
      AfterLens(a, sizes, cl, lens + [v]);
    }

    /** A repetition has been read: `n` times the last length or zero. */
    method StoreRepeat(n: nat, ghost a: State, ghost sizes: seq<nat>, ghost cl: seq<nat>, ghost lens: seq<nat>)
      requires Synced() && LensHeld(sizes, cl, lens) && n <= 138 && (dist == 16 ==> counter > 0)
      requires FinishLens(a, sizes, cl, Repeated(lens, dist, n)) == Some(abs)
      modifies this`state, this`counter, lenCodes
      modifies t0`nodes, t0.look, t0.tree, t0.sizes, t1`nodes, t1.look, t1.tree, t1.sizes
      ensures Inv()
    {
      hide Course, Reader.Valid, Output.Valid, Str, Usable, Lookup.For, FinishLens, Placed;
      var value := if dist == 16 then lenCodes[counter - 1] else 0;
      ghost var next := Repeated(lens, dist, n);
      assert next == lens + seq(n, i => value);
      Fill(lenCodes, counter, counter + n, value);
      counter := counter + n;
      assert lenCodes[..counter] == next;
      AfterLens(a, sizes, cl, next);
    }

    method DoLens(resumed: bool) returns (turn: Turn)
      requires Synced() && LensAt()
      modifies this`state, this`counter, this`dist, this`numExtra, this`abs, this`fuel, lenCodes
      modifies r`inPos, r`bitBuf, r`numBits, r`eaten, r`pos
      modifies t0`nodes, t0.look, t0.tree, t0.sizes, t1`nodes, t1.look, t1.tree, t1.sizes
      ensures Inv() && (turn.Go? ==> fuel < old(fuel)) && Sane(turn) && (turn.Leave? ==> turn.status == NeedsMoreInput)
      ensures o.out == old(o.out) && r.eaten - r.inPos == old(r.eaten - r.inPos)
    {
      hide SizesOk, Inv, Pow256, Reader.Starved, EndAt, BitsOf, Limited;
      hide Step, Course, Needed, CodeRead, Hungry, Reader.Valid, Output.Valid, Str, Usable;
      hide Placed, Lookup.For, CodeAt, FinishLens, Linked;
      hide LenBitsAt, DistBitsAt, CopyAt, StoredByteAt, StoredDataAt, StoredLenAt, SizesAt, ClLensAt, Coding;
      Ahead();
      ViewLens(Str(), abs);
      ghost var a, sizes, cl, lens := abs, abs.pc.sizes, abs.pc.cl, abs.pc.lens;
      ghost var s := DecodeSym(cl, Str(), abs.pos).value;
      CodeAtInside(cl, s, Str(), abs.pos);
      state := AtLens;
      var ok, sym := HuffDecode(r, t2, resumed, cl, s);
      if !ok {
        HungryCode();
        StandsInTables();
        return Leave(NeedsMoreInput);
      }
      dist := sym;
      abs, fuel := Step(Str(), abs).value, fuel - 1;
      TakeLen(a.(pos := abs.pos), sizes, cl, lens);
      return Go;
    }

    /** A symbol of the code length code has been read. */
    method TakeLen(ghost a: State, ghost sizes: seq<nat>, ghost cl: seq<nat>, ghost lens: seq<nat>)
      requires Synced() && LensHeld(sizes, cl, lens) && dist <= 18
      requires dist < 16 ==> FinishLens(a, sizes, cl, lens + [dist]) == Some(abs)
      requires dist >= 16 ==>
                 abs.pc == if dist == 16 && lens == [] then Pc.Failed else LensRepeat(sizes, cl, lens, dist)
      modifies this`state, this`counter, this`numExtra, lenCodes
      modifies t0`nodes, t0.look, t0.tree, t0.sizes, t1`nodes, t1.look, t1.tree, t1.sizes
      ensures Inv()
    {
      hide Course, Reader.Valid, Output.Valid, Str, Usable, Lookup.For, FinishLens, Linked;
      if dist < 16 {
        hide Placed, LensHeld;
        StoreLen(dist, a, sizes, cl, lens);
      } else if dist == 16 && counter == 0 {
        state := BadRepeat;
      } else {
        numExtra := RepeatBits(dist);
        state := AtRepeat;
      }
    }

    method DoRepeat() returns (turn: Turn)
      requires Synced() && RepeatAt()
      modifies this`state, this`counter, this`abs, this`fuel, lenCodes
      modifies r`inPos, r`bitBuf, r`numBits, r`eaten, r`pos
      modifies t0`nodes, t0.look, t0.tree, t0.sizes, t1`nodes, t1.look, t1.tree, t1.sizes
      ensures Inv() && (turn.Go? ==> fuel < old(fuel)) && Sane(turn) && (turn.Leave? ==> turn.status == NeedsMoreInput)
      ensures o.out == old(o.out) && r.eaten - r.inPos == old(r.eaten - r.inPos)
    {
      hide Repeated, ByteBits, Pow2, Reader.Starved, EndAt;
      hide Step, Course, Needed, CodeRead, Hungry, ReadBits, Reader.Valid, Output.Valid, Str;
      hide Usable, Lookup.For, FinishLens, Linked, LensHeld;
      hide LenBitsAt, DistBitsAt, CopyAt, StoredByteAt, StoredDataAt, StoredLenAt, SizesAt, ClLensAt, Coding, LensAt;
      Ahead();
      ViewLensRepeat(Str(), abs);
      Pow2Table();
      ghost var a, sizes, cl, lens := abs, abs.pc.sizes, abs.pc.cl, abs.pc.lens;
      state := AtRepeat;
      var ok, v := r.GetBits(numExtra);
      if !ok {
        HungryBits();
        return Leave(NeedsMoreInput);
      }
      hide Placed;
      abs, fuel := Step(Str(), abs).value, fuel - 1;
      StoreRepeat(v + RepeatBase(dist), a.(pos := a.pos + RepeatBits(dist)), sizes, cl, lens);
      return Go;
    }

    // ---- Symbols

    /** A literal/length symbol has been decoded. */
    method TakeSymbol(sym: nat)
      requires Synced() && sym <= 285 && (sym != 256 ==> Coding())
      requires sym == 256 ==> abs.final == abs.pc.LastBlockDone?
      requires if sym < 256 then abs.pc == EmitLit(sym) else if sym == 256 then abs.pc.LastBlockDone? || abs.pc.Header?
               else abs.pc == LenBits(sym)
      modifies this`state, this`counter, this`numExtra
      ensures Inv()
    {
      hide Course, Reader.Valid, Output.Valid, Str, Linked, Coding;
      counter := sym;
      if counter < 256 {
        state := AtLit;
      } else if counter == 256 {
        EndOfBlock();
      } else {
        hide Placed;
        TakeLength();
      }
    }

    /** A length symbol: its base and the number of its extra bits. */
    method TakeLength()
      requires Synced() && 257 <= counter <= 285 && Coding() && abs.pc == LenBits(counter)
      modifies this`state, this`counter, this`numExtra
      ensures Inv()
    {
      hide Course, Reader.Valid, Output.Valid, Str, Linked, Lookup.For, Placed;
      var sym := counter;
      numExtra := LENGTH_EXTRA[sym - 257];
      counter := LENGTH_BASE[sym - 257];
      state := AtLenBits;
      PlacedLenBits(sym);
    }

    lemma PlacedLenBits(sym: nat)
      requires state == AtLenBits && 257 <= sym <= 285 && abs.pc == LenBits(sym) && Coding()
      requires counter == LENGTH_BASE[sym - 257] && numExtra == LENGTH_EXTRA[sym - 257]
      ensures Placed()
    {
    }

    /** A symbol decoded with care, byte by byte if need be. */
    method DoSymSlow(resumed: bool) returns (turn: Turn)
      requires Synced() && abs.pc.Sym? && Coding()
      modifies this`state, this`counter, this`numExtra, this`abs, this`fuel
      modifies r`inPos, r`bitBuf, r`numBits, r`eaten, r`pos
      ensures Inv() && (turn.Go? ==> fuel < old(fuel)) && Sane(turn) && (turn.Leave? ==> turn.status == NeedsMoreInput)
      ensures o.out == old(o.out) && r.eaten - r.inPos == old(r.eaten - r.inPos)
    {
      hide Step, Course, Needed, CodeRead, Hungry, Reader.Valid, Output.Valid, Str, Lookup.For, CodeAt, Linked;
      SymFacts();
      state := AtSym;
      var ok, sym := HuffDecode(r, t0, resumed, abs.lit, DecodeSym(abs.lit, Str(), abs.pos).value);
      if !ok {
        HungryCode();
        return Leave(NeedsMoreInput);
      }
      hide Placed;
      abs, fuel := Step(Str(), abs).value, fuel - 1;
      TakeSymbol(sym);
      return Go;
    }

    method DoLit() returns (turn: Turn)
      requires Synced() && abs.pc.EmitLit? && abs.pc.b == counter && Coding()
      modifies this`state, this`abs, this`fuel, o`outPos, o`out, o.buf
      ensures Inv() && fuel <= old(fuel) && (turn.Go? ==> fuel < old(fuel))
      ensures Sane(turn) && (turn.Leave? ==> turn.status == HasMoreOutput)
      ensures turn.Go? ==> o.outPos == old(o.outPos) + 1 && abs.pc.Sym? && Coding()
      ensures old(o.out) <= o.out && |o.out| - o.outPos == old(|o.out| - o.outPos)
    {
      hide Step, Course, Needed, CodeRead, Hungry, Reader.Valid, Output.Valid, Str, Lookup.For, Linked;
      Ahead();
      ViewEmitLit(Str(), abs);
      OutputEnd();
      state := AtLit;
      if o.outPos >= o.outEnd {
        return Leave(HasMoreOutput);
      }
      o.Put(counter);
      abs, fuel := Step(Str(), abs).value, fuel - 1;
      state := AtSym;
      return Go;
    }

    lemma LenBitsFacts()
      requires Synced() && LenBitsAt()
      ensures Needed(abs.pc) == numExtra <= 13
      ensures fuel > 0 && Step(Str(), abs).Some? && Course(Step(Str(), abs).value, fuel - 1)
      ensures 8 * |r.stream| == |Str()|
      ensures !Terminal(abs.pc) && abs.pos + numExtra <= |Str()| && ReadBits(Str(), abs.pos, numExtra).Some?
      ensures counter >= MIN_MATCH
      ensures Step(Str(), abs).value ==
        abs.(pos := abs.pos + numExtra, pc := DistCode(counter + ReadBits(Str(), abs.pos, numExtra).value))
    {
      hide Step, Course, Needed, CodeRead, Hungry, Linked, Reader.Valid, Output.Valid;
      Ahead();
      ViewLenBits(Str(), abs);
    }

    method DoLenBits() returns (turn: Turn)
      requires Synced() && LenBitsAt() && Coding()
      modifies this`state, this`counter, this`abs, this`fuel
      modifies r`inPos, r`bitBuf, r`numBits, r`eaten, r`pos
      ensures Inv() && (turn.Go? ==> fuel < old(fuel)) && Sane(turn) && (turn.Leave? ==> turn.status == NeedsMoreInput)
      ensures o.out == old(o.out) && r.eaten - r.inPos == old(r.eaten - r.inPos)
    {
      hide Inv, Placed, ByteBits, EndAt;
      hide Step, Course, Needed, CodeRead, Hungry, ReadBits, Reader.Valid, Output.Valid, Str;
      hide Lookup.For, Linked, LenBitsAt;
      LenBitsFacts();
      NoBits(Str(), abs.pos);
      state := AtLenBits;
      if numExtra > 0 {
        var ok, v := r.GetBits(numExtra);
        if !ok {
          HungryBits();
          StandsInSymbols();
          return Leave(NeedsMoreInput);
        }
        counter := counter + v;
      }
      abs, fuel := Step(Str(), abs).value, fuel - 1;
      state := AtDistCode;
      StandsInSymbols();
      return Go;
    }

    method DoDistCode(resumed: bool) returns (turn: Turn)
      requires Synced() && abs.pc == DistCode(counter) && MIN_MATCH <= counter && Coding()
      modifies this`state, this`dist, this`numExtra, this`abs, this`fuel
      modifies r`inPos, r`bitBuf, r`numBits, r`eaten, r`pos
      ensures Inv() && (turn.Go? ==> fuel < old(fuel)) && Sane(turn) && (turn.Leave? ==> turn.status == NeedsMoreInput)
      ensures o.out == old(o.out) && r.eaten - r.inPos == old(r.eaten - r.inPos)
    {
      hide Inv, Placed, Limited;
      hide Step, Course, Needed, CodeRead, Hungry, Reader.Valid, Output.Valid, Str, Lookup.For, CodeAt, Linked;
      Ahead();
      ViewDistCode(Str(), abs);
      state := AtDistCode;
      var ok, sym := HuffDecode(r, t1, resumed, abs.dist, DecodeSym(abs.dist, Str(), abs.pos).value);
      if !ok {
        HungryCode();
        StandsInSymbols();
        return Leave(NeedsMoreInput);
      }
      abs, fuel := Step(Str(), abs).value, fuel - 1;
      TakeDistance(sym);
      return Go;
    }

    /** A distance symbol: its base and the number of its extra bits. */
    method TakeDistance(sym: nat)
      requires Synced() && Coding() && sym <= 29 && abs.pc == DistBits(counter, sym) && MIN_MATCH <= counter
      modifies this`state, this`dist, this`numExtra
      ensures Inv()
    {
      hide Course, Reader.Valid, Output.Valid, Str, Linked, Lookup.For, Placed;
      numExtra := DIST_EXTRA[sym];
      dist := DIST_BASE[sym];
      state := AtDistBits;
      PlacedDistBits();
    }

    lemma PlacedDistBits()
      requires state == AtDistBits && DistBitsAt() && Coding()
      ensures Placed()
    {
    }

    // ---- Matches

    lemma DistBitsFacts()
      requires Synced() && DistBitsAt()
      ensures Needed(abs.pc) == numExtra <= 13
      ensures fuel > 0 && Step(Str(), abs).Some? && Course(Step(Str(), abs).value, fuel - 1)
      ensures 8 * |r.stream| == |Str()|
      ensures !Terminal(abs.pc) && abs.pos + numExtra <= |Str()| && ReadBits(Str(), abs.pos, numExtra).Some?
      ensures counter >= MIN_MATCH
      ensures 1 <= dist + ReadBits(Str(), abs.pos, numExtra).value <= DICT_SIZE
      ensures
        var d := dist + ReadBits(Str(), abs.pos, numExtra).value;
        Step(Str(), abs).value ==
          abs.(pos := abs.pos + numExtra, pc := if d > |abs.out| then TooFar else CopyMatch(counter, d))
    {
      hide Step, Course, Needed, CodeRead, Hungry, Linked, Reader.Valid, Output.Valid;
      Ahead();
      ViewDistBits(Str(), abs);
    }

    method DoDistBits() returns (turn: Turn)
      requires Synced() && DistBitsAt() && Coding()
      modifies this`state, this`counter, this`dist, this`from, this`laps, this`abs, this`fuel, o`outPos, o`out, o.buf
      modifies r`inPos, r`bitBuf, r`numBits, r`eaten, r`pos
      ensures Inv() && (turn.Go? ==> fuel < old(fuel)) && Sane(turn) && (turn.Leave? ==> turn.status == NeedsMoreInput)
      ensures old(o.out) <= o.out && |o.out| - o.outPos == old(|o.out| - o.outPos)
      ensures r.eaten - r.inPos == old(r.eaten - r.inPos)
    {
      hide Inv, Placed, ByteBits, EndAt;
      hide Step, Course, Needed, CodeRead, Hungry, ReadBits, Reader.Valid, Output.Valid, Str;
      hide Lookup.For, Linked, DistBitsAt;
      DistBitsFacts();
      NoBits(Str(), abs.pos);
      state := AtDistBits;
      if numExtra > 0 {
        var ok, v := r.GetBits(numExtra);
        if !ok {
          HungryBits();
          StandsInSymbols();
          return Leave(NeedsMoreInput);
        }
        dist := dist + v;
      }
      abs, fuel := Step(Str(), abs).value, fuel - 1;
      StartMatch();
      return Go;
    }

    lemma NotTooFar()
      requires Synced()
      ensures o.wrap ==> !abs.pc.TooFar?
      ensures abs.pc.CopyMatch? ==> o.Near(abs.pc.dist)
      ensures o.outPos <= o.outEnd <= o.buf.Length && o.out == abs.out && (!o.wrap ==> o.outPos == |o.out|)
      ensures o.wrap ==> o.outEnd == o.window
    {
      hide Step, Run, Within;
      CourseStep(Str(), mode, total, abs, fuel, goal);
      if o.wrap {
        CourseBack(Str(), mode, total, abs, fuel, goal, o.window);
      }
    }

    /** Length and distance are known: copy at once if source and target lie in one piece, otherwise byte
        by byte. */
    method StartMatch()
      requires Synced() && Coding() && 1 <= dist && MIN_MATCH <= counter
      requires abs.pc == if dist > |abs.out| then TooFar else CopyMatch(counter, dist)
      modifies this`state, this`counter, this`from, this`laps, this`abs, this`fuel, o`outPos, o`out, o.buf
      ensures Inv() && fuel <= old(fuel)
      ensures old(o.out) <= o.out && |o.out| - o.outPos == old(|o.out| - o.outPos)
    {
      hide Output.Index, DistBitsAt, CopyAt, RepeatBits;
      hide Course, Reader.Valid, Output.Valid, Str, Lookup.For, Linked, Placed;
      NotTooFar();
      from := o.outPos;
      if dist > from && !o.wrap {
        state := TooFarBack;
        PlacedTooFar();
        return;
      }
      laps := 0;
      var src := o.Source(from, dist, 0);
      if (if o.outPos > src then o.outPos else src) + counter > o.outEnd {
        counter := counter - 1;
        state := AtCopy;
        PlacedCopy();
      } else {
        if unaligned && counter >= 9 && counter <= dist {
          CopyWords(src);
        } else {
          CopyFast(src);
        }
      }
    }

    /** One byte of a match. */
    method CopyOne(src: nat, ghost left: nat)
      requires Synced() && Coding() && abs.pc == CopyMatch(left, dist) && left > 0
      requires 1 <= dist <= |abs.out| && o.Near(dist) && o.outPos < o.outEnd && src == o.Index(dist)
      modifies this`abs, this`fuel, o`outPos, o`out, o.buf
      ensures Synced() && Coding() && abs.pc == CopyMatch(left - 1, dist) && fuel == old(fuel) - 1
      ensures dist <= |abs.out| && o.outPos == old(o.outPos) + 1
      ensures old(o.out) <= o.out && |o.out| - o.outPos == old(|o.out| - o.outPos)
    {
      hide Step, Course, Needed, CodeRead, Hungry, Reader.Valid, Output.Valid, Str, Lookup.For, Linked, Output.Index;
      Ahead();
      ViewCopyMatch(Str(), abs);
      o.IndexHolds(dist);
      o.Put(o.buf[src]);
      abs, fuel := Step(Str(), abs).value, fuel - 1;
    }

    /** The match is complete. */
    method EndMatch()
      requires Synced() && Coding() && abs.pc == CopyMatch(0, dist) && 1 <= dist <= |abs.out|
      modifies this`state, this`abs, this`fuel
      ensures Inv() && fuel < old(fuel)
    {
      hide Step, Course, Needed, CodeRead, Hungry, Reader.Valid, Output.Valid, Str, Lookup.For, Linked;
      Ahead();
      ViewCopyMatch(Str(), abs);
      abs, fuel := Step(Str(), abs).value, fuel - 1;
      state := AtSym;
    }

    method CopyThree(src: nat)
      requires Synced() && Coding() && abs.pc == CopyMatch(counter, dist) && MIN_MATCH <= counter
      requires 1 <= dist <= |abs.out| && o.Near(dist) && src == o.Index(dist)
      requires src + counter <= o.outEnd && o.outPos + counter <= o.outEnd && (o.wrap ==> o.outEnd == o.window)
      modifies this`abs, this`fuel, o`outPos, o`out, o.buf
      ensures Synced() && Coding() && abs.pc == CopyMatch(counter - 3, dist) && fuel < old(fuel)
      ensures dist <= |abs.out| && o.outPos == old(o.outPos) + 3 && (counter > 3 ==> src + 3 == o.Index(dist))
      ensures old(o.out) <= o.out && |o.out| - o.outPos == old(|o.out| - o.outPos)
    {
      hide Synced, Coding;
      CopyOne(src, counter);
      CopyOne(src + 1, counter - 1);
      CopyOne(src + 2, counter - 2);
    }

    /** The copy in one piece, three bytes a turn; overlapping source and target included. */
    method CopyFast(src0: nat)
      requires Synced() && Coding() && abs.pc == CopyMatch(counter, dist) && MIN_MATCH <= counter
      requires 1 <= dist <= |abs.out| && o.Near(dist) && src0 == o.Index(dist)
      requires src0 + counter <= o.outEnd && o.outPos + counter <= o.outEnd && (o.wrap ==> o.outEnd == o.window)
      modifies this`state, this`counter, this`abs, this`fuel, o`outPos, o`out, o.buf
      ensures Inv() && fuel <= old(fuel)
      ensures old(o.out) <= o.out && |o.out| - o.outPos == old(|o.out| - o.outPos)
    {
      hide Synced, Coding, Placed;
      var src := src0;
      while true
        invariant Synced() && Coding() && abs.pc == CopyMatch(counter, dist) && MIN_MATCH <= counter
        invariant 1 <= dist <= |abs.out| && src == o.Index(dist) && fuel <= old(fuel)
        invariant src + counter <= o.outEnd && o.outPos + counter <= o.outEnd
        invariant old(o.out) <= o.out && |o.out| - o.outPos == old(|o.out| - o.outPos)
        decreases counter
      {
        CopyThree(src);
        src := src + 3;
        counter := counter - 3;
        if counter <= 2 {
          break;
        }
      }
      if counter > 0 {
        CopyOne(src, counter);
        if counter > 1 {
          CopyOne(src + 1, counter - 1);
        }
      }
      EndMatch();
    }

    /** One byte of a match, loaded earlier. */
    method CopyLoaded(c: byte, ghost left: nat)
      requires Synced() && Coding() && abs.pc == CopyMatch(left, dist) && left > 0
      requires 1 <= dist <= |abs.out| && o.outPos < o.outEnd && c == abs.out[|abs.out| - dist]
      modifies this`abs, this`fuel, o`outPos, o`out, o.buf
      ensures Synced() && Coding() && abs.pc == CopyMatch(left - 1, dist) && fuel == old(fuel) - 1
      ensures abs.out == old(abs.out) + [c] && o.outPos == old(o.outPos) + 1
      ensures old(o.out) <= o.out && |o.out| - o.outPos == old(|o.out| - o.outPos)
    {
      hide Step, Course, Needed, CodeRead, Hungry, Reader.Valid, Output.Valid, Str, Lookup.For, Linked;
      Ahead();
      ViewCopyMatch(Str(), abs);
      o.Put(c);
      abs, fuel := Step(Str(), abs).value, fuel - 1;
    }

    /** The four bytes a 32-bit load fetches are the next four of the match, as long as the distance is at
        least 4. */
    lemma LoadedWord(src: nat)
      requires Synced() && 4 <= dist <= |abs.out| && o.Near(dist) && src == o.Index(dist)
      requires src + 4 <= o.outEnd && (o.wrap ==> o.outEnd == o.window)
      ensures o.outEnd <= o.buf.Length
      ensures o.buf[src] == abs.out[|abs.out| - dist] && o.buf[src + 1] == abs.out[|abs.out| - dist + 1]
      ensures o.buf[src + 2] == abs.out[|abs.out| - dist + 2] && o.buf[src + 3] == abs.out[|abs.out| - dist + 3]
    {
      hide Course, Reader.Valid, Str, Lookup.For, Linked, Holds;
      o.IndexHolds(dist);
      o.IndexHolds(dist - 1);
      o.IndexHolds(dist - 2);
      o.IndexHolds(dist - 3);
    }

    /** A 32-bit load and store. */
    method CopyWord(src: nat, ghost left: nat)
      requires Synced() && Coding() && abs.pc == CopyMatch(left, dist) && left >= 4
      requires 4 <= dist <= |abs.out| && o.Near(dist) && src == o.Index(dist)
      requires src + left <= o.outEnd && o.outPos + left <= o.outEnd && (o.wrap ==> o.outEnd == o.window)
      modifies this`abs, this`fuel, o`outPos, o`out, o.buf
      ensures Synced() && Coding() && abs.pc == CopyMatch(left - 4, dist) && fuel == old(fuel) - 4
      ensures dist <= |abs.out| && o.outPos == old(o.outPos) + 4 && (left > 4 ==> src + 4 == o.Index(dist))
      ensures old(o.out) <= o.out && |o.out| - o.outPos == old(|o.out| - o.outPos)
    {
      hide Synced, Coding;
      LoadedWord(src);
      var b0, b1, b2, b3 := o.buf[src], o.buf[src + 1], o.buf[src + 2], o.buf[src + 3];
      CopyLoaded(b0, left);
      CopyLoaded(b1, left - 1);
      CopyLoaded(b2, left - 2);
      CopyLoaded(b3, left - 3);
    }

    method CopyEight(src: nat, ghost left: nat)
      requires Synced() && Coding() && abs.pc == CopyMatch(left, dist) && left >= 8
      requires 9 <= dist <= |abs.out| && o.Near(dist) && src == o.Index(dist)
      requires src + left <= o.outEnd && o.outPos + left <= o.outEnd && (o.wrap ==> o.outEnd == o.window)
      modifies this`abs, this`fuel, o`outPos, o`out, o.buf
      ensures Synced() && Coding() && abs.pc == CopyMatch(left - 8, dist) && fuel < old(fuel)
      ensures dist <= |abs.out| && o.outPos == old(o.outPos) + 8 && (left > 8 ==> src + 8 == o.Index(dist))
      ensures old(o.out) <= o.out && |o.out| - o.outPos == old(|o.out| - o.outPos)
    {
      hide Synced, Coding;
      CopyWord(src, left);
      CopyWord(src + 4, left - 4);
    }

    /** The 8-byte copy of machines with unaligned access, for matches that do not overlap their source;
        what remains is copied as elsewhere. */
    method CopyWords(src0: nat)
      requires Synced() && Coding() && abs.pc == CopyMatch(counter, dist) && 9 <= counter <= dist
      requires dist <= |abs.out| && o.Near(dist) && src0 == o.Index(dist)
      requires src0 + counter <= o.outEnd && o.outPos + counter <= o.outEnd && (o.wrap ==> o.outEnd == o.window)
      modifies this`state, this`counter, this`abs, this`fuel, o`outPos, o`out, o.buf
      ensures Inv() && fuel <= old(fuel)
      ensures old(o.out) <= o.out && |o.out| - o.outPos == old(|o.out| - o.outPos)
    {
      hide Synced, Coding, Placed;
      var src, srcEnd := src0, src0 + counter / 8 * 8;
      ghost var turns: nat := counter / 8;
      while true
        invariant turns >= 1 && srcEnd == src + 8 * turns && srcEnd + counter % 8 <= o.outEnd
        invariant Synced() && Coding() && abs.pc == CopyMatch(8 * turns + counter % 8, dist)
        invariant dist <= |abs.out| && src == o.Index(dist) && fuel <= old(fuel)
        invariant o.outPos + 8 * turns + counter % 8 <= o.outEnd
        invariant old(o.out) <= o.out && |o.out| - o.outPos == old(|o.out| - o.outPos)
        decreases turns
      {
        CopyEight(src, 8 * turns + counter % 8);
        src := src + 8;
        turns := turns - 1;
        if src >= srcEnd {
          break;
        }
      }
      counter := counter % 8;
      CopyRest(src);
    }

    /** What a number of 8-byte copies leaves over. */
    method CopyRest(src: nat)
      requires Synced() && Coding() && abs.pc == CopyMatch(counter, dist) && 1 <= dist <= |abs.out| && o.Near(dist)
      requires counter > 0 ==> src == o.Index(dist)
      requires src + counter <= o.outEnd && o.outPos + counter <= o.outEnd && (o.wrap ==> o.outEnd == o.window)
      modifies this`state, this`counter, this`abs, this`fuel, o`outPos, o`out, o.buf
      ensures Inv() && fuel <= old(fuel)
      ensures old(o.out) <= o.out && |o.out| - o.outPos == old(|o.out| - o.outPos)
    {
      hide Synced, Coding, Placed;
      if counter >= 3 {
        CopyFast(src);
      } else {
        if counter > 0 {
          CopyOne(src, counter);
          if counter > 1 {
            CopyOne(src + 1, counter - 1);
          }
        }
        EndMatch();
      }
    }

    /** One byte of a match that may run into the end of the output buffer. */
    method DoCopy() returns (turn: Turn)
      requires Synced() && CopyAt(o.outPos) && Coding()
      modifies this`state, this`counter, this`from, this`abs, this`fuel, o`outPos, o`out, o.buf
      ensures Inv() && (turn.Go? ==> fuel < old(fuel))
      ensures Sane(turn) && (turn.Leave? ==> turn.status == HasMoreOutput)
      ensures old(o.out) <= o.out && |o.out| - o.outPos == old(|o.out| - o.outPos)
    {
      hide Synced, Coding, Placed, Output.Near, Hungry;
      NotTooFar();
      state := AtCopy;
      if o.outPos >= o.outEnd {
        PlacedCopy();
        return Leave(HasMoreOutput);
      }
      CopyNext();
      if counter == 0 {
        EndMatch();
      } else {
        counter := counter - 1;
        PlacedCopy();
      }
      return Go;
    }

    /** One byte of a match, wherever the window is. */
    method CopyNext()
      requires Synced() && CopyAt(o.outPos) && Coding() && o.outPos < o.outEnd
      modifies this`from, this`abs, this`fuel, o`outPos, o`out, o.buf
      ensures Synced() && Coding() && abs.pc == CopyMatch(counter, dist) && fuel == old(fuel) - 1
      ensures 1 <= dist <= |abs.out| && o.Near(dist) && from == o.outPos + (if o.wrap then o.window * laps else 0)
      ensures old(o.out) <= o.out && |o.out| - o.outPos == old(|o.out| - o.outPos)
    {
      hide Synced, Coding, Output.Index, Output.Near;
      ValidOutput();
      var src := o.Source(from, dist, laps);
      CopyOne(src, counter + 1);
      from := from + 1;
    }


    lemma PlacedTooFar()
      requires state == TooFarBack && abs.pc.TooFar?
      ensures Placed()
    {
    }

    lemma PlacedCopy()
      requires state == AtCopy && CopyAt(o.outPos) && Coding()
      ensures Placed()
    {
    }

    lemma ValidOutput()
      requires Synced()
      ensures o.Valid() && o.out == abs.out
    {
    }

    // ---- Two symbols at a time

    /** Decode a symbol from a bit buffer that is known to hold enough. */
    method DecodeReady(ghost lit: seq<nat>, ghost s: nat) returns (entry: nat)
      requires r.Valid() && t0.For(lit) && CodeAt(lit, s, Str(), r.pos) && r.numBits >= 15
      modifies r`bitBuf, r`numBits, r`pos
      ensures s < |lit| && r.Valid() && r.pos == old(r.pos) + lit[s] && r.numBits >= old(r.numBits) - 15
      ensures entry % 512 == s && (entry / 256 % 2 == 1 <==> s >= 256) && (s < 256 ==> entry % 256 == s)
    {
      hide Reader.Valid, Str, CodeAt, Lookup.For;
      LongestCode(r, t0, lit, s);
      var codeLen;
      entry, codeLen := Resolve(r, t0, lit, s);
      EntryBits(entry, codeLen, s);
      r.Drop(codeLen);
    }

    /** Top the bit buffer up when it may not hold the next code. */
    method TopUp(least: nat, bytes: nat)
      requires r.Valid() && bytes <= |r.input| - r.inPos && least + 8 * bytes <= r.capacity + 1
      modifies r`inPos, r`bitBuf, r`numBits, r`eaten
      ensures r.Valid() && r.numBits >= (if old(r.numBits) < least then old(r.numBits) + 8 * bytes else old(r.numBits))
      ensures r.inPos <= old(r.inPos) + bytes && r.eaten - r.inPos == old(r.eaten - r.inPos)
    {
      if r.numBits < least {
        r.FetchSome(bytes);
      }
    }

    /** With a 32-bit bit buffer the second symbol may need two more bytes. */
    method TopUpNarrow()
      requires r.Valid() && (wide ==> r.numBits >= 15) && (!wide ==> |r.input| - r.inPos >= 2)
      modifies r`inPos, r`bitBuf, r`numBits, r`eaten
      ensures r.Valid() && r.numBits >= 15 && r.eaten - r.inPos == old(r.eaten - r.inPos)
    {
      if !wide {
        TopUp(15, 2);
      }
    }

    lemma Capacity()
      requires Linked()
      ensures r.capacity == if wide then WIDE_BITS else NARROW_BITS
    {
    }

    method DoSymFast() returns (turn: Turn)
      requires Synced() && abs.pc.Sym? && Coding() && |r.input| - r.inPos >= 4 && o.outEnd - o.outPos >= 2
      modifies this`state, this`counter, this`numExtra, this`abs, this`fuel, o`outPos, o`out, o.buf
      modifies r`inPos, r`bitBuf, r`numBits, r`eaten, r`pos
      ensures Inv() && turn.Go? && fuel < old(fuel)
      ensures old(o.out) <= o.out && |o.out| - o.outPos == old(|o.out| - o.outPos)
      ensures r.eaten - r.inPos == old(r.eaten - r.inPos)
    {
      hide Course, Reader.Valid, Output.Valid, Str, Linked, Coding;
      Capacity();
      if wide {
        TopUp(30, 4);
      } else {
        TopUp(15, 2);
      }
      hide Synced, Placed;
      FirstSymbol();
      return Go;
    }

    lemma SymFacts()
      requires Synced() && abs.pc.Sym?
      ensures fuel > 0 && Step(Str(), abs).Some? && Course(Step(Str(), abs).value, fuel - 1)
      ensures 8 * |r.stream| == |Str()|
      ensures
        var d := DecodeSym(abs.lit, Str(), abs.pos);
        d.Some? && d.value <= 285 && CodeAt(abs.lit, d.value, Str(), abs.pos) && d.value < |abs.lit|
      ensures
        var d, b := DecodeSym(abs.lit, Str(), abs.pos).value, Step(Str(), abs).value;
        && b.pos == abs.pos + abs.lit[d] && b.final == abs.final && b.out == abs.out
        && b.pc == (if d < 256 then EmitLit(d)
                    else if d == 256 then (if abs.final then LastBlockDone else Header)
                    else LenBits(d))
        && (d != 256 ==> b.lit == abs.lit && b.dist == abs.dist)
      ensures CodeRead(abs) == abs.lit
    {
      hide Step, Course, Needed, CodeRead, Hungry, Reader.Valid, Output.Valid, Str, Linked;
      Ahead();
      ViewSym(Str(), abs);
    }

    method FirstSymbol()
      requires Synced() && abs.pc.Sym? && Coding() && o.outEnd - o.outPos >= 2
      requires r.numBits >= (if wide then 30 else 15) && (!wide ==> |r.input| - r.inPos >= 2)
      modifies this`state, this`counter, this`numExtra, this`abs, this`fuel, o`outPos, o`out, o.buf
      modifies r`inPos, r`bitBuf, r`numBits, r`eaten, r`pos
      ensures Inv() && fuel < old(fuel)
      ensures old(o.out) <= o.out && |o.out| - o.outPos == old(|o.out| - o.outPos)
      ensures r.eaten - r.inPos == old(r.eaten - r.inPos)
    {
      hide Step, Course, Needed, CodeRead, Hungry, Reader.Valid, Output.Valid, Str, Lookup.For, CodeAt, Linked, Placed;
      SymFacts();
      counter := DecodeReady(abs.lit, DecodeSym(abs.lit, Str(), abs.pos).value);
      if counter / 256 % 2 == 1 {
        abs, fuel := Step(Str(), abs).value, fuel - 1;
        TakeSymbol(counter % 512);
      } else {
        SecondSymbol();
      }
    }

    /** Two symbols ahead of a literal that is decoded but not yet written. */
    ghost function Written(): State
      reads this`abs
      requires Step(Str(), abs).Some? && Step(Str(), abs).value.pc.EmitLit?
    {
      var b := Step(Str(), abs).value;
      b.(pc := Sym, out := b.out + [b.pc.b])
    }

    /** The first of two symbols is a literal, still to be written. */
    ghost predicate LiteralHeld()
      reads this`abs, this`fuel, this`final, this`counter, r, o, o.buf, t0, t0.look, t0.tree, t1, t1.look, t1.tree
    {
      && abs.pc.Sym? && Step(Str(), abs).Some? && Step(Str(), abs).value.pc.EmitLit?
      && SyncedAt(Written().pos) && Coding() && counter % 256 == Step(Str(), abs).value.pc.b
      && Written().out == abs.out + [Step(Str(), abs).value.pc.b]
      && Written().final == abs.final && Written().lit == abs.lit && Written().dist == abs.dist
    }

    lemma SecondFacts()
      requires LiteralHeld()
      ensures fuel >= 3 && Step(Str(), Written()).Some? && Course(Step(Str(), Written()).value, fuel - 3)
      ensures
        var d := DecodeSym(abs.lit, Str(), Written().pos);
        d.Some? && d.value <= 285 && CodeAt(abs.lit, d.value, Str(), Written().pos) && d.value < |abs.lit|
      ensures
        var d, b := DecodeSym(abs.lit, Str(), Written().pos).value, Step(Str(), Written()).value;
        && b.pos == Written().pos + abs.lit[d] && b.final == abs.final && b.out == Written().out
        && b.pc == (if d < 256 then EmitLit(d)
                    else if d == 256 then (if abs.final then LastBlockDone else Header)
                    else LenBits(d))
        && (d != 256 ==> b.lit == abs.lit && b.dist == abs.dist)
    {
      hide Step, OnCourse, Reader.Valid, Output.Valid, Str, Coding;
      AfterLiteral(Str(), mode, total, abs, fuel, goal);
      ViewSym(Str(), Written());
    }

    /** The first of two symbols was a literal, still to be written; now the second. */
    method SecondSymbol()
      requires LiteralHeld() && o.outEnd - o.outPos >= 2
      requires (wide ==> r.numBits >= 15) && (!wide ==> |r.input| - r.inPos >= 2)
      modifies this`state, this`counter, this`numExtra, this`abs, this`fuel, o`outPos, o`out, o.buf
      modifies r`inPos, r`bitBuf, r`numBits, r`eaten, r`pos
      ensures Inv() && fuel < old(fuel)
      ensures old(o.out) <= o.out && |o.out| - o.outPos == old(|o.out| - o.outPos)
      ensures r.eaten - r.inPos == old(r.eaten - r.inPos)
    {
      hide Val, ByteBits;
      hide Step, Course, Needed, CodeRead, Hungry, Reader.Valid, Output.Valid, Str, Lookup.For;
      hide CodeAt, Placed, Written, Linked;
      SecondFacts();
      ghost var a2, lit := Written(), abs.lit;
      TopUpNarrow();
      var sym2 := DecodeReady(lit, DecodeSym(lit, Str(), a2.pos).value);
      o.Put(counter % 256);
      abs, fuel := Step(Str(), a2).value, fuel - 3;
      FinishPair(sym2);
    }

    /** Both symbols are decoded and the first is written. */
    method FinishPair(sym2: nat)
      requires Synced() && o.outPos < o.outEnd
      requires
        var s := sym2 % 512;
        && s <= 285 && (s != 256 ==> Coding()) && (s == 256 ==> abs.final == abs.pc.LastBlockDone?)
        && (if s < 256 then abs.pc == EmitLit(s) else if s == 256 then abs.pc.LastBlockDone? || abs.pc.Header?
            else abs.pc == LenBits(s))
        && (sym2 / 256 % 2 == 1 <==> s >= 256) && (s < 256 ==> sym2 % 256 == s)
      modifies this`state, this`counter, this`numExtra, this`abs, this`fuel, o`outPos, o`out, o.buf
      ensures Inv() && fuel <= old(fuel)
      ensures old(o.out) <= o.out && |o.out| - o.outPos == old(|o.out| - o.outPos)
    {
      hide Course, Reader.Valid, Output.Valid, Str, Lookup.For, Linked, Placed;
      if sym2 / 256 % 2 == 1 {
        TakeSymbol(sym2 % 512);
      } else {
        counter := sym2 % 256;
        var turn := DoLit();
      }
    }
    // ---- The coroutine

    method DoSym(resumed: bool) returns (turn: Turn)
      requires Synced() && abs.pc.Sym? && Coding()
      modifies this`state, this`counter, this`numExtra, this`abs, this`fuel, o`outPos, o`out, o.buf
      modifies r`inPos, r`bitBuf, r`numBits, r`eaten, r`pos
      ensures Inv() && (turn.Go? ==> fuel < old(fuel))
      ensures Sane(turn) && (turn.Leave? ==> turn.status == NeedsMoreInput)
      ensures old(o.out) <= o.out && |o.out| - o.outPos == old(|o.out| - o.outPos)
      ensures r.eaten - r.inPos == old(r.eaten - r.inPos)
    {
      hide Synced, Placed, Coding;
      if resumed || |r.input| - r.inPos < 4 || o.outEnd - o.outPos < 2 {
        turn := DoSymSlow(resumed);
      } else {
        turn := DoSymFast();
      }
    }

    /** A report to the caller agrees with where the machine is. */
    ghost predicate Sane(turn: Turn)
      reads this`abs, this`state, r, o
    {
      match turn
      case Go => true
      case Leave(Finished) => state.AtEnd?
      case Leave(Failed) => Rejected(abs.pc)
      case Leave(NeedsMoreInput) => Hungry()
      case Leave(HasMoreOutput) => o.outPos == o.outEnd && Emits(abs.pc)
      case _ => false
    }

    lemma CanStop()
      ensures Sane(Go)
      ensures state.AtEnd? ==> Sane(Leave(Finished))
      ensures Rejected(abs.pc) ==> Sane(Leave(Status.Failed))
    {
    }

    /** A rejected stream has left the coroutine at one of the points it never leaves. */
    lemma StaysRejected()
      requires Placed()
      ensures Rejected(abs.pc) ==>
                || state.BadHeader? || state.BadType? || state.BadStored? || state.BadCode?
                || state.BadRepeat? || state.BadCount? || state.TooFarBack?
    {
      hide Coding, Adler;
    }

    /** Go on where the coroutine stands. */
    method Continue(resumed: bool) returns (turn: Turn)
      requires Inv()
      modifies this`state, this`dist, this`counter, this`numExtra, this`final, this`from, this`laps
      modifies this`zhdr0, this`zAdler
      modifies this`abs, this`fuel, o`outPos, o`out, o.buf
      modifies r`inPos, r`bitBuf, r`numBits, r`eaten, r`pos, tableSizes, rawHeader, lenCodes
      modifies t0`nodes, t0.look, t0.tree, t0.sizes, t1`nodes, t1.look, t1.tree, t1.sizes
      modifies t2`nodes, t2.look, t2.tree, t2.sizes
      ensures Inv() && (turn.Go? ==> fuel < old(fuel)) && Sane(turn)
      ensures Rejected(old(abs.pc)) ==> turn == Leave(Status.Failed)
      ensures old(o.out) <= o.out && |o.out| - o.outPos == old(|o.out| - o.outPos)
      ensures r.eaten - r.inPos == old(r.eaten - r.inPos)
    {
      hide Sane, Synced, Coding, LensHeld, Hungry, TrailerAt, EndAt, StoredLenAt, StoredDataAt, StoredByteAt, SizesAt;
      hide ClLensAt, LensAt, RepeatAt, LenBitsAt, DistBitsAt, CopyAt;
      StaysRejected();
      CanStop();
      match state
      case AtZlibCmf => turn := DoZlibCmf();
      case AtZlibFlg => turn := DoZlibFlg();
      case AtHeader => turn := DoHeader();
      case AtStoredLen => turn := DoStoredLen();
      case AtStoredData => turn := DoStoredData();
      case AtStoredByte => turn := DoStoredByte();
      case AtSizes => turn := DoSizes();
      case AtClLens => turn := DoClLens();
      case AtLens => turn := DoLens(resumed);
      case AtRepeat => turn := DoRepeat();
      case AtSym => turn := DoSym(resumed);
      case AtLit => turn := DoLit();
      case AtLenBits => turn := DoLenBits();
      case AtDistCode => turn := DoDistCode(resumed);
      case AtDistBits => turn := DoDistBits();
      case AtCopy => turn := DoCopy();
      case AtLastBlockDone =>
        DoLastBlockDone();
        CanStop();
        turn := Go;
      case AtTrailer => turn := DoTrailer();
      case AtEnd => turn := Leave(Finished);
      case _ => turn := Leave(Status.Failed);
    }

    /** The caller's buffers for one call. A caller who has filled the window starts again at its beginning. */
    method Load(input: seq<byte>, more: bool, buf: array<byte>, next: nat, avail: nat)
      requires Resting() && Feeding(r.stream, r.eaten, input, more)
      requires next + avail <= buf.Length && o.Presented(buf[..], next, next + avail)
      requires next == o.outPos || (o.wrap && o.outPos == o.window && next == 0)
      modifies this`laps, r`input, r`inPos, r`more, o`buf, o`outPos, o`outEnd
      ensures Inv() && r.input == input && r.more == more && r.inPos == 0
      ensures o.buf == buf && o.outPos == next && o.outEnd == next + avail && o.out == old(o.out)
    {
      hide Course, Linked, Str, Feeding, Buffered, Output.Presented, PlacedFor;
      NextLap(next);
      r.Load(input, more);
      o.Load(buf, next, avail);
    }

    /** Where a match is being copied, a turn of the window is one more lap. */
    ghost method NextLap(next: nat)
      requires Placed() && (next == o.outPos || (o.wrap && o.outPos == o.window && next == 0))
      modifies this`laps
      ensures PlacedFor(next)
    {
      hide Lookup.For, StoredLenAt, StoredDataAt, StoredByteAt, SizesAt, ClLensAt, LensAt, RepeatAt;
      hide LenBitsAt, DistBitsAt;
      if next != o.outPos {
        LapStep(o.window, laps);
        laps := laps + 1;
      }
    }

    /** Take up the input and the room for output, and run the coroutine until it leaves. */
    method Advance(input: seq<byte>, more: bool, buf: array<byte>, next: nat, avail: nat) returns (left: Status)
      requires Resting() && Feeding(r.stream, r.eaten, input, more)
      requires next + avail <= buf.Length && o.Presented(buf[..], next, next + avail)
      requires next == o.outPos || (o.wrap && o.outPos == o.window && next == 0)
      modifies this, Memory(), buf
      ensures Inv() && Sane(Leave(left)) && left != BadParam && left != AdlerMismatch
      ensures left != Status.Failed ==> Summed(old(o.out))
      ensures checkAdler == old(checkAdler)
      ensures r.input == input && r.eaten == old(r.eaten) + r.inPos
      ensures o.buf == buf && o.outEnd == next + avail
      ensures old(o.out) <= o.out && |o.out| - o.outPos == |old(o.out)| - next
      ensures left == Finished || left == Status.Failed ==> abs == goal
      ensures left == NeedsMoreInput ==> more && r.inPos == |r.input|
      ensures left == HasMoreOutput ==> o.outPos == o.outEnd && |o.out| < |goal.out|
    {
      hide Linked, Str, Placed, Inv, Resting, Feeding, Output.Presented, Adler, Sane;
      SummedBefore();
      Load(input, more, buf, next, avail);
      left := Drive();
    }

    /** `tinfl_decompress`. `input` continues the stream, and is the rest of it unless `more` is set; the
        output goes to `buf` from `next` on, for at most `avail` bytes. However the stream and the room for
        output are divided over calls, the statuses and the bytes are those of the one run of the stream.
        More input is asked for only where what has been fetched holds no further element. */
    method Decompress(input: seq<byte>, more: bool, buf: array<byte>, next: nat, avail: nat)
      returns (status: Status, consumed: nat, produced: nat)
      requires Resting() && next + avail <= buf.Length
      requires !o.wrap || PowerOfTwo(next + avail) ==>
        && Feeding(r.stream, r.eaten, input, more)
        && o.Presented(buf[..], next, next + avail)
        && (next == o.outPos || (o.wrap && o.outPos == o.window && next == 0))
      modifies this, Memory(), buf
      ensures Resting()
      ensures status == BadParam <==> o.wrap && !PowerOfTwo(next + avail)
      ensures status == BadParam ==> consumed == produced == 0 && o.out == old(o.out)
      ensures consumed <= |input| && r.eaten == old(r.eaten) + consumed
      ensures produced <= avail && old(o.out) <= o.out <= goal.out && |o.out| == |old(o.out)| + produced
      ensures buf[next..next + produced] == o.out[|old(o.out)|..]
      ensures status != BadParam ==> o.outPos == next + produced && o.Presented(buf[..], o.outPos, next + avail)
      ensures status == Finished ==> goal.pc.Done? && o.out == goal.out
      ensures status == AdlerMismatch ==> goal.pc.Mismatch? && o.out == goal.out
      ensures status == Finished || status == AdlerMismatch ==>
                goal.pos <= 8 * r.eaten <= goal.pos + if wide then 61 else 30
      ensures status == Status.Failed ==> Rejected(goal.pc) && o.out == goal.out
      ensures status == NeedsMoreInput ==> more && consumed == |input| && Step(Fed(r), abs).None?
      ensures status == HasMoreOutput ==> produced == avail && |o.out| < |goal.out|
      ensures if status == BadParam || status == Status.Failed || !(zlib || summing) then checkAdler == old(checkAdler)
              else checkAdler == Adler(1, o.out)
    {
      hide Course, Linked, Str, Placed, Inv, Resting, Feeding, Buffered, Output.Presented, Holds, Adler, Step, Fed;
      consumed, produced := 0, 0;
      if o.wrap && !PowerOfTwo(next + avail) {
        Bounded();
        status := BadParam;
        return;
      }
      ghost var was := o.out;
      status := Advance(input, more, buf, next, avail);
      status, produced := Conclude(status, buf, next, was);
      consumed := r.inPos;
      Prefetched();
    }

    /** What has been fetched beyond the current position is in the bit buffer. */
    lemma Prefetched()
      requires Resting()
      ensures abs.pos <= 8 * r.eaten <= abs.pos + if wide then 61 else 30
    {
      hide Placed, Course, Summed;
    }

    /** The end of a call: count and sum the output, and come to rest. */
    method Conclude(left: Status, buf: array<byte>, next: nat, ghost was: seq<byte>)
      returns (status: Status, produced: nat)
      requires Inv() && Sane(Leave(left)) && left != AdlerMismatch && left != BadParam
      requires left != Status.Failed ==> Summed(was)
      requires o.buf == buf && was <= o.out && |o.out| - o.outPos == |was| - next
      modifies this`checkAdler
      ensures Resting() && r.inPos <= |r.input| && o.out <= goal.out && o.out == abs.out
      ensures next + produced == o.outPos <= o.outEnd <= buf.Length
      ensures buf[next..next + produced] == o.out[|was|..]
      ensures o.Presented(buf[..], o.outPos, o.outEnd)
      ensures left == Finished ==> status == if abs.pc.Done? then Finished else AdlerMismatch
      ensures left == Finished ==> abs.pc.Done? || abs.pc.Mismatch?
      ensures left != Finished ==> status == left
      ensures left != Status.Failed ==> Summed(o.out)
      ensures left == Status.Failed ==> Rejected(abs.pc)
      ensures left == Status.Failed || !(zlib || summing) ==> checkAdler == old(checkAdler)
    {
      hide Inv, Resting, Output.Presented, Adler, Step, Fed;
      OutputSpan(was, next);
      produced := o.outPos - next;
      status := Sum(left, buf, next, produced, was);
      InvParts(was, next);
    }

    /** Between calls the decompressor stands at a state of the run. */
    lemma StandsAt() returns (j: nat)
      requires Resting()
      ensures Run(ByteBits(r.stream), Start(mode), j) == Some(abs) && o.out == abs.out
    {
      j := total - fuel;
      hide Placed, Run, Linked, Buffered, Adler;
    }

    lemma SummedBefore()
      requires Resting()
      ensures Rejected(abs.pc) || Summed(o.out)
    {
      hide Placed, Course, Linked, Buffered, Adler;
    }

    /** Whether the checksum is up to date, until the stream is rejected. */
    ghost predicate SummedUp()
      reads this`abs, this`checkAdler, o`out
    {
      Rejected(abs.pc) || Summed(o.out)
    }

    /** The output of the call enters the running checksum, which at the end must be the stream's own. */
    method Sum(left: Status, buf: array<byte>, next: nat, produced: nat, ghost was: seq<byte>) returns (status: Status)
      requires Inv() && Sane(Leave(left)) && left != AdlerMismatch && left != BadParam
      requires left != Status.Failed ==> Summed(was)
      requires next + produced <= buf.Length && o.out == was + buf[next..next + produced]
      modifies this`checkAdler
      ensures Inv() && SummedUp()
      ensures left == Finished ==> status == if abs.pc.Done? then Finished else AdlerMismatch
      ensures left == Finished ==> abs.pc.Done? || abs.pc.Mismatch?
      ensures left != Finished ==> status == left
      ensures left != Status.Failed ==> Summed(o.out)
      ensures left == Status.Failed ==> Rejected(abs.pc)
      ensures left == Status.Failed || !(zlib || summing) ==> checkAdler == old(checkAdler)
    {
      hide Course, Linked, Str, Adler, Reader.Valid, Output.Valid, Coding, Hungry, Step;
      hide StoredLenAt, StoredDataAt, StoredByteAt, SizesAt, ClLensAt, LensAt, RepeatAt, LenBitsAt, DistBitsAt, CopyAt;
      status := left;
      if left != Status.Failed && (zlib || summing) {
        AdlerComposes(1, was, buf[next..next + produced]);
        checkAdler := Adler32(checkAdler, Some(buf[next..next + produced]));
        if left == Finished && zlib && checkAdler != zAdler {
          status := AdlerMismatch;
        }
      }
    }

    /** Run the coroutine until it leaves. */
    method Drive() returns (status: Status)
      requires Inv()
      modifies this, Memory(), o.buf
      ensures Inv() && Sane(Leave(status))
      ensures old(o.out) <= o.out && |o.out| - o.outPos == old(|o.out| - o.outPos)
      ensures r.eaten - r.inPos == old(r.eaten - r.inPos) && r.input == old(r.input) && r.more == old(r.more)
      ensures o.buf == old(o.buf) && o.outEnd == old(o.outEnd) && checkAdler == old(checkAdler)
      ensures status == Finished || status == Status.Failed ==> abs == goal
      ensures status == NeedsMoreInput ==> r.more && r.inPos == |r.input|
      ensures status == HasMoreOutput ==> o.outPos == o.outEnd && |o.out| < |goal.out|
      ensures status != BadParam && status != AdlerMismatch
      ensures Rejected(old(abs.pc)) ==> status == Status.Failed
    {
      hide Inv;
      var resumed := true;
      while true
        invariant Inv() && (Rejected(old(abs.pc)) ==> Rejected(abs.pc))
        invariant old(o.out) <= o.out && |o.out| - o.outPos == old(|o.out| - o.outPos)
        invariant r.eaten - r.inPos == old(r.eaten - r.inPos) && r.input == old(r.input) && r.more == old(r.more)
        invariant o.buf == old(o.buf) && o.outEnd == old(o.outEnd) && checkAdler == old(checkAdler)
        decreases fuel
      {
        var turn := Continue(resumed);
        if turn.Leave? {
          Settled(turn);
          return turn.status;
        }
        resumed := false;
      }
    }

    lemma Bounded()
      requires Resting()
      ensures o.out <= goal.out
    {
      hide Placed, Step, Linked, Buffered, Adler;
      RunGrows(Str(), abs, fuel, goal);
    }

    /** What the call has produced lies where the caller's output began. */
    lemma OutputSpan(was: seq<byte>, next: nat)
      requires Inv() && was <= o.out && |o.out| - o.outPos == |was| - next
      ensures r.inPos <= |r.input| && next <= o.outPos <= o.outEnd <= o.buf.Length
      ensures o.buf[next..o.outPos] == o.out[|was|..] && o.out == was + o.buf[next..o.outPos]
    {
      hide Placed, Course, Linked, Str, Holds, Feeding, Buffered;
      o.Delivered(next, was);
      assert o.out == was + o.out[|was|..];
    }

    lemma InvParts(was: seq<byte>, next: nat)
      requires Inv() && SummedUp() && was <= o.out && |o.out| - o.outPos == |was| - next
      ensures Resting() && o.out == abs.out && o.out <= goal.out
      ensures o.Presented(o.buf[..], o.outPos, o.outEnd)
    {
      hide Placed, Course, Linked, Str, Holds, Feeding, Buffered, Adler;
      Bounded();
    }

    /** At the end of its run the machine is at its goal. */
    lemma Settled(turn: Turn)
      requires Inv() && turn.Leave? && Sane(turn)
      ensures turn.status == Finished || turn.status == Status.Failed ==> abs == goal
      ensures turn.status == NeedsMoreInput ==> r.more && r.inPos == |r.input|
      ensures turn.status == HasMoreOutput ==> o.outPos == o.outEnd && |o.out| < |goal.out|
      ensures turn.status != BadParam && turn.status != AdlerMismatch
    {
      hide Step, Run, Adler, Coding;
      hide StoredLenAt, StoredDataAt, StoredByteAt, SizesAt, ClLensAt, LensAt, RepeatAt, LenBitsAt, DistBitsAt, CopyAt;
      CourseStep(Str(), mode, total, abs, fuel, goal);
      if turn.status == HasMoreOutput {
        MoreToCome(Str(), abs, fuel, goal);
      }
    }
  }

  lemma LapStep(window: nat, laps: nat)
    ensures window + window * laps == window * (laps + 1)
  {
  }

  /** Rejected streams: the coroutine stays where it found the error. */
  ghost predicate Rejected(pc: Pc) { pc.Failed? || pc.TooFar? }

  lemma NothingSummed()
    ensures Adler(1, []) == 1
  {
  }

  function Pow256(n: nat): (p: nat)
    ensures p >= 1
  {
    if n == 0 then 1 else 256 * Pow256(n - 1)
  }

  /** Reducing a number of `k`-ary digits to `q` times `k` values keeps its lowest digit. */
  lemma Reduced(k: nat, q: nat, a: nat, low: nat)
    requires low < k && q >= 1
    ensures (k * a + low) % (k * q) == k * (a % q) + low
  {
    var c, d := a / q, a % q;
    assert a == q * c + d;
    Digits(k, q, c, d, low);
  }

  lemma Digits(k: nat, q: nat, c: nat, d: nat, low: nat)
    requires d < q && low < k
    ensures (k * (q * c + d) + low) % (k * q) == k * d + low
  {
    Regrouped(k, q, c, d);
    Below(k, q, d, low);
    var x, p := k * d + low, k * q;
    assert k * (q * c + d) + low == x + p * c;
    DivModUnique(x, p, c);
  }

  lemma Below(k: nat, q: nat, d: nat, low: nat)
    requires d < q && low < k
    ensures k * d + low < k * q
  {
    MulAtLeast(k, q - d);
    assert k * q == k * (d + (q - d)) == k * d + k * (q - d);
  }

  lemma Regrouped(k: nat, q: nat, c: nat, d: nat)
    ensures k * (q * c + d) == (k * q) * c + k * d
  {
    assert k * (q * c + d) == k * (q * c) + k * d;
    assert k * (q * c) == (k * q) * c;
  }

  /** Shifting a byte into a 32-bit word: after four bytes nothing is left of what was there before. */
  lemma TrailerWord(z: nat, n: nat, v: nat)
    requires z < 0x1_0000_0000 && n < 4 && v < 256
    ensures (z * 256 + v) % 0x1_0000_0000 % Pow256(n + 1) == 256 * (z % Pow256(n)) + v
    ensures n == 3 ==> (z * 256 + v) % 0x1_0000_0000 == 256 * (z % Pow256(n)) + v
  {
    hide Pow256;
    var p, q := Pow256(n), Pow256(3 - n);
    var a, low := z / p, 256 * (z % p) + v;
    FourBytes(n);
    assert z * 256 + v == 256 * p * a + low by { Regrouped(p, 1, a, 0); }
    Reduced(256 * p, q, a, low);
    DivModUnique(low, 256 * p, a % q);
  }

  lemma FourBytes(n: nat)
    requires n < 4
    ensures Pow256(n + 1) == 256 * Pow256(n) && 256 * Pow256(n) * Pow256(3 - n) == 0x1_0000_0000
    ensures n == 3 ==> Pow256(n + 1) == 0x1_0000_0000
  {
    assert Pow256(2) == 0x1_0000 && Pow256(3) == 0x100_0000;
  }

  /** No header can ask for more than `NO_LIMIT`. */
  lemma HeaderTest(cmf: nat, flg: nat)
    requires cmf < 256
    ensures Pow2(8 + cmf / 16) <= NO_LIMIT && (Pow2(8 + cmf / 16) > 32768 <==> cmf / 16 > 7)
  {
    Pow2Table();
    assert Pow2(20) == 0x10_0000;
    assert Pow2(23) == NO_LIMIT;
    Pow2Mono(8 + cmf / 16, 23);
    if cmf / 16 > 7 { Pow2Mono(16, 8 + cmf / 16); } else { Pow2Mono(8 + cmf / 16, 15); }
    assert Pow2(15) == 32768;
  }

  /** The test the program makes of its window size (`n & (n - 1)` is zero). */
  predicate PowerOfTwo(n: nat) {
    n <= 1 || (n % 2 == 0 && PowerOfTwo(n / 2))
  }

  /** The sizes a wrapping buffer may have; nothing at all is taken for one of them. */
  lemma {:induction false} PowerOfTwoIs(n: nat)
    ensures PowerOfTwo(n) <==> n == 0 || exists k: nat :: n == Pow2(k)
  {
    if n == 1 {
      assert n == Pow2(0);
    } else if n > 1 {
      PowerOfTwoIs(n / 2);
      if PowerOfTwo(n) {
        var k: nat :| n / 2 == Pow2(k);
        assert n == Pow2(k + 1);
      }
      if k: nat :| n == Pow2(k) {
        assert k > 0 && n == 2 * Pow2(k - 1) && n / 2 == Pow2(k - 1);
      }
    }
  }

  lemma OrderInside(cl: seq<nat>, n: nat, v: nat)
    requires |cl| == 19 && n < 19 && v < 8 && Limited(cl, 7)
    ensures CL_ORDER[n] < 19 && Limited(cl[CL_ORDER[n] := v], 7) && Limited(cl[CL_ORDER[n] := v], MAX_BITS)
  {
  }

  lemma EntryBits(entry: nat, codeLen: nat, s: nat)
    requires s < 512 && (entry == s || entry == 512 * codeLen + s)
    ensures entry % 512 == s && (entry / 256 % 2 == 1 <==> s >= 256) && (s < 256 ==> entry % 256 == s)
  {
    if entry != s {
      DivModUnique(s, 512, codeLen);
      DivModUnique(s % 256, 256, 2 * codeLen + s / 256);
    }
  }

  lemma LimitedParts(lens: seq<nat>, n: nat)
    requires Limited(lens, MAX_BITS) && n <= |lens|
    ensures Limited(lens[..n], MAX_BITS) && Limited(lens[n..], MAX_BITS)
  {
  }

  lemma CodeAtInside(lens: seq<nat>, s: nat, w: bits, pos: nat)
    requires CodeAt(lens, s, w, pos)
    ensures s < |lens| && lens[s] > 0
  {
  }

  lemma FixedLimited()
    ensures |FixedLit()| == 288 && |FixedDist()| == 32
    ensures Limited(FixedLit(), MAX_BITS) && Limited(FixedDist(), MAX_BITS)
  {
  }

  lemma FixedShape(lit: seq<nat>, dist: seq<nat>)
    requires lit == seq(144, i => 8) + seq(112, i => 9) + seq(24, i => 7) + seq(8, i => 8)
    requires dist == seq(32, i => 5)
    ensures lit == FixedLit() && dist == FixedDist()
  {
  }
}
