/** The compressor: `tdefl_compress`, with an output callback or with buffers of the caller's, over the lazy
    and greedy parser `tdefl_compress_normal`. */
module Deflate {
  import opened Bits
  import opened Arrays
  import opened Canonical
  import opened Tokens
  import opened InflateSpec
  import opened Encoding
  import opened HuffTable
  import opened BitWriter
  import opened LzBuffer
  import opened Tally
  import opened BlockWriter
  import opened BlockChoice
  import opened Chains
  import opened Dictionary
  import opened Checksums
  import opened Outlet
  import opened Stream

  // ---- What the tokens recorded so far stand for

  /** The tokens of the current block stand for the source from `start` to `at`, and refer to nothing before
      `base`. */
  ghost predicate Parsed(hist: seq<byte>, base: nat, start: nat, toks: seq<Token>, at: nat) {
    base <= start <= at <= |hist| && Expand(hist[base..start], toks) == Some(hist[base..at])
  }

  lemma ParsedLit(hist: seq<byte>, base: nat, start: nat, toks: seq<Token>, at: nat)
    requires Parsed(hist, base, start, toks, at) && at < |hist|
    ensures Parsed(hist, base, start, toks + [Lit(hist[at])], at + 1)
  {
    ExpandOne(hist[base..start], toks, Lit(hist[at]));
    assert hist[base..at] + [hist[at]] == hist[base..at + 1];
    hide Expand;
  }

  lemma ParsedMatch(hist: seq<byte>, base: nat, start: nat, toks: seq<Token>, at: nat, dist: nat, len: nat)
    requires Parsed(hist, base, start, toks, at) && IsMatch(hist, at, dist, len) && base + dist <= at
    ensures Parsed(hist, base, start, toks + [Match(len, dist)], at + len)
  {
    ExpandOne(hist[base..start], toks, Match(len, dist));
    MatchSince(hist, base, at, dist, len);
    hide Expand, Copy;
  }

  lemma MatchSince(hist: seq<byte>, base: nat, at: nat, dist: nat, len: nat)
    requires IsMatch(hist, at, dist, len) && base + dist <= at
    ensures Copy(hist[base..at], dist, len) == hist[base..at + len]
  {
    var data, p := hist[base..], at - base;
    forall i | p <= i < p + len ensures data[i] == data[i - dist] {
      assert hist[base + i] == hist[base + i - dist];
    }
    CopyIsMatch(data, p, dist, len);
    assert data[..p] == hist[base..at] && data[..p + len] == hist[base..at + len];
  }

  lemma ParsedGrow(hist: seq<byte>, more: seq<byte>, base: nat, start: nat, toks: seq<Token>, at: nat)
    requires Parsed(hist, base, start, toks, at)
    ensures Parsed(hist + more, base, start, toks, at)
  {
    assert (hist + more)[base..start] == hist[base..start];
    assert (hist + more)[base..at] == hist[base..at];
    hide Expand;
  }

  lemma ParsedNone(hist: seq<byte>, base: nat, at: nat)
    requires base <= at <= |hist|
    ensures Parsed(hist, base, at, [], at)
  {
  }

  lemma ParsedSize(hist: seq<byte>, base: nat, start: nat, toks: seq<Token>, at: nat)
    requires Parsed(hist, base, start, toks, at)
    ensures at == start + TotalSize(toks)
    ensures Expand(hist[base..start], toks) == Some(hist[base..start] + hist[start..at])
  {
    ExpandSize(hist[base..start], toks);
    assert hist[base..at] == hist[base..start] + hist[start..at];
  }

  /** A match held back by the lazy parser: a true match one byte behind the current position. */
  ghost predicate Pending(hist: seq<byte>, base: nat, pos: nat, ahead: nat, dist: nat, len: nat, lit: byte) {
    && (len > 0 ==> MIN_MATCH <= len < 128 && len - 1 <= ahead && dist <= DICT_SIZE && base + dist < pos)
    && (len > 0 ==> 1 <= pos <= |hist| && lit == hist[pos - 1] && IsMatch(hist, pos - 1, dist, len))
  }

  /** How far the tokens reach when the current position is `pos`. */
  function Behind(pos: nat, savedLen: nat): nat {
    if savedLen > 0 && pos > 0 then pos - 1 else pos
  }

  lemma PendingGrow(hist: seq<byte>, more: seq<byte>, base: nat, pos: nat, ahead: nat, dist: nat, len: nat,
                    lit: byte)
    requires Pending(hist, base, pos, ahead, dist, len, lit)
    ensures Pending(hist + more, base, pos, ahead + |more|, dist, len, lit)
  {
  }

  datatype Status = BadParam | PutBufFailed | Okay | Finished

  function Bit(flags: nat, bit: nat): bool
    requires bit > 0
  {
    flags / bit % 2 == 1
  }

  class Compressor {
    const probes0: nat
    const probes1: nat
    const greedy: bool
    const rle: bool
    const filter: bool
    const forceStatic: bool
    const forceRaw: bool
    const zlib: bool
    const summing: bool
    const d: Dict
    const lz: Codes
    const w: Writer
    const o: Outlet
    const t0: Table
    const t1: Table
    const t2: Table
    var savedDist: nat
    var savedLen: nat
    var savedLit: byte
    var total: nat
    var blockStart: nat
    var wantsFinish: bool
    var finished: bool
    var status: Status
    var blockIndex: nat
    var adler: uint32
    /** How many bits had been put when the dictionary was last emptied. */
    ghost var cut: nat

    /** The memory of the parts is separate. */
    ghost predicate Laid() {
      && probes0 >= 1 && probes1 >= 1
      && Apart(t0, t1) && Apart(t0, t2) && Apart(t1, t2)
      && d.ring != w.outBuf && d.ring != lz.buf && w.outBuf != lz.buf && o.w == w
    }

    ghost function Memory(): set<object> { Parts(d, lz, w, o, t0, t1, t2) }

    /** The tokens recorded, their statistics and their size. */
    ghost predicate Recording()
      reads this`total, lz, lz.buf, t0.count, t1.count
    {
      && lz.Valid() && Tallied(t0.count[..], t1.count[..], lz.toks) && total == TotalSize(lz.toks)
    }

    /** The lossless-parse invariant: the tokens stand for everything up to the current position, but
        for one byte when a match is pending. */
    ghost predicate Parsing()
      reads this`savedDist, this`savedLen, this`savedLit, this`blockStart, lz`toks
      reads d`hist, d`pos, d`ahead, d`since
    {
      && Parsed(d.hist, d.since, blockStart, lz.toks, Behind(d.pos, savedLen))
      && Pending(d.hist, d.since, d.pos, d.ahead, savedDist, savedLen, savedLit)
      && (rle || forceRaw ==> savedLen == 0)
    }

    /** The bits written stand for everything before the current block; and those since the last full flush, by
        themselves, for what has come since. */
    ghost predicate Opened()
      reads this`blockIndex, this`blockStart, this`cut, w`put, w`base, d`hist, d`since
    {
      if zlib && blockIndex == 0 then w.put == [] && w.base == 0 && blockStart == cut == d.since == 0
      else blockStart <= |d.hist| && Tells(zlib, w.put, cut, false, d.hist[..blockStart], d.since)
    }

    ghost predicate Writing()
      reads this`blockIndex, this`blockStart, this`cut, o`sink, o`ofs, o`left, o.w, o.w.outBuf, w, w.outBuf
      reads d`hist, d`since
    {
      w.Valid() && w.full == 0 && o.Valid() && Opened()
    }

    /** The running checksum. */
    ghost predicate Summed()
      reads this`adler, d`hist
    {
      zlib || summing ==> adler == Adler(1, d.hist)
    }

    ghost predicate Valid()
      reads this`savedDist, this`savedLen, this`savedLit, this`total, this`blockStart, this`blockIndex, this`cut
      reads o`sink, o`ofs, o`left, o.w, o.w.outBuf, d, d.ring, d.next, d.hash, lz, lz.buf, w, w.outBuf
      reads t0.count, t1.count
    {
      Laid() && d.Valid() && Recording() && Parsing() && Writing()
    }

    /** `tdefl_init` */
    constructor (flags: nat, callback: bool, accepts: nat -> bool)
      ensures Valid() && lz.pos == 1 && d.hist == [] && o.sink == [] && status == Okay && !wantsFinish && !finished
      ensures Summed() && o.left == 0 && fresh(Memory()) && fresh(o)
      ensures cut == d.since == 0 && o.callback == callback && o.accepts == accepts
      ensures probes0 == 1 + (flags % 4096 + 2) / 3 && probes1 == 1 + (flags % 4096 / 4 + 2) / 3
      ensures zlib == (flags / 0x1000 % 2 == 1) && summing == (flags / 0x2000 % 2 == 1)
      ensures greedy == (flags / 0x4000 % 2 == 1) && rle == (flags / 0x1_0000 % 2 == 1)
      ensures filter == (flags / 0x2_0000 % 2 == 1) && forceStatic == (flags / 0x4_0000 % 2 == 1)
      ensures forceRaw == (flags / 0x8_0000 % 2 == 1)
    {
      hide Dict.Valid, Codes.Valid, Writer.Valid, Tallied, Tells, ByteBits, Parsed, Pending, TotalSize, Adler;
      hide Outlet.Valid, Valid, Apart, Parts;
      probes0 := 1 + (flags % 4096 + 2) / 3;
      probes1 := 1 + (flags % 4096 / 4 + 2) / 3;
      greedy := Bit(flags, 0x4000);
      rle, filter := Bit(flags, 0x10000), Bit(flags, 0x20000);
      forceStatic, forceRaw := Bit(flags, 0x40000), Bit(flags, 0x80000);
      zlib, summing := Bit(flags, 0x1000), Bit(flags, 0x2000);
      var dict, codes, v, out, a, b, c := NewParts(callback, accepts);
      d, lz, w, o, t0, t1, t2 := dict, codes, v, out, a, b, c;
      savedDist, savedLen, savedLit, total, blockStart, blockIndex, adler, cut := 0, 0, 0, 0, 0, 0, 1, 0;
      wantsFinish, finished, status := false, false, Okay;
      new;
      FirstState();
    }

    lemma FirstState()
      requires Laid() && d.Valid() && lz.Valid() && w.Valid() && o.Valid()
      requires d.hist == [] && d.pos == d.ahead == d.since == 0
      requires lz.toks == [] && t0.count.Length == t1.count.Length == MAX_SYMBOLS && total == 0
      requires forall s :: 0 <= s < MAX_SYMBOLS ==> t0.count[s] == 0 && t1.count[s] == 0
      requires savedDist == savedLen == savedLit == blockStart == blockIndex == cut == 0
      requires w.put == [] && w.base == w.full == 0 && adler == 1
      ensures Valid() && Summed()
    {
      hide Laid, Dict.Valid, Codes.Valid, Writer.Valid, Outlet.Valid, Tallied, Tells, Parsed, Pending, TotalSize;
      NothingYet(t0.count[..], t1.count[..]);
    }

    method RecordLiteral(c: byte)
      requires Laid() && Recording() && lz.pos + 2 <= lz.buf.Length
      modifies this`total, lz, lz.buf, t0.count
      ensures Recording() && lz.toks == old(lz.toks) + [Lit(c)] && lz.pos <= old(lz.pos) + 2
    {
      hide Tallied, Codes.Valid;
      TallyPush(t0.count[..], t1.count[..], lz.toks, Lit(c));
      TotalPush(lz.toks, Lit(c));
      total := total + 1;
      lz.RecordLiteral(c);
      ghost var count := t0.count[..];
      t0.count[c] := t0.count[c] + 1;
      assert t0.count[..] == count[c := count[c] + 1];
    }

    method RecordMatch(len: nat, dist: nat)
      requires Laid() && Recording() && lz.pos + 4 <= lz.buf.Length && Match(len, dist).Ok()
      modifies this`total, lz, lz.buf, t0.count, t1.count
      ensures Recording() && lz.toks == old(lz.toks) + [Match(len, dist)] && lz.pos <= old(lz.pos) + 4
    {
      hide Tallied, Codes.Valid, LenSym, DistSym;
      TallyPush(t0.count[..], t1.count[..], lz.toks, Match(len, dist));
      TotalPush(lz.toks, Match(len, dist));
      total := total + len;
      lz.RecordMatch(len, dist);
      ghost var count0, count1 := t0.count[..], t1.count[..];
      var s1 := DistSym(dist - 1);
      t1.count[s1] := t1.count[s1] + 1;
      var s0 := LenSym(len - MIN_MATCH);
      t0.count[s0] := t0.count[s0] + 1;
      assert t0.count[..] == count0[s0 := count0[s0] + 1] && t1.count[..] == count1[s1 := count1[s1] + 1];
    }

    /** The length that a match has to exceed. */
    ghost function Known(): nat
      reads this`savedLen
    {
      if savedLen > 0 then savedLen else 2
    }

    /** What the search at the current position finds: nothing for raw blocks, the longest run for the run-length
        parser, otherwise a match that only one out of reach of the probes is longer than. */
    ghost predicate Found(dist: nat, len: nat)
      reads this`savedLen, d
    {
      if forceRaw || (rle && d.size == 0) then dist == 0 && len == Known()
      else if rle then
        if len == 0 then dist == 0 && !IsMatch(d.hist, d.pos, 1, 3)
        else dist == 1 && 3 <= len <= d.ahead && IsMatch(d.hist, d.pos, 1, len)
             && (len < d.ahead ==> !IsMatch(d.hist, d.pos, 1, len + 1))
      else
        && ((dist == 0 && len == Known())
            || (Known() < len <= d.ahead && 1 <= dist <= d.size && IsMatch(d.hist, d.pos, dist, len)))
        && d.Searched(if Known() >= 32 then probes1 else probes0, len)
    }

    /** Matches that are not worth it: short ones from afar, those the ring position forbids, and for filtered
        data all up to five bytes. */
    ghost predicate Discarded(dist: nat, len: nat)
      reads d`pos
    {
      (len == 3 && dist >= 8192) || d.pos % 32768 == dist || (filter && len <= 5)
    }

    /** The search for a match at the current position, and the rules that discard one. */
    method Search() returns (dist: nat, len: nat, ghost dist0: nat, ghost len0: nat)
      requires Laid() && d.Valid() && Parsing()
      ensures Found(dist0, len0)
      ensures if Discarded(dist0, len0) then dist == len == 0 else dist == dist0 && len == len0
      ensures dist > 0 ==> MIN_MATCH <= len <= d.ahead && dist <= d.size && IsMatch(d.hist, d.pos, dist, len)
      ensures dist == 0 ==> len <= Known()
    {
      hide IsMatch, Parsed, Dict.Searched, Ring, Linked;
      dist, len := 0, if savedLen > 0 then savedLen else MIN_MATCH - 1;
      if rle || forceRaw {
        if d.size > 0 && !forceRaw {
          len := d.RunLength();
          if len < MIN_MATCH {
            ShortRun(len);
            len := 0;
          } else {
            dist := 1;
          }
        }
      } else {
        dist, len := d.FindMatch(d.size, d.ahead, if len >= 32 then probes1 else probes0, dist, len);
      }
      dist0, len0 := dist, len;
      if (len == MIN_MATCH && dist >= 8 * 1024) || d.pos % DICT_SIZE == dist || (filter && len <= 5) {
        dist, len := 0, 0;
      }
    }

    /** A run that ends before three bytes. */
    lemma ShortRun(n: nat)
      requires d.Valid() && n < 3 && n <= d.ahead && (n < d.ahead ==> !IsMatch(d.hist, d.pos, 1, n + 1))
      ensures !IsMatch(d.hist, d.pos, 1, 3)
    {
      hide Ring, Linked;
    }

    lemma Extent()
      requires d.Valid() && Recording() && Parsing()
      ensures |d.hist| == d.pos + d.ahead && d.ahead <= MAX_MATCH && lz.buf.Length == LZ_CODE_BUF_SIZE
      ensures savedLen > 0 ==> savedDist >= 1
      ensures d.since + d.size <= d.pos && d.size <= DICT_SIZE
    {
    }

    method CurrentByte() returns (c: byte)
      requires d.Valid() && d.ahead > 0
      ensures c == d.hist[d.pos]
    {
      RingAt(d.ring[..], d.hist, d.pos, 0);
      c := d.ring[d.pos % DICT_SIZE];
    }

    /** Hold the match at the current position back. */
    method Hold(dist: nat, len: nat)
      requires d.Valid() && d.ahead > 0
      requires MIN_MATCH <= len < 128 && len <= d.ahead && dist <= d.size && IsMatch(d.hist, d.pos, dist, len)
      modifies this`savedDist, this`savedLen, this`savedLit
      ensures savedDist == dist && savedLen == len && d.pos < |d.hist| && savedLit == d.hist[d.pos]
      ensures Pending(d.hist, d.since, d.pos + 1, d.ahead - 1, savedDist, savedLen, savedLit)
    {
      hide IsMatch;
      savedLit := CurrentByte();
      savedDist, savedLen := dist, len;
    }

    /** The parser's choices. A held match gives way to a longer one, before which its byte goes out alone; a match of
        128 bytes or more is never held back. */
    twostate predicate Chose(dist: nat, len: nat, move: nat)
      reads this`savedDist, this`savedLen, this`savedLit, lz`toks
    {
      var was, held := old(lz.toks), Match(old(savedLen), old(savedDist));
      var holding, longer := old(savedLen) > 0, len > old(savedLen);
      var all := was + if holding && longer then [Lit(old(savedLit))] else [];
      && old(d.pos) < |old(d.hist)|
      && if holding && !longer then
           lz.toks == was + [held] && savedLen == 0 && move == held.len - 1
         else if !holding && dist == 0 then
           lz.toks == was + [Lit(old(d.hist)[old(d.pos)])] && savedLen == 0 && move == 1
         else if len >= 128 || (!holding && (greedy || rle)) then
           lz.toks == all + [Match(len, dist)] && savedLen == 0 && move == len
         else
           && lz.toks == all && move == 1 && savedLen == len && savedDist == dist
           && savedLit == old(d.hist)[old(d.pos)]
    }

    /** The lazy/greedy state machine: what is recorded, what is held back, how far to move on. */
    method Decide(dist: nat, len: nat) returns (move: nat)
      requires Laid() && d.Valid() && d.ahead > 0 && Recording() && Parsing() && lz.pos <= LZ_CODE_BUF_SIZE - 8
      requires dist > 0 ==> MIN_MATCH <= len <= d.ahead && dist <= d.size && IsMatch(d.hist, d.pos, dist, len)
      requires dist == 0 ==> len <= Known()
      requires forceRaw ==> dist == 0
      modifies this`savedDist, this`savedLen, this`savedLit, this`total, lz, lz.buf, t0.count, t1.count
      ensures Recording() && 1 <= move <= d.ahead && Chose(dist, len, move)
      ensures Parsed(d.hist, d.since, blockStart, lz.toks, Behind(d.pos + move, savedLen))
      ensures Pending(d.hist, d.since, d.pos + move, d.ahead - move, savedDist, savedLen, savedLit)
      ensures rle || forceRaw ==> savedLen == 0
    {
      hide IsMatch, Parsed, Dict.Valid, Recording;
      Extent();
      ghost var toks := lz.toks;
      move := 1;
      if savedLen > 0 {
        if len > savedLen {
          ParsedLit(d.hist, d.since, blockStart, toks, d.pos - 1);
          RecordLiteral(savedLit);
          if len >= 128 {
            ParsedMatch(d.hist, d.since, blockStart, lz.toks, d.pos, dist, len);
            RecordMatch(len, dist);
            savedLen := 0;
            move := len;
          } else {
            Hold(dist, len);
          }
        } else {
          ParsedMatch(d.hist, d.since, blockStart, toks, d.pos - 1, savedDist, savedLen);
          RecordMatch(savedLen, savedDist);
          move := savedLen - 1;
          savedLen := 0;
        }
      } else if dist == 0 {
        ParsedLit(d.hist, d.since, blockStart, toks, d.pos);
        var c := CurrentByte();
        RecordLiteral(c);
      } else if greedy || rle || len >= 128 {
        ParsedMatch(d.hist, d.since, blockStart, toks, d.pos, dist, len);
        RecordMatch(len, dist);
        move := len;
      } else {
        Hold(dist, len);
      }
    }

    // ---- Flushing a block

    lemma Reach()
      requires d.Valid() && Parsing() && total == TotalSize(lz.toks)
      ensures blockStart + total == Behind(d.pos, savedLen) <= |d.hist|
      ensures d.ahead == 0 ==> Behind(d.pos, savedLen) == |d.hist|
      ensures d.since <= blockStart
      ensures Expand(d.hist[d.since..blockStart], lz.toks)
           == Some(d.hist[d.since..blockStart] + d.hist[blockStart..blockStart + total])
      ensures d.pos - blockStart <= d.size ==> total <= DICT_SIZE && |d.hist| <= blockStart + DICT_SIZE
    {
      hide Ring, Expand, TotalSize, IsMatch;
      ParsedSize(d.hist, d.since, blockStart, lz.toks, Behind(d.pos, savedLen));
      hide Parsed;
    }

    lemma Facts()
      requires Valid()
      ensures w.Valid() && w.full == 0 && lz.Valid() && Tallied(t0.count[..], t1.count[..], lz.toks)
      ensures |lz.toks| < 65535 && lz.buf.Length == LZ_CODE_BUF_SIZE && AllOk(lz.toks)
      ensures blockStart + total == Behind(d.pos, savedLen) <= |d.hist|
      ensures d.ahead == 0 ==> Behind(d.pos, savedLen) == |d.hist|
      ensures Opened() && o.Valid()
      ensures d.since <= blockStart
      ensures Expand(d.hist[d.since..blockStart], lz.toks)
           == Some(d.hist[d.since..blockStart] + d.hist[blockStart..blockStart + total])
      ensures d.ring.Length >= DICT_SIZE && Ring(d.ring[..], d.hist)
      ensures d.pos - blockStart <= d.size ==> total <= DICT_SIZE && |d.hist| <= blockStart + DICT_SIZE
    {
      hide Opened, Outlet.Valid, Tallied, Ring, Expand, Writer.Valid, TotalSize, Laid, Layout, AllOk;
      Reach();
      LayoutBound(lz.buf[..], lz.toks, lz.pos, lz.flagPos, lz.flagsLeft);
      hide Parsing;
      RingSize(d.ring[..], d.hist);
    }

    /** The bits in front of the block that is due: those put so far, and the zlib header if it is the first. */
    ghost function Front(): bits
      reads this`blockIndex, w`put
    {
      w.put + if zlib && blockIndex == 0 then BitsOf(0x78, 8) + BitsOf(0x01, 8) else []
    }

    /** Whether the ring still holds all bytes of the block. */
    ghost predicate InRing()
      reads this`blockStart, d`pos, d`size
    {
      d.pos - blockStart <= d.size
    }

    ghost predicate IsChosen(final: bool, all: bits, tried: bits)
      reads this`blockIndex, this`blockStart, this`total, w`put, lz`toks, d`hist, d`pos, d`size
    {
      && blockStart + total <= |d.hist|
      && Chosen(|Front()|, final, all, tried, lz.toks, d.hist[blockStart..blockStart + total], total, InRing(),
                forceRaw && InRing(), forceStatic)
    }

    /** A whole block, and what `flush` puts behind it, lead to the bits `now`. */
    ghost predicate Extends(flush: Flush, now: bits)
      reads this`blockIndex, this`blockStart, this`total, w`put, lz`toks, d`hist, d`pos, d`size
    {
      exists all: bits, tried: bits ::
        IsChosen(flush.Finish?, all, tried) && Tailed(zlib, Front() + all, flush, d.hist, now)
    }

    method WriteHead()
      requires w.Valid() && w.full == 0 && Opened() && blockStart <= |d.hist|
      modifies w`outPos, w`bitBuffer, w`bitsIn, w`put, w`full, w.outBuf
      ensures w.Valid() && w.full <= 2 && old(w.put) <= w.put && w.put == old(Front())
      ensures Tells(zlib, w.put, cut, false, d.hist[..blockStart], d.since)
    {
      hide Writer.Valid, Encoded, BitsOf;
      if zlib && blockIndex == 0 {
        PutHead(w);
        assert d.hist[..blockStart] == [];
      }
    }

    /** What writing the block needs once the token buffer is sealed. */
    ghost predicate Complete()
      reads this`blockStart, this`total, lz, lz.buf, t0.count, t1.count, d
    {
      && Sealed(lz.buf[..], lz.toks) && lz.pos == SealedEnd(lz.toks) && lz.buf.Length == LZ_CODE_BUF_SIZE
      && |lz.toks| < 65535 && Tallied(t0.count[..], t1.count[..], lz.toks)
      && d.since <= blockStart && blockStart + total <= |d.hist|
      && (InRing() ==> total <= DICT_SIZE && |d.hist| <= blockStart + DICT_SIZE)
      && Expand(d.hist[d.since..blockStart], lz.toks)
         == Some(d.hist[d.since..blockStart] + d.hist[blockStart..blockStart + total])
    }

    /** The block is written: the token buffer is sealed and the form of the block chosen. */
    method EmitBlock(final: bool) returns (ghost all: bits, ghost tried: bits)
      requires Valid()
      modifies lz`pos, lz.buf, w`outPos, w`bitBuffer, w`bitsIn, w`put, w`full, w.outBuf
      modifies t0.count, t0.sizes, t0.codes, t1.sizes, t1.codes, t2.count, t2.sizes, t2.codes
      ensures w.Valid() && w.full <= OUT_END - 3000 && old(w.put) <= w.put
      ensures blockStart + total <= |d.hist| && Tells(zlib, w.put, cut, final, d.hist[..blockStart + total], d.since)
      ensures old(IsChosen(final, all, tried)) && w.put == old(Front()) + all
    {
      hide Writer.Valid, Codes.Valid, Sealed, Tallied, Tells, Ring, ByteBits, Expand, SealedEnd, Chosen, BitsOf;
      hide Parsed, Pending, Behind, Outlet.Unsent, Outlet.Waiting, Table.Separate;
      Facts();
      hide Recording, Parsing, Writing, Dict.Valid, Valid, Opened, Outlet.Valid;
      lz.Seal();
      ghost var put := w.put;
      WriteHead();
      ghost var p := w.put;
      all, tried := PutBlock(final);
      Grown(put, p, all);
    }

    method PutBlock(final: bool) returns (ghost all: bits, ghost tried: bits)
      requires Laid() && w.Valid() && w.full <= 2 && Complete() && Ring(d.ring[..], d.hist)
      requires Tells(zlib, w.put, cut, false, d.hist[..blockStart], d.since)
      modifies w`outPos, w`bitBuffer, w`bitsIn, w`put, w`full, w.outBuf
      modifies t0.count, t0.sizes, t0.codes, t1.sizes, t1.codes, t2.count, t2.sizes, t2.codes
      ensures w.Valid() && w.full <= OUT_END - 3000 && w.put == old(w.put) + all
      ensures blockStart + total <= |d.hist| && Tells(zlib, w.put, cut, final, d.hist[..blockStart + total], d.since)
      ensures Chosen(|old(w.put)|, final, all, tried, lz.toks, d.hist[blockStart..blockStart + total], total,
                     InRing(), forceRaw && InRing(), forceStatic)
    {
      hide Writer.Valid, Sealed, Tallied, Tells, IsBlock, RingSlice, Ring, Expand, SealedEnd, Chosen;
      ghost var toks, hist, base, start, end := lz.toks, d.hist, d.since, blockStart, blockStart + total;
      ghost var data, p, at := hist[start..end], w.put, cut;
      RingSize(d.ring[..], d.hist);
      var inRing := d.pos - blockStart <= d.size;
      if inRing {
        RingSliceIs(d.ring[..], d.hist, blockStart, total);
      }
      all, tried := WriteBlock(w, lz, t0, t1, t2, d.ring, blockStart, total, inRing, forceRaw && inRing,
                               forceStatic, final, data);
      ChosenIsBlock(|p|, final, all, tried, toks, data, total, inRing, forceRaw && inRing, forceStatic);
      BlockTold(zlib, p, at, final, all, toks, hist, base, start, end);
    }

    /** What writing a block has nothing to do with. */
    ghost function Others(): (seq<byte>, nat, nat, nat, nat, nat, nat, nat, byte, bool, bool, Status, uint32)
      reads this, d
    {
      (d.hist, d.since, d.pos, d.ahead, d.size, cut,
       savedDist, savedLen, savedLit, wantsFinish, finished, status, adler)
    }

    /** A new block begins where the last one ended. */
    method NextBlock()
      requires Laid() && lz.buf.Length == LZ_CODE_BUF_SIZE
      modifies this`total, this`blockStart, this`blockIndex, lz, t0.count, t1.count
      ensures Recording() && lz.toks == [] && lz.pos == 1
      ensures total == 0 && blockStart == old(blockStart + total) && blockIndex == old(blockIndex) + 1
    {
      hide Codes.Valid, Tallied;
      Fill(t0.count, 0, MAX_SYMBOLS, 0);
      Fill(t1.count, 0, MAX_SYMBOLS, 0);
      lz.Reset();
      blockStart, total, blockIndex := blockStart + total, 0, blockIndex + 1;
      NothingYet(t0.count[..], t1.count[..]);
    }

    /** What follows a block: the statistics start again, whole bytes are delivered. */
    method FinishBlock() returns (ok: bool)
      requires Laid() && d.Valid() && lz.buf.Length == LZ_CODE_BUF_SIZE
      requires w.Valid() && w.full <= OUT_END && 8 * w.base <= |w.put| && ByteBits(o.sink) == w.put[..8 * w.base]
      modifies this, Memory()
      ensures d.Valid() && Others() == old(Others())
      ensures Recording() && lz.toks == [] && lz.pos == 1
      ensures total == 0 && blockStart == old(blockStart + total) && blockIndex == old(blockIndex) + 1
      ensures w.Valid() && w.full == 0 && w.put == old(w.put) && w.bitsIn == old(w.bitsIn)
      ensures old(o.sink) <= o.sink && (ok ==> o.Valid()) && o.Heard(old(o.calls), ok)
      ensures o.Accounted(old(|o.sink| + o.room))
    {
      hide Writer.Valid, ByteBits, Recording, Outlet.Valid, Dict.Valid;
      NextBlock();
      ok := o.Deliver();
    }

    /** In the middle of a stream a block ends when the token buffer is almost full, or when 31 KB compress badly. */
    ghost predicate Due()
      reads this`total, lz`pos
    {
      lz.pos > 65528 || (total > 31744 && (lz.pos * 115 / 128 >= total || forceRaw))
    }

    /** `tdefl_flush_block`: in the middle of a stream, with or without a byte boundary after the block, or at
        its end. */
    method FlushBlock(flush: Flush) returns (ok: bool)
      requires Valid() && o.left == 0 && (flush.Finish? ==> Summed() && d.ahead == 0) && (flush.NoFlush? ==> Due())
      modifies this, Memory()
      ensures Others() == old(Others())
      ensures old(o.sink) <= o.sink && o.Heard(old(o.calls), ok)
      ensures o.Accounted(old(|o.sink| + o.room))
      ensures var now := w.put; old(Extends(flush, now))
      ensures ok && flush.Finish? ==> o.Waiting() && TellsAll(zlib, o.sink + o.Unsent(), cut, d.hist, d.since)
      ensures ok && !flush.Finish? ==>
                && Valid() && lz.pos == 1 && lz.toks == [] && total == 0 && blockIndex > 0
                && blockStart == Behind(d.pos, savedLen) <= |d.hist|
                && Tells(zlib, w.put, cut, false, d.hist[..blockStart], d.since)
      ensures ok && (flush.SyncFlush? || flush.FullFlush?) ==> w.put == ByteBits(o.sink + o.Unsent()) && w.put != []
    {
      hide Valid, Writer.Valid, Codes.Valid, Dict.Valid, Outlet.Valid, Tells, ByteBits, Pending;
      hide Recording, TellsAll, Due, Extends;
      hide Adler, Closed, Summed, Laid, Outlet.Unsent, Outlet.Waiting, Outlet.Accounted, Outlet.Heard;
      hide Memory;
      ghost var all := |o.sink| + o.room;
      Write(flush);
      assert all == |o.sink| + o.room;
      ok := FinishBlock();
      if ok && !flush.NoFlush? {
        AllSent();
      }
      if ok && flush.Finish? {
        ClosedStream(zlib, w.put, cut, o.sink + o.Unsent(), d.hist, d.since);
      } else if ok {
        BlockBegun();
      }
    }

    /** The block and what follows it go to the output buffer. */
    method Write(flush: Flush)
      requires Valid() && o.left == 0 && (flush.Finish? ==> Summed() && d.ahead == 0)
      modifies this, Memory()
      ensures o.sink == old(o.sink) && o.room == old(o.room) && o.calls == old(o.calls)
      ensures Others() == old(Others()) && blockStart == old(blockStart) && total == old(total)
      ensures w.Valid() && w.full <= OUT_END && (!flush.NoFlush? ==> w.bitsIn == 0)
      ensures Laid() && o.w == w && d.Valid() && d.since <= blockStart
      ensures lz.buf.Length == LZ_CODE_BUF_SIZE && 8 * w.base <= |w.put| && ByteBits(o.sink) == w.put[..8 * w.base]
      ensures blockStart + total == Behind(d.pos, savedLen) <= |d.hist|
      ensures Pending(d.hist, d.since, d.pos, d.ahead, savedDist, savedLen, savedLit)
      ensures rle || forceRaw ==> savedLen == 0
      ensures if flush.Finish? then Closed(zlib, w.put, cut, d.hist, d.since)
              else Tells(zlib, w.put, cut, false, d.hist[..blockStart + total], d.since)
      ensures var now := w.put; old(Extends(flush, now))
      ensures flush.SyncFlush? || flush.FullFlush? ==> w.put != []
    {
      hide Writer.Valid, Codes.Valid, Dict.Valid, Tallied, Tells, ByteBits, Pending, Recording;
      hide Adler, Closed, Outlet.Valid, Opened, Parsed, IsChosen, Tailed;
      BeforeFlush();
      hide Valid, Laid, Parsing;
      ghost var put := w.put;
      ghost var all, tried := EmitBlock(flush.Finish?);
      ghost var q := w.put;
      PutTail(w, zlib, flush, adler, cut, d.hist[..blockStart + total], d.since);
      TailOf(zlib, q, flush, d.hist, d.hist[..blockStart + total], w.put);
      assert w.put[..8 * w.base] == put[..8 * w.base];
    }

    lemma BlockBegun()
      requires Laid() && d.Valid() && Recording() && lz.toks == [] && w.Valid() && w.full == 0 && o.Valid()
      requires Pending(d.hist, d.since, d.pos, d.ahead, savedDist, savedLen, savedLit)
      requires (rle || forceRaw ==> savedLen == 0) && d.since <= blockStart
      requires blockIndex > 0 && blockStart == Behind(d.pos, savedLen) <= |d.hist|
      requires Tells(zlib, w.put, cut, false, d.hist[..blockStart], d.since)
      ensures Valid()
    {
      hide Laid, Dict.Valid, Recording, Writer.Valid, Outlet.Valid, Tells, Pending;
      ParsedNone(d.hist, d.since, blockStart);
    }

    /** At a byte boundary everything written is sent or waiting. */
    lemma AllSent()
      requires w.Valid() && w.full == 0 && w.bitsIn == 0 && o.Valid() && o.w == w
      ensures ByteBits(o.sink + o.Unsent()) == w.put && o.Waiting()
    {
      hide ByteBits;
      Phase(w);
      assert w.put[..8 * w.base] == w.put;
    }

    /** What a flush starts from. */
    lemma BeforeFlush()
      requires Valid() && o.left == 0
      ensures w.Valid() && o.w == w && lz.buf.Length == LZ_CODE_BUF_SIZE && Laid() && d.Valid()
      ensures 8 * w.base <= |w.put| && ByteBits(o.sink) == w.put[..8 * w.base]
      ensures blockStart + total == Behind(d.pos, savedLen) <= |d.hist| && d.since <= blockStart
      ensures Pending(d.hist, d.since, d.pos, d.ahead, savedDist, savedLen, savedLit)
      ensures rle || forceRaw ==> savedLen == 0
      ensures d.ahead == 0 ==> d.hist[..blockStart + total] == d.hist
    {
      hide Writer.Valid, Codes.Valid, Dict.Valid, Tallied, Tells, ByteBits, Pending, Expand, Recording;
      Facts();
      o.NothingWaits();
    }

    // ---- Parsing

    /** Between iterations there is room for two more tokens. */
    ghost predicate Ready()
      reads this`savedDist, this`savedLen, this`savedLit, this`total, this`blockStart, this`blockIndex, this`cut
      reads o`sink, o`ofs, o`left, o.w, o.w.outBuf, d, d.ring, d.next, d.hash, lz, lz.buf, w, w.outBuf
      reads t0.count, t1.count
    {
      Valid() && lz.pos <= LZ_CODE_BUF_SIZE - 8
    }

    /** Fill the lookahead from the input. */
    method TakeInput(src: seq<byte>) returns (n: nat)
      requires Ready()
      modifies d, d.ring, d.next, d.hash
      ensures d.pos == old(d.pos) && d.since == old(d.since)
      ensures Ready() && n == Min(|src|, 258 - old(d.ahead)) && d.hist == old(d.hist) + src[..n]
      ensures d.ahead == old(d.ahead) + n
    {
      hide Dict.Valid, Codes.Valid, Writer.Valid, Tallied, Parsed, Pending, Tells, ByteBits, Recording, Outlet.Valid;
      Extent();
      ghost var hist := d.hist;
      n := d.Fill(src);
      ParsedGrow(hist, src[..n], d.since, blockStart, lz.toks, Behind(d.pos, savedLen));
      PendingGrow(hist, src[..n], d.since, d.pos, old(d.ahead), savedDist, savedLen, savedLit);
      assert d.hist[..blockStart] == hist[..blockStart];
    }

    /** One round of the parser: look for a match, decide what to record, move on. */
    method ParseOne() returns (ghost dist0: nat, ghost len0: nat, ghost move: nat)
      requires Ready() && d.ahead > 0
      modifies this`savedDist, this`savedLen, this`savedLit, this`total, d`pos, d`ahead, d`size, lz
      modifies lz.buf, t0.count, t1.count
      ensures Valid() && d.hist == old(d.hist) && move > 0
      ensures d.pos == old(d.pos) + move && d.ahead == old(d.ahead) - move
      ensures old(Found(dist0, len0))
      ensures if old(Discarded(dist0, len0)) then Chose(0, 0, move) else Chose(dist0, len0, move)
    {
      hide Dict.Valid, Codes.Valid, Writer.Valid, Tallied, Parsed, Pending, Tells, ByteBits;
      hide Recording, IsMatch, Outlet.Valid, Opened, Found, Discarded;
      var dist, len;
      dist, len, dist0, len0 := Search();
      ForcedRaw(dist0, len0);
      var step := Decide(dist, len);
      move := step;
      d.Move(step);
    }

    lemma ForcedRaw(dist: nat, len: nat)
      requires Found(dist, len)
      ensures forceRaw ==> dist == 0
    {
    }

    /** One round, with a block flushed when the token buffer is full or compresses badly. Without a flush there is
        always a full lookahead. */
    method ParseStep(ghost flush: bool) returns (ok: bool)
      requires Ready() && d.ahead > 0 && o.left == 0 && (flush || d.ahead == 258)
      modifies this, Memory()
      ensures d.hist == old(d.hist) && d.ahead < old(d.ahead) && old(o.sink) <= o.sink
      ensures (ok ==> Ready() && !Due()) && o.Heard(old(o.calls), ok)
      ensures o.Accounted(old(|o.sink| + o.room))
      ensures wantsFinish == old(wantsFinish) && finished == old(finished) && status == old(status)
      ensures adler == old(adler) && cut == old(cut) && d.since == old(d.since)
    {
      hide Valid, Found, Discarded, Chose;
      ghost var dist0, len0, move := ParseOne();
      ok := true;
      if lz.pos > LZ_CODE_BUF_SIZE - 8
         || (total > 31 * 1024 && (lz.pos * 115 / 128 >= total || forceRaw)) {
        ok := FlushBlock(NoFlush);
      }
    }

    /** `tdefl_compress_normal`: it stops early, after `n` bytes of input, where output does not fit. */
    method CompressNormal(src: seq<byte>, flush: bool) returns (n: nat, ok: bool)
      requires Ready() && o.left == 0
      modifies this, Memory()
      ensures n <= |src| && d.hist == old(d.hist) + src[..n] && old(o.sink) <= o.sink
      ensures (ok ==> Ready()) && o.Heard(old(o.calls), ok)
      ensures ok && o.left == 0 ==> n == |src| && (flush ==> d.ahead == 0)
      ensures o.Accounted(old(|o.sink| + o.room))
      ensures |src| - n + d.ahead <= |src| + old(d.ahead)
      ensures o.left > 0 ==> |src| - n + d.ahead < |src| + old(d.ahead)
      ensures wantsFinish == old(wantsFinish) && finished == old(finished) && status == old(status)
      ensures adler == old(adler) && cut == old(cut) && d.since == old(d.since)
    {
      hide Ready, Due;
      n, ok := 0, true;
      assert src[..0] == [];
      while n < |src| || (flush && d.ahead > 0)
        invariant n <= |src| && Ready() && d.hist == old(d.hist) + src[..n] && old(o.sink) <= o.sink && o.left == 0
        invariant ok && o.Accounted(old(|o.sink| + o.room)) && o.Heard(old(o.calls), ok)
        invariant |src| - n + d.ahead <= |src| + old(d.ahead)
        invariant wantsFinish == old(wantsFinish) && finished == old(finished) && status == old(status)
        invariant adler == old(adler) && cut == old(cut) && d.since == old(d.since)
        decreases |src| - n + d.ahead
      {
        LookaheadBound();
        var k := TakeInput(src[n..]);
        TakenSo(old(d.hist), src, n, k);
        n := n + k;
        if !flush && d.ahead < MAX_MATCH {
          break;
        }
        ok := ParseStep(flush);
        if !ok || o.left > 0 {
          return;
        }
      }
    }

    lemma LookaheadBound()
      requires Ready()
      ensures d.ahead <= MAX_MATCH
    {
    }

    // ---- The interface

    ghost predicate Accepting()
      reads this, o, o.w, o.w.outBuf, d, d.ring, d.next, d.hash, lz, lz.buf, w, w.outBuf, t0.count, t1.count
    {
      status == Okay ==>
        if finished then wantsFinish && Ended() && o.left > 0 else Ready() && Summed()
    }

    /** Everything is written, and some of it still waits for room. */
    ghost predicate Ended()
      reads this`cut, o`sink, o`ofs, o`left, o.w.outBuf, d`hist, d`since
    {
      o.Waiting() && TellsAll(zlib, o.sink + o.Unsent(), cut, d.hist, d.since)
    }

    lemma AcceptsFirst()
      requires Valid() && lz.pos == 1 && Summed() && !finished
      ensures Accepting()
    {
      hide Valid, Summed;
    }

    /** What the caller can rely on after a flush in mid-stream: the bytes received so far stand for all data
        taken in, whatever comes next. */
    ghost predicate Synchronized()
      reads this`cut, o`sink, d`hist, d`since
    {
      Tells(zlib, ByteBits(o.sink), cut, false, d.hist, d.since)
    }

    /** After a full flush nothing may be referred to, and the stream can be read from here. */
    ghost predicate Emptied()
      reads this`cut, d`hist, d`size, d`since
    {
      d.size == 0 && d.since == |d.hist| && cut > 0
    }

    /** The end of a call with `flush` that has drained the lookahead and the output. */
    method FlushAll(flush: Flush) returns (ok: bool)
      requires Ready() && Summed() && d.ahead == 0 && o.left == 0 && !flush.NoFlush? && !finished
      modifies this, Memory()
      ensures d.hist == old(d.hist) && old(o.sink) <= o.sink && d.ahead == 0
      ensures ok ==> finished == flush.Finish? && (if finished then Ended() else Ready())
      ensures (!ok ==> !finished) && o.Heard(old(o.calls), ok)
      ensures o.Accounted(old(|o.sink| + o.room))
      ensures ok && o.left == 0 && !finished ==> Synchronized()
      ensures if ok && flush.FullFlush? then Emptied() && cut == 8 * |o.sink + o.Unsent()|
              else cut == old(cut) && d.since == old(d.since)
      ensures wantsFinish == old(wantsFinish) && status == old(status) && adler == old(adler)
    {
      hide Table.Separate, Parsing, Writing, Expand;
      hide Dict.Valid, Codes.Valid, Writer.Valid, Tallied, Parsed, Tells, ByteBits, TellsAll, Adler, Opened;
      hide TotalSize, Outlet.Valid, Outlet.Unsent, Outlet.Waiting, Outlet.Heard, Extends, Summed, Recording;
      AllParsed();
      ok := FlushBlock(flush);
      if !ok {
        return;
      }
      finished := flush.Finish?;
      assert d.hist[..|d.hist|] == d.hist;
      if o.left == 0 {
        o.NothingWaits();
      }
      if flush.FullFlush? {
        StartAfresh();
      }
    }

    /** Once the lookahead is drained, the tokens stand for everything. */
    lemma AllParsed()
      requires Valid() && d.ahead == 0
      ensures Behind(d.pos, savedLen) == |d.hist| && d.hist[..|d.hist|] == d.hist
    {
      hide Ring, Expand, IsMatch, Linked;
    }

    /** The dictionary is emptied. */
    method StartAfresh()
      requires Valid() && lz.pos == 1 && lz.toks == [] && blockIndex > 0 && d.ahead == 0
      requires blockStart == Behind(d.pos, savedLen) == |d.hist| && w.put != []
      requires w.put == ByteBits(o.sink + o.Unsent()) && Tells(zlib, w.put, cut, false, d.hist, d.since)
      modifies this`cut, d`size, d`since, d.next, d.hash
      ensures Ready() && Emptied() && cut == 8 * |o.sink + o.Unsent()|
      ensures Tells(zlib, w.put, cut, false, d.hist, d.since)
    {
      hide Codes.Valid, Writer.Valid, Dict.Valid, Tallied, Tells, ByteBits, Outlet.Valid, Recording;
      TellsFresh(zlib, w.put, cut, d.hist, d.since);
      NothingHeld();
      cut := |w.put|;
      d.Forget();
      assert d.hist[..|d.hist|] == d.hist;
      BlockBegun();
    }

    lemma NothingHeld()
      requires Valid() && d.ahead == 0
      ensures savedLen == 0
    {
    }

    /** Calls that break the rules: output in the wrong place, after a failure or the end, or no longer
        finishing. */
    ghost predicate Refuses(flush: Flush, room: Option<nat>)
      reads this`status, this`wantsFinish
    {
      o.callback == room.Some? || status != Okay || (wantsFinish && !flush.Finish?)
    }

    /** What is still to do when `left` bytes of input are. */
    ghost function Work(left: nat): nat
      reads this`finished, d`ahead
    {
      left + d.ahead + if finished then 0 else 1
    }

    /** `tdefl_compress`, into the caller's buffer with `room` for so many bytes, or to the callback. The call
        takes `consumed` bytes and delivers `produced`; it leaves input or output over only where the buffer
        is full. Once it reports the end, what has been delivered is a stream of exactly the bytes taken in;
        after a flush that found room, what has been delivered already stands for all of them. */
    method Compress(src: seq<byte>, flush: Flush, room: Option<nat>) returns (r: Status, consumed: nat, produced: nat)
      requires Accepting()
      modifies this, o, Memory()
      ensures r == status && Accepting() && consumed <= |src| && old(o.sink) <= o.sink
      ensures old(Refuses(flush, room)) ==>
                && r == BadParam && consumed == produced == 0 && o.sink == old(o.sink) && d.hist == old(d.hist)
                && o.calls == old(o.calls)
      ensures !old(Refuses(flush, room)) ==>
                && d.hist == old(d.hist) + src[..consumed] && wantsFinish == (old(wantsFinish) || flush.Finish?)
                && (if room.Some? then |o.sink| == |old(o.sink)| + produced && produced <= room.value
                    else produced == 0)
                && r != BadParam && o.Heard(old(o.calls), r != PutBufFailed)
      ensures r == Finished ==> flush.Finish? && finished && TellsAll(zlib, o.sink, cut, d.hist, d.since)
      ensures r == Okay && flush.FullFlush? && old(o.left) == 0 && o.left == 0 ==> Emptied() && cut == 8 * |o.sink|
      ensures !flush.FullFlush? ==> cut == old(cut) && d.since == old(d.since)
      ensures if old(finished) then consumed == 0 else finished ==> flush.Finish? && consumed == |src|
      ensures r == Okay && o.left > 0 ==> room.Some? && produced == room.value
      ensures r == Okay && o.left == 0 && old(o.left) == 0 ==>
                consumed == |src| && !flush.Finish? && (!flush.NoFlush? ==> Synchronized())
      ensures r == Okay && flush.Finish? && room.Some? && room.value > 0 ==>
                || Work(|src| - consumed) < old(Work(|src|))
                || (Work(|src| - consumed) == old(Work(|src|)) && o.left < old(o.left))
    {
      hide Ready, TellsAll, Memory, Tells, Adler, Ended, Synchronized, Summed, Emptied, Work;
      hide Outlet.Heard;
      if o.callback == room.Some? || status != Okay || (wantsFinish && !flush.Finish?) {
        status := BadParam;
        return status, 0, 0;
      }
      o.room := if room.Some? then room.value else 0;
      wantsFinish := wantsFinish || flush.Finish?;
      var ok;
      consumed, ok := Proceed(src, flush);
      produced := if room.Some? then room.value - o.room else 0;
      status := if !ok then PutBufFailed else if finished && o.left == 0 then Finished else Okay;
      r := status;
    }

    /** Unless there is still output to be taken, the input is compressed; then output is handed over. */
    method Proceed(src: seq<byte>, flush: Flush) returns (n: nat, ok: bool)
      requires status == Okay && Accepting()
      modifies this, Memory()
      ensures n <= |src| && d.hist == old(d.hist) + src[..n] && old(o.sink) <= o.sink
      ensures wantsFinish == old(wantsFinish) && status == old(status)
      ensures if old(finished) then n == 0 else finished ==> flush.Finish? && n == |src|
      ensures ok ==> (if finished then Ended() else Ready() && Summed()) && o.Waiting()
      ensures o.Heard(old(o.calls), ok)
      ensures o.Accounted(old(|o.sink| + o.room))
      ensures ok && finished && o.left == 0 ==> TellsAll(zlib, o.sink, cut, d.hist, d.since)
      ensures ok && flush.FullFlush? && old(o.left) == 0 && o.left == 0 ==> Emptied() && cut == 8 * |o.sink|
      ensures !flush.FullFlush? ==> cut == old(cut) && d.since == old(d.since)
      ensures ok && o.left == 0 && old(o.left) == 0 ==> n == |src| && (flush.Finish? ==> finished)
      ensures ok && o.left == 0 && old(o.left) == 0 && !flush.NoFlush? && !finished ==> Synchronized()
      ensures ok && flush.Finish? && old(o.left) == 0 ==> Work(|src| - n) < old(Work(|src|))
      ensures ok && old(o.left) > 0 && old(o.room) > 0 ==> Work(|src| - n) == old(Work(|src|)) && o.left < old(o.left)
    {
      hide Ready, TellsAll, Tells, Adler, Ended, Synchronized, Summed, Emptied;
      n, ok := 0, true;
      if o.left == 0 && !finished {
        n, ok := CompressAll(src, flush);
      }
      if ok {
        FlushRest();
      }
    }

    /** The input is parsed and, if nothing is left of it, flushed as asked. */
    method CompressAll(src: seq<byte>, flush: Flush) returns (n: nat, ok: bool)
      requires Ready() && Summed() && o.left == 0 && !finished
      modifies this, Memory()
      ensures n <= |src| && d.hist == old(d.hist) + src[..n] && old(o.sink) <= o.sink
      ensures ok ==> if finished then Ended() else Ready() && Summed()
      ensures (finished ==> flush.Finish? && n == |src|) && wantsFinish == old(wantsFinish) && status == old(status)
      ensures o.Heard(old(o.calls), ok)
      ensures o.Accounted(old(|o.sink| + o.room))
      ensures ok && o.left == 0 ==> n == |src| && (flush.Finish? ==> finished)
      ensures ok && o.left == 0 && !flush.NoFlush? && !finished ==> Synchronized()
      ensures ok && flush.Finish? && (o.left > 0 || finished) ==> Work(|src| - n) < old(Work(|src|))
      ensures ok && flush.FullFlush? && o.left == 0 ==> Emptied() && cut == 8 * |o.sink|
      ensures !flush.FullFlush? ==> cut == old(cut) && d.since == old(d.since)
    {
      hide Ready, TellsAll, Tells, Adler, Emptied;
      n, ok := CompressNormal(src, !flush.NoFlush?);
      if !ok {
        return;
      }
      if zlib || summing {
        AdlerComposes(1, old(d.hist), src[..n]);
        adler := Adler32(adler, Some(src[..n]));
      }
      if !flush.NoFlush? && d.ahead == 0 && n == |src| && o.left == 0 {
        ok := FlushAll(flush);
        if o.left == 0 { o.NothingWaits(); }
      }
    }

    /** Before returning, what waits goes to the caller's buffer. */
    method FlushRest()
      requires if finished then Ended() else Ready()
      modifies o`sink, o`ofs, o`left, o`room
      ensures (if finished then Ended() else Ready()) && o.Waiting()
      ensures old(o.sink) <= o.sink
      ensures o.callback || old(o.left) == 0 ==> o.sink == old(o.sink) && o.left == old(o.left)
      ensures o.Accounted(old(|o.sink| + o.room))
      ensures !o.callback && old(o.left) > 0 && old(o.room) > 0 ==> o.left < old(o.left)
      ensures !o.callback && old(o.room) == 0 ==> o.left == old(o.left)
      ensures finished && o.left == 0 ==> TellsAll(zlib, o.sink, cut, d.hist, d.since)
    {
      hide Dict.Valid, Codes.Valid, Writer.Valid, Tallied, Parsed, Pending, Tells, ByteBits;
      hide Recording, TellsAll, Opened;
      o.Flush();
      if o.left == 0 {
        o.NothingWaits();
      }
    }
  }

  ghost function Parts(d: Dict, lz: Codes, w: Writer, o: Outlet, t0: Table, t1: Table, t2: Table): set<object> {
    {d, d.ring, d.next, d.hash, lz, lz.buf, w, w.outBuf, o,
     t0.count, t0.codes, t0.sizes, t1.count, t1.codes, t1.sizes, t2.count, t2.codes, t2.sizes}
  }

  method NewParts(callback: bool, accepts: nat -> bool)
    returns (d: Dict, lz: Codes, w: Writer, o: Outlet, t0: Table, t1: Table, t2: Table)
    ensures fresh(Parts(d, lz, w, o, t0, t1, t2)) && fresh(o)
    ensures d.Valid() && d.hist == [] && d.pos == d.ahead == d.since == 0
    ensures lz.Valid() && lz.toks == [] && lz.pos == 1
    ensures w.Valid() && w.put == [] && w.base == w.full == 0
    ensures o.Valid() && o.w == w && o.callback == callback && o.accepts == accepts && o.sink == [] && o.left == 0
    ensures Apart(t0, t1) && Apart(t0, t2) && Apart(t1, t2) && t0.count.Length == t1.count.Length == MAX_SYMBOLS
    ensures forall s :: 0 <= s < MAX_SYMBOLS ==> t0.count[s] == 0 && t1.count[s] == 0
    ensures d.ring != w.outBuf && d.ring != lz.buf && w.outBuf != lz.buf
  {
    hide Dict.Valid, Codes.Valid, Writer.Valid, Outlet.Valid;
    t0, t1, t2 := NewTables();
    lz := new Codes();
    w := new Writer();
    o := new Outlet(w, callback, accepts);
    d := new Dict();
  }

  lemma Grown(a: bits, b: bits, c: bits)
    requires a <= b
    ensures a <= b + c
  {
  }

  /** The block from `start` to `end` adds its bytes. */
  lemma BlockTold(zlib: bool, p: bits, cut: nat, final: bool, all: bits, toks: seq<Token>,
                  hist: seq<byte>, base: nat, start: nat, end: nat)
    requires base <= start <= end <= |hist| && IsBlock(|p|, final, all, toks, hist[start..end])
    requires Tells(zlib, p, cut, false, hist[..start], base)
    requires Expand(hist[base..start], toks) == Some(hist[base..start] + hist[start..end])
    ensures Tells(zlib, p + all, cut, final, hist[..end], base)
  {
    hide Tells, IsBlock, Expand;
    var front := hist[..start];
    assert front[base..] == hist[base..start];
    TellsBlock(zlib, p, cut, front, base, final, all, toks, hist[start..end]);
    assert front + hist[start..end] == hist[..end];
  }

  method NewTables() returns (t0: Table, t1: Table, t2: Table)
    ensures Apart(t0, t1) && Apart(t0, t2) && Apart(t1, t2)
    ensures fresh(t0.count) && fresh(t0.codes) && fresh(t0.sizes)
    ensures fresh(t1.count) && fresh(t1.codes) && fresh(t1.sizes)
    ensures fresh(t2.count) && fresh(t2.codes) && fresh(t2.sizes)
    ensures t0.count.Length == t1.count.Length == MAX_SYMBOLS
    ensures forall s :: 0 <= s < MAX_SYMBOLS ==> t0.count[s] == 0 && t1.count[s] == 0
  {
    t0 := new Table();
    t1 := new Table();
    t2 := new Table();
  }

  lemma NothingYet(c0: seq<nat>, c1: seq<nat>)
    requires |c0| == |c1| == 288
    requires forall s :: 0 <= s < 288 ==> c0[s] == 0 && c1[s] == 0
    ensures Tallied(c0, c1, []) && TotalSize([]) == 0
    ensures Parsed([], 0, 0, [], 0) && Pending([], 0, 0, 0, 0, 0, 0)
    ensures Tells(false, [], 0, false, [], 0) && ByteBits([]) == []
    ensures Adler(1, []) == 1
  {
    EncodedStart();
  }

  lemma TakenSo(hist: seq<byte>, src: seq<byte>, n: nat, k: nat)
    requires n <= |src| && k <= |src[n..]|
    ensures hist + src[..n] + src[n..][..k] == hist + src[..n + k]
  {
    assert src[..n + k] == src[..n] + src[n..][..k];
  }

  lemma TotalPush(toks: seq<Token>, t: Token)
    ensures TotalSize(toks + [t]) == TotalSize(toks) + t.Size()
  {
    assert (toks + [t])[..|toks|] == toks;
  }
}
