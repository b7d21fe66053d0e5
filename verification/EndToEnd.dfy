/** The two halves together: what the compressor writes, the decompressor turns back. */
module EndToEnd {
  import opened Bits
  import opened Canonical
  import opened Tokens
  import opened InflateSpec
  import opened InflateSteps
  import opened Stream
  import opened Deflate
  import opened InflateReader
  import opened InflateHuffman
  import opened InflateOutput
  import opened Inflate

  /** The mode of a decompressor with a whole buffer (`wrap` unset) or a 32 KB window. */
  function ModeFor(zlib: bool, wrap: bool): (m: Mode)
    ensures Suits(m, zlib)
  {
    ModeOf(zlib, wrap, DICT_SIZE)
  }

  /** A complete stream has a run. */
  lemma StreamRuns(zlib: bool, wrap: bool, s: seq<byte>, out: seq<byte>) returns (goal: State, total: nat)
    requires InflatesTo(zlib, s, out)
    ensures Run(ByteBits(s), Start(ModeFor(zlib, wrap)), total) == Some(goal) && goal.pc.Done? && goal.out == out
    ensures goal.pos <= 8 * |s| < goal.pos + 8
  {
    hide Run, ByteBits;
    var m := ModeFor(zlib, wrap);
    var pos: nat :| pos <= 8 * |s| < pos + 8 && EndsAt(zlib, s, out, pos);
    goal := Ended(m, pos, out);
    var none: bits := [];
    assert Reaches(ByteBits(s) + none, Start(m), goal);
    assert ByteBits(s) + none == ByteBits(s);
    total :| Run(ByteBits(s), Start(m), total) == Some(goal);
  }

  /** A complete stream stands for one byte string only. */
  lemma StreamUnique(zlib: bool, s: seq<byte>, out1: seq<byte>, out2: seq<byte>)
    requires InflatesTo(zlib, s, out1) && InflatesTo(zlib, s, out2)
    ensures out1 == out2
  {
    hide Run;
    var g1, n1 := StreamRuns(zlib, true, s, out1);
    var g2, n2 := StreamRuns(zlib, true, s, out2);
    EndUnique(ByteBits(s), Start(ModeFor(zlib, true)), g1, n1, g2, n2);
  }

  function Least(a: nat, b: nat): nat { if a <= b then a else b }

  /** One call of the compressor before the last: at most `n` more bytes of the source, flushed or not, into a
      buffer of `room` bytes. */
  datatype Call = Call(n: nat, flush: Flush, room: nat)

  /** A compressor in the middle of `src`, `used` bytes of which it has taken. */
  ghost predicate Midway(c: Compressor, src: seq<byte>, used: nat, callback: bool)
    reads c, c.o, c.o.w, c.o.w.outBuf, c.d, c.d.ring, c.d.next, c.d.hash, c.lz, c.lz.buf, c.w, c.w.outBuf
    reads c.t0.count, c.t1.count
  {
    && c.Accepting() && c.status.Okay? && used <= |src| && c.d.hist == src[..used]
    && c.o.callback == callback && (forall k: nat :: c.o.accepts(k))
    && (callback ==> c.o.left == 0) && (c.finished ==> used == |src|)
  }

  /** Compressing a source: first as `calls` says, with buffers of any size, empty ones included; then with
      `TDEFL_FINISH` and `step` bytes of room a call until the end is reported. Or all of it to a callback. */
  method CompressPieces(src: seq<byte>, calls: seq<Call>, step: nat, flags: nat, callback: bool)
    returns (packed: seq<byte>)
    requires step > 0 && forall i :: 0 <= i < |calls| ==> !calls[i].flush.Finish?
    ensures InflatesTo(Bit(flags, 0x1000), packed, src)
  {
    hide InflatesTo, Compressor.Memory, Compressor.Ready, Compressor.Accepting;
    hide Compressor.Valid, Compressor.Summed;
    var c := new Compressor(flags, callback, _ => true);
    c.AcceptsFirst();
    var used: nat := 0;
    assert src[..0] == [];
    hide Midway;
    for i := 0 to |calls|
      invariant Midway(c, src, used, callback) && !c.wantsFinish && !c.finished && c.zlib == Bit(flags, 0x1000)
      invariant fresh(c) && fresh(c.o) && fresh(c.Memory())
    {
      used := OneCall(c, src, used, callback, calls[i]);
    }
    packed := FinishCalls(c, src, used, callback, step);
  }

  method OneCall(c: Compressor, src: seq<byte>, used0: nat, callback: bool, call: Call) returns (used: nat)
    requires Midway(c, src, used0, callback) && !call.flush.Finish? && !c.wantsFinish && !c.finished
    modifies c, c.o, c.Memory()
    ensures Midway(c, src, used, callback) && !c.wantsFinish && !c.finished
    ensures old(c.o.sink) <= c.o.sink
    ensures !call.flush.FullFlush? ==> c.cut == old(c.cut) && c.d.since == old(c.d.since)
  {
    hide TellsAll, Compressor.Memory, Compressor.Ready, Compressor.Synchronized, Compressor.Emptied;
    hide Compressor.Accepting, Compressor.Work;
    var n := Least(call.n, |src| - used0);
    var r, consumed, produced :=
      c.Compress(src[used0..used0 + n], call.flush, if callback then None else Some(call.room));
    NextPart(src, used0, used0 + n, consumed);
    used := used0 + consumed;
  }

  method FinishCalls(c: Compressor, src: seq<byte>, used0: nat, callback: bool, step: nat) returns (packed: seq<byte>)
    requires Midway(c, src, used0, callback) && step > 0
    modifies c, c.o, c.Memory()
    ensures TellsAll(c.zlib, packed, c.cut, src, c.d.since) && packed == c.o.sink && old(c.o.sink) <= packed
    ensures c.cut == old(c.cut) && c.d.since == old(c.d.since)
  {
    hide TellsAll, Compressor.Memory, Compressor.Ready, Compressor.Synchronized, Compressor.Emptied;
    hide Compressor.Accepting, Compressor.Work;
    var used: nat := used0;
    while true
      invariant Midway(c, src, used, callback) && old(c.o.sink) <= c.o.sink
      invariant c.cut == old(c.cut) && c.d.since == old(c.d.since)
      decreases c.Work(|src| - used), c.o.left
    {
      var r, consumed, produced := c.Compress(src[used..], Finish, if callback then None else Some(step));
      NextPart(src, used, |src|, consumed);
      used := used + consumed;
      if r.Finished? {
        assert src[..used] == src;
        return c.o.sink;
      }
    }
  }

  lemma NextPart(src: seq<byte>, used: nat, end: nat, k: nat)
    requires used <= end <= |src| && k <= end - used
    ensures src[..used] + src[used..end][..k] == src[..used + k] && (end == |src| ==> src[used..end] == src[used..])
  {
  }

  /** Decompressing into one buffer, with input and room for output handed over in pieces of any size,
      empty ones included, before a last call that supplies the rest. All of the stream is consumed. */
  method InflatePieces(stream: seq<byte>, zlib: bool, pieces: seq<(nat, nat)>, capacity: nat, wide: bool,
                       unaligned: bool, ghost out: seq<byte>)
    returns (unpacked: seq<byte>, status: Inflate.Status, eaten: nat)
    requires InflatesTo(zlib, stream, out) && |out| <= capacity
    ensures status.Finished? && unpacked == out && eaten == |stream|
  {
    hide InflatesTo, Run, ByteBits, Inflater.Resting, Inflater.Memory, Feeding, Start, Within, Step, Fed;
    ghost var goal, total := StreamRuns(zlib, false, stream, out);
    var f := new Inflater(zlib, false, false, wide, unaligned, stream, DICT_SIZE, goal, total);
    var buf := new byte[capacity];
    var used, done := 0, 0;
    for i := 0 to |pieces|
      invariant f.Resting() && f.goal == goal && f.r.stream == stream && !f.o.wrap
      invariant used == f.r.eaten <= |stream| && done == f.o.outPos == |f.o.out| <= capacity
      invariant buf[..done] == f.o.out && buf.Length == capacity
      invariant fresh(f) && fresh(f.Memory()) && fresh(buf)
    {
      var n, room := Least(pieces[i].0, |stream| - used), Least(pieces[i].1, capacity - done);
      FeedingPart(stream, used, n, true);
      ghost var was := f.o.out;
      var consumed, produced;
      status, consumed, produced := f.Decompress(stream[used..used + n], true, buf, done, room);
      used, done := used + consumed, done + produced;
    }
    FeedingPart(stream, used, |stream| - used, false);
    var consumed, produced;
    status, consumed, produced := f.Decompress(stream[used..], false, buf, done, capacity - done);
    unpacked, eaten := buf[..done + produced], used + consumed;
  }

  lemma FeedingPart(stream: seq<byte>, used: nat, n: nat, more: bool)
    requires used + n <= |stream| && (!more ==> used + n == |stream|)
    ensures Feeding(stream, used, stream[used..used + n], more)
    ensures !more ==> stream[used..used + n] == stream[used..]
  {
  }

  /** `tinfl_decompress_mem_to_callback`: decompressing through a 32 KB window, whose contents are handed
      over whenever the decompressor stops. */
  method InflateWindow(stream: seq<byte>, zlib: bool, wide: bool, unaligned: bool, ghost out: seq<byte>)
    returns (unpacked: seq<byte>, ok: bool)
    requires InflatesTo(zlib, stream, out)
    ensures ok && unpacked == out
  {
    hide ModeOf;
    hide InflatesTo, Run, ByteBits, Inflater.Resting, Inflater.Memory, Feeding, Start, Holds, Within, Step, Fed;
    ghost var goal, total := StreamRuns(zlib, true, stream, out);
    WithinWindow(ByteBits(stream), ModeFor(zlib, true), total, DICT_SIZE);
    var f := new Inflater(zlib, false, true, wide, unaligned, stream, DICT_SIZE, goal, total);
    var dict := new byte[DICT_SIZE];
    var used: nat, ofs: nat := 0, 0;
    unpacked, ok := [], false;
    WindowSize();
    EmptyWindow(dict[..]);
    while true
      invariant f.Resting() && f.goal == goal && f.r.stream == stream && f.o.wrap && f.o.window == DICT_SIZE
      invariant used == f.r.eaten <= |stream| && unpacked == f.o.out && unpacked <= out && ofs < DICT_SIZE
      invariant ofs == f.o.outPos || (f.o.outPos == DICT_SIZE && ofs == 0)
      invariant f.o.Presented(dict[..], ofs, DICT_SIZE) && dict.Length == DICT_SIZE
      invariant fresh(f) && fresh(f.Memory()) && fresh(dict)
      decreases |out| - |unpacked|
    {
      FeedingPart(stream, used, |stream| - used, false);
      var status, consumed, produced := f.Decompress(stream[used..], false, dict, ofs, DICT_SIZE - ofs);
      used := used + consumed;
      unpacked := unpacked + dict[ofs..ofs + produced];
      if !status.HasMoreOutput? {
        ok := status.Finished?;
        break;
      }
      TurnWindow(dict[..], f.o.out);
      ofs := (ofs + produced) % DICT_SIZE;
    }
  }

  lemma WindowSize()
    ensures PowerOfTwo(DICT_SIZE)
  {
    assert PowerOfTwo(32);
    assert PowerOfTwo(1024);
  }

  lemma EmptyWindow(s: seq<byte>)
    ensures Holds(s, DICT_SIZE, [], 0)
  {
  }

  lemma TurnWindow(s: seq<byte>, out: seq<byte>)
    ensures Holds(s, DICT_SIZE, out, DICT_SIZE) ==> Holds(s, DICT_SIZE, out, 0)
  {
  }

  /** Losslessness: any source, any compression flags, any calls of the compressor, any division of the packed
      bytes and of the output over calls of the decompressor. */
  method RoundTrip(src: seq<byte>, calls: seq<Call>, step: nat, flags: nat, callback: bool,
                   pieces: seq<(nat, nat)>, wide: bool, unaligned: bool)
    returns (unpacked: seq<byte>, status: Inflate.Status)
    requires step > 0 && forall i :: 0 <= i < |calls| ==> !calls[i].flush.Finish?
    ensures status.Finished? && unpacked == src
  {
    hide InflatesTo, Bit;
    var packed := CompressPieces(src, calls, step, flags, callback);
    var eaten;
    unpacked, status, eaten := InflatePieces(packed, Bit(flags, 0x1000), pieces, |src|, wide, unaligned, src);
  }

  // ---- What a flush is for

  /** Where the decompressor asks for more, it has delivered everything that what it was given stands for. */
  lemma NothingHeldBack(f: Inflater, zlib: bool, part: seq<byte>, out: seq<byte>)
    requires f.Resting() && Suits(f.mode, zlib) && Encoded(zlib, ByteBits(part), false, out)
    requires part <= f.r.stream && f.r.eaten == |part| && Step(Fed(f.r), f.abs).None?
    ensures out <= f.o.out
  {
    hide Run, Step, Inflater.Resting, Encoded, ByteBits, Start, Suits;
    var j := f.StandsAt();
    var s, k, a := ByteBits(f.r.stream), 8 * |part|, f.abs;
    BitsOfPart(part, f.r.stream);
    var put := s[..k];
    FedPart(f.r, part);
    var n := EncodedRuns(zlib, put, out, f.mode);
    StandstillIsLast(s, k, f.mode, j, a, n);
  }

  lemma FedPart(r: Reader, part: seq<byte>)
    requires part <= r.stream && r.eaten == |part|
    ensures Fed(r) == ByteBits(part)
  {
    BitsOfPart(part, r.stream);
    hide ByteBits;
  }

  lemma EncodedRuns(zlib: bool, put: bits, out: seq<byte>, m: Mode) returns (n: nat)
    requires Encoded(zlib, put, false, out) && Suits(m, zlib)
    ensures Run(put, Start(m), n) == Some(Between(m, false, |put|, out))
  {
    hide Run;
    var none: bits := [];
    assert Reaches(put + none, Start(m), Between(m, false, |put|, out)) && put + none == put;
    n :| Run(put, Start(m), n) == Some(Between(m, false, |put|, out));
  }

  lemma BitsOfPart(part: seq<byte>, stream: seq<byte>)
    requires part <= stream
    ensures ByteBits(stream)[..8 * |part|] == ByteBits(part)
  {
    ByteBitsAppend(part, stream[|part|..]);
    assert part + stream[|part|..] == stream;
  }

  /** After a sync or full flush the other side can read everything compressed so far, before the stream goes
      on; and then the rest. */
  method FlushedIsReadable(first: seq<byte>, second: seq<byte>, full: bool, flags: nat, wide: bool, unaligned: bool)
    returns (early: seq<byte>, all: seq<byte>)
    ensures first <= early && all == first + second
  {
    hide InflatesTo, Encoded, Bit;
    var part, stream := CompressInTwo(first, second, full, flags);
    early, all := ReadInTwo(part, stream, Bit(flags, 0x1000), wide, unaligned, first, first + second);
  }

  /** A source compressed up to a flush and then to its end. */
  method CompressInTwo(first: seq<byte>, second: seq<byte>, full: bool, flags: nat)
    returns (part: seq<byte>, stream: seq<byte>)
    ensures part <= stream && Encoded(Bit(flags, 0x1000), ByteBits(part), false, first)
    ensures InflatesTo(Bit(flags, 0x1000), stream, first + second)
  {
    hide InflatesTo, Compressor.Memory, Compressor.Ready, Compressor.Accepting, Encoded;
    hide ByteBits, Compressor.Valid, Compressor.Emptied;
    var c := new Compressor(flags, true, _ => true);
    c.AcceptsFirst();
    var r, consumed, produced := c.Compress(first, if full then FullFlush else SyncFlush, None);
    assert [] + first[..|first|] == first;
    part := c.o.sink;
    r, consumed, produced := c.Compress(second, Finish, None);
    assert second[..|second|] == second;
    stream := c.o.sink;
  }

  /** A stream read up to a flush and then to its end. */
  method ReadInTwo(part: seq<byte>, stream: seq<byte>, zlib: bool, wide: bool, unaligned: bool,
                   ghost first: seq<byte>, whole: seq<byte>)
    returns (early: seq<byte>, all: seq<byte>)
    requires part <= stream && InflatesTo(zlib, stream, whole) && Encoded(zlib, ByteBits(part), false, first)
    requires first <= whole
    ensures first <= early && all == whole
  {
    hide InflatesTo, Run, ByteBits, Inflater.Resting, Inflater.Memory, Feeding, Start, Within, Step, Fed, Encoded;
    ghost var goal, total := StreamRuns(zlib, false, stream, whole);
    var f := new Inflater(zlib, false, false, wide, unaligned, stream, DICT_SIZE, goal, total);
    var buf := new byte[|whole|];
    FeedingPart(stream, 0, |part|, true);
    var status, consumed, produced := f.Decompress(stream[0..|part|], true, buf, 0, buf.Length);
    early := buf[..produced];
    if status.NeedsMoreInput? {
      NothingHeldBack(f, zlib, part, first);
    }
    FeedingPart(stream, consumed, |stream| - consumed, false);
    var done := produced;
    status, consumed, produced := f.Decompress(stream[consumed..], false, buf, done, buf.Length - done);
    all := buf[..done + produced];
  }

  // ---- What a full flush is for

  /** After a full flush the stream can be read from there on, by a reader that has seen nothing of what came before:
      the rest of it, without the checksum a zlib stream ends with, is a raw stream of exactly the data that were
      compressed after the flush. */
  method FullFlushRestarts(first: seq<byte>, second: seq<byte>, before: seq<Call>, after: seq<Call>, flags: nat,
                           pieces: seq<(nat, nat)>, wide: bool, unaligned: bool)
    returns (unpacked: seq<byte>, status: Inflate.Status)
    requires forall i :: 0 <= i < |before| ==> !before[i].flush.Finish?
    requires forall i :: 0 <= i < |after| ==> !after[i].flush.Finish? && !after[i].flush.FullFlush?
    ensures status.Finished? && unpacked == second
  {
    hide InflatesTo;
    var part, stream := CompressAround(first, second, before, after, flags);
    var rest := stream[|part|..|stream| - if Bit(flags, 0x1000) then 4 else 0];
    var eaten;
    unpacked, status, eaten := InflatePieces(rest, false, pieces, |second|, wide, unaligned, second);
  }

  /** A source compressed up to a full flush, and what follows. */
  method CompressAround(first: seq<byte>, second: seq<byte>, before: seq<Call>, after: seq<Call>, flags: nat)
    returns (part: seq<byte>, stream: seq<byte>)
    requires forall i :: 0 <= i < |before| ==> !before[i].flush.Finish?
    requires forall i :: 0 <= i < |after| ==> !after[i].flush.Finish? && !after[i].flush.FullFlush?
    ensures InflatesTo(Bit(flags, 0x1000), stream, first + second)
    ensures part <= stream && |part| + (if Bit(flags, 0x1000) then 4 else 0) <= |stream|
    ensures InflatesTo(false, stream[|part|..|stream| - if Bit(flags, 0x1000) then 4 else 0], second)
  {
    hide TellsAll, InflatesTo, Compressor.Memory, Compressor.Ready, Compressor.Accepting;
    hide Compressor.Valid, Compressor.Summed, Midway;
    var c := new Compressor(flags, true, _ => true);
    c.AcceptsFirst();
    var used: nat := 0;
    MidwayFirst(c, first);
    for i := 0 to |before|
      invariant Midway(c, first, used, true) && !c.wantsFinish && !c.finished && c.zlib == Bit(flags, 0x1000)
      invariant fresh(c) && fresh(c.o) && fresh(c.Memory())
    {
      used := OneCall(c, first, used, true, before[i]);
    }
    var src := first + second;
    part := EmptyAt(c, first, second, used);
    used := |first|;
    for i := 0 to |after|
      invariant Midway(c, src, used, true) && !c.wantsFinish && !c.finished && c.zlib == Bit(flags, 0x1000)
      invariant fresh(c) && fresh(c.o) && fresh(c.Memory())
      invariant c.cut == 8 * |part| > 0 && c.d.since == |first| && part <= c.o.sink
    {
      used := OneCall(c, src, used, true, after[i]);
    }
    stream := FinishCalls(c, src, used, true, 1);
    FromCut(c.zlib, stream, part, first, second);
  }

  method EmptyAt(c: Compressor, first: seq<byte>, second: seq<byte>, used: nat) returns (part: seq<byte>)
    requires Midway(c, first, used, true) && !c.wantsFinish && !c.finished
    modifies c, c.o, c.Memory()
    ensures Midway(c, first + second, |first|, true) && !c.wantsFinish && !c.finished
    ensures part == c.o.sink && c.cut == 8 * |part| > 0 && c.d.since == |first|
  {
    hide TellsAll, Compressor.Memory, Compressor.Ready, Compressor.Synchronized;
    hide Compressor.Accepting, Compressor.Work;
    var r, consumed, produced := c.Compress(first[used..], FullFlush, None);
    assert first[..used] + first[used..] == first;
    assert (first + second)[..|first|] == first;
    part := c.o.sink;
  }

  lemma MidwayFirst(c: Compressor, src: seq<byte>)
    requires c.Accepting() && c.status.Okay? && c.d.hist == [] && c.o.callback && (forall k: nat :: c.o.accepts(k))
    requires c.o.left == 0 && !c.finished
    ensures Midway(c, src, 0, true)
  {
    hide Compressor.Accepting;
  }

  lemma FromCut(zlib: bool, stream: seq<byte>, part: seq<byte>, first: seq<byte>, second: seq<byte>)
    requires TellsAll(zlib, stream, 8 * |part|, first + second, |first|) && part != []
    ensures InflatesTo(zlib, stream, first + second) && |part| + (if zlib then 4 else 0) <= |stream|
    ensures InflatesTo(false, stream[|part|..|stream| - if zlib then 4 else 0], second)
  {
    hide InflatesTo;
    assert (first + second)[|first|..] == second;
  }
}
