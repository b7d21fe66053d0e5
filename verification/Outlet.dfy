/** Where the compressor's output goes: to a callback, or to the caller's buffer as far as it has room, while
    the rest waits in the output buffer (the end of `tdefl_flush_block`, `tdefl_flush_output_buffer`). */
module Outlet {
  import opened Bits
  import opened BitWriter

  class Outlet {
    const w: Writer
    /** Whether output goes to a callback, and which of its calls succeed. */
    const callback: bool
    const accepts: nat -> bool
    var room: nat
    var ofs: nat
    var left: nat
    var calls: nat
    var sink: seq<byte>

    constructor (w: Writer, callback: bool, accepts: nat -> bool)
      requires w.put == [] && w.base == 0
      ensures this.w == w && this.callback == callback && this.accepts == accepts
      ensures Valid() && sink == [] && left == 0
    {
      this.w, this.callback, this.accepts := w, callback, accepts;
      room, ofs, left, calls, sink := 0, 0, 0, 0, [];
    }

    /** Output that has not found room yet. */
    ghost function Unsent(): seq<byte>
      reads this`ofs, this`left, w.outBuf
    {
      if ofs + left <= w.outBuf.Length then w.outBuf[ofs..ofs + left] else []
    }

    /** All whole bytes written are in the sink or wait to be taken. */
    ghost predicate Valid()
      reads this`sink, this`ofs, this`left, w`put, w`base, w.outBuf
    {
      && Waiting() && 8 * w.base <= |w.put| && ByteBits(sink + Unsent()) == w.put[..8 * w.base]
    }

    ghost predicate Waiting()
      reads this`ofs, this`left
    {
      ofs + left <= w.outBuf.Length && (callback ==> left == 0)
    }

    /** The bytes delivered and the room for more stay together; bytes wait only where room is used up. */
    ghost predicate Accounted(total: nat)
      reads this`sink, this`room, this`left
    {
      !callback ==> |sink| + room == total && (left > 0 ==> room == 0)
    }

    /** Whether all went well since there had been `from` calls of the callback. */
    ghost predicate Heard(from: nat, ok: bool)
      reads this`calls
    {
      && from <= calls && (!callback ==> ok && calls == from)
      && (ok <==> forall k :: from <= k < calls ==> accepts(k))
    }

    /** With nothing waiting, all bytes are in the sink. */
    lemma NothingWaits()
      requires left == 0
      ensures sink + Unsent() == sink
    {
    }

    /** The finished bytes of a block leave the output buffer. */
    method Deliver() returns (ok: bool)
      requires w.Valid() && w.full <= OUT_END && 8 * w.base <= |w.put| && ByteBits(sink) == w.put[..8 * w.base]
      modifies this, w`outPos, w`base, w`full
      ensures w.Valid() && w.full == 0 && w.put == old(w.put) && w.bitsIn == old(w.bitsIn)
      ensures old(sink) <= sink && (ok ==> Valid()) && Heard(old(calls), ok)
      ensures callback ==> calls == old(calls) + if old(w.outPos) > 0 then 1 else 0
      ensures Accounted(old(|sink| + room))
    {
      hide Writer.Valid, ByteBits;
      ghost var base, was := w.base, sink;
      var out := w.Drain();
      assert |out| <= w.outBuf.Length;
      assert w.put[..8 * w.base] == w.put[..8 * base] + w.put[8 * base..8 * w.base];
      ByteBitsAppend(was, out);
      ok, ofs, left := true, 0, 0;
      if callback {
        if |out| != 0 {
          ok := accepts(calls);
          calls := calls + 1;
        }
        if ok {
          sink := sink + out;
          NothingWaits();
        }
      } else {
        var take := if |out| <= room then |out| else room;
        sink := sink + out[..take];
        ofs, left, room := take, |out| - take, room - take;
        Taken(was, out, take);
      }
    }

    lemma Taken(was: seq<byte>, out: seq<byte>, take: nat)
      requires take <= |out| <= w.outBuf.Length && w.outBuf[..|out|] == out
      requires sink == was + out[..take] && ofs == take && left == |out| - take
      ensures sink + Unsent() == was + out
    {
      assert w.outBuf[..|out|][take..] == w.outBuf[take..|out|];
    }

    /** Of the bytes waiting, the first `n` are moved to the sink. */
    lemma Moved(b: seq<byte>, o: nat, l: nat, n: nat, was: seq<byte>)
      requires o + l <= |b| && n <= l
      ensures was + b[o..o + n] + b[o + n..o + l] == was + b[o..o + l]
    {
      assert b[o..o + l] == b[o..o + n] + b[o + n..o + l];
    }

    /** `tdefl_flush_output_buffer` */
    method Flush()
      requires Waiting()
      modifies this`sink, this`ofs, this`left, this`room
      ensures Waiting() && sink + Unsent() == old(sink + Unsent()) && old(sink) <= sink
      ensures !callback ==> Accounted(old(|sink| + room))
      ensures callback || old(left) == 0 ==> sink == old(sink) && left == old(left)
      ensures !callback && old(left) > 0 && old(room) > 0 ==> left < old(left)
      ensures !callback && old(room) == 0 ==> left == old(left)
    {
      if !callback {
        var n := if room <= left then room else left;
        Moved(w.outBuf[..], ofs, left, n, sink);
        sink := sink + w.outBuf[ofs..ofs + n];
        ofs, left, room := ofs + n, left - n, room - n;
      }
    }
  }
}
