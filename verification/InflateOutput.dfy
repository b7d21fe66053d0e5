/** The decompressor's output buffer: either large enough for everything, or a window that the caller
    goes round. */
module InflateOutput {
  import opened Bits
  import opened Tokens

  /** The last `size` bytes of `out` lie in `s`: those since the last turn before `pos`, older ones from
      `pos` on. */
  ghost predicate Holds(s: seq<byte>, size: nat, out: seq<byte>, pos: nat) {
    && pos <= |s| && (pos < |out| ==> size <= |s|)
    && (forall k :: 0 <= k < |out| && |out| - pos <= k ==> s[k - (|out| - pos)] == out[k])
    && (forall k :: 0 <= k < |out| - pos && |out| - size <= k ==>
          s[k - (|out| - pos) + size] == out[k])
  }

  lemma HoldsPut(s: seq<byte>, size: nat, out: seq<byte>, pos: nat, c: byte)
    requires Holds(s, size, out, pos) && pos < size && pos < |s|
    ensures Holds(s[pos := c], size, out + [c], pos + 1)
  {
  }

  /** Where the byte `dist` places back lies. */
  function Back(size: nat, pos: nat, dist: nat): int {
    if dist <= pos then pos - dist else pos - dist + size
  }

  lemma HoldsAt(s: seq<byte>, size: nat, out: seq<byte>, pos: nat, dist: nat)
    requires Holds(s, size, out, pos) && 1 <= dist <= |out| && dist <= size && pos <= size
    ensures 0 <= Back(size, pos, dist) < |s| && s[Back(size, pos, dist)] == out[|out| - dist]
  {
    assert out[|out| - dist] == out[|out| - dist];
  }

  /** Masking with a window size that is a power of two. */
  lemma MaskedBack(size: nat, pos: nat, dist: nat, laps: nat)
    requires pos <= size && 1 <= dist <= size
    ensures (pos + size * laps - dist) % size == Back(size, pos, dist)
  {
    var b := Back(size, pos, dist);
    if dist <= pos {
      DivModUnique(pos - dist, size, laps);
    } else if laps == 0 {
      assert (pos - dist) % size == pos - dist + size by { ModNegative(size, pos - dist); }
    } else {
      assert size * laps == size * (laps - 1) + size;
      DivModUnique(pos - dist + size, size, laps - 1);
    }
  }

  lemma ModNegative(size: nat, x: int)
    requires x < 0 <= x + size
    ensures x % size == x + size
  {
    QuotientUnique(size, x / size, x % size, -1, x + size);
  }

  class Output {
    var buf: array<byte>
    var outPos: nat
    var outEnd: nat
    const wrap: bool
    ghost const window: nat
    ghost var out: seq<byte>

    constructor (wrap: bool, ghost window: nat)
      ensures this.wrap == wrap && this.window == window && out == [] && outPos == 0
    {
      this.wrap, this.window := wrap, window;
      buf := new byte[0];
      outPos, outEnd, out := 0, 0, [];
    }

    ghost predicate Valid()
      reads this, buf
    {
      Presented(buf[..], outPos, outEnd)
    }

    /** A buffer the caller may present: it holds what has been produced so far, and room up to `end`. */
    ghost predicate Presented(s: seq<byte>, next: nat, end: nat)
      reads this`out
    {
      && next <= end <= |s|
      && (wrap ==> end == window && Holds(s, window, out, next))
      && (!wrap ==> next == |out| && s[..next] == out)
    }

    /** The caller's buffer for one call. */
    method Load(buf: array<byte>, next: nat, avail: nat)
      requires next + avail <= buf.Length && Presented(buf[..], next, next + avail)
      modifies this`buf, this`outPos, this`outEnd
      ensures Valid() && this.buf == buf && outPos == next && outEnd == next + avail && out == old(out)
    {
      this.buf, outPos, outEnd := buf, next, next + avail;
    }

    /** What a call has produced lies where the caller's output began. */
    lemma Delivered(next: nat, was: seq<byte>)
      requires Valid() && was <= out && |out| - outPos == |was| - next
      ensures next <= outPos && buf[next..outPos] == out[|was|..]
    {
      if wrap {
        forall i | 0 <= i < outPos - next ensures buf[next..outPos][i] == out[|was|..][i] {
          assert out[|was| + i] == out[|was|..][i];
        }
      }
    }

    method Put(c: byte)
      requires Valid() && outPos < outEnd
      modifies this`outPos, this`out, buf
      ensures Valid() && out == old(out) + [c] && outPos == old(outPos) + 1
      ensures buf[..] == old(buf[..])[old(outPos) := c]
    {
      hide Holds;
      if wrap {
        HoldsPut(buf[..], window, out, outPos, c);
      }
      ghost var s := buf[..];
      buf[outPos] := c;
      assert buf[..] == s[outPos := c];
      outPos := outPos + 1;
      out := out + [c];
    }

    /** The window reaches back that far. */
    ghost predicate Near(dist: nat) { wrap ==> dist <= window }

    /** Where the byte `dist` places back lies. */
    ghost function Index(dist: nat): int
      reads this`outPos
    {
      if wrap then Back(window, outPos, dist) else outPos - dist
    }

    lemma IndexHolds(dist: nat)
      requires Valid() && 1 <= dist <= |out| && Near(dist)
      ensures 0 <= Index(dist) < buf.Length && buf[Index(dist)] == out[|out| - dist]
    {
      hide Holds;
      if wrap {
        HoldsAt(buf[..], window, out, outPos, dist);
      } else {
        assert buf[outPos - dist] == buf[..outPos][outPos - dist];
      }
    }

    /** The buffer index `dist` places back, from the distance to the buffer's start. */
    method Source(from: nat, dist: nat, ghost laps: nat) returns (k: nat)
      requires Valid() && 1 <= dist <= |out| && Near(dist)
      requires from == outPos + (if wrap then window * laps else 0)
      ensures k < buf.Length && buf[k] == out[|out| - dist]
      ensures k == Index(dist)
    {
      hide Holds;
      IndexHolds(dist);
      if wrap {
        MaskedBack(window, outPos, dist, laps);
        k := (from - dist) % outEnd;
      } else {
        k := from - dist;
      }
    }
  }
}
