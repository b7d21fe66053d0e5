/** The compressor's sliding window: a 32 KB ring with a 257-byte mirror behind it, the lookahead at
    its end, and hash chains in 16-bit positions (`tdefl_find_match` and the first half of
    `tdefl_compress_normal`). */
module Dictionary {
  import opened Bits
  import opened Tokens
  import opened Chains
  import opened Canonical

  const MIRROR: nat := MAX_MATCH - 1

  function Min(a: nat, b: nat): nat { if a <= b then a else b }

  /** The last `DICT_SIZE` bytes of `hist` lie in the ring; the ring's first bytes are repeated behind it. */
  ghost predicate Ring(s: seq<byte>, hist: seq<byte>) {
    && |s| == DICT_SIZE + MIRROR
    && forall x :: 0 <= x < |hist| && |hist| <= x + DICT_SIZE ==>
         s[x % DICT_SIZE] == hist[x] && (x % DICT_SIZE < MIRROR ==> s[DICT_SIZE + x % DICT_SIZE] == hist[x])
  }

  /** The `len` bytes of `hist` at `p` repeat those `dist` places before. */
  ghost predicate IsMatch(hist: seq<byte>, p: nat, dist: nat, len: nat) {
    && 1 <= dist <= p && p + len <= |hist|
    && forall i :: p <= i < p + len ==> hist[i] == hist[i - dist]
  }

  function Written(s: seq<byte>, at: nat, c: byte): (r: seq<byte>)
    requires at < DICT_SIZE && |s| == DICT_SIZE + MIRROR
  {
    if at < MIRROR then s[at := c][DICT_SIZE + at := c] else s[at := c]
  }

  lemma RingPush(s: seq<byte>, hist: seq<byte>, c: byte)
    requires Ring(s, hist)
    ensures Ring(Written(s, |hist| % DICT_SIZE, c), hist + [c])
  {
    var r, h := Written(s, |hist| % DICT_SIZE, c), hist + [c];
    forall x | 0 <= x < |h| && |h| <= x + DICT_SIZE
      ensures r[x % DICT_SIZE] == h[x]
      ensures x % DICT_SIZE < MIRROR ==> r[DICT_SIZE + x % DICT_SIZE] == h[x]
    {
      if x < |hist| {
        assert h[x] == hist[x];
        assert x % DICT_SIZE != |hist| % DICT_SIZE;
      }
    }
  }

  /** Reading on from a position of the window, without wrapping, past the end of the ring. */
  lemma RingAt(s: seq<byte>, hist: seq<byte>, p: nat, i: nat)
    requires Ring(s, hist) && i < MAX_MATCH && p + i < |hist| <= p + DICT_SIZE
    ensures p % DICT_SIZE + i < |s| && s[p % DICT_SIZE + i] == hist[p + i]
  {
    var x := p + i;
    assert hist[x] == hist[p + i];
    if p % DICT_SIZE + i < DICT_SIZE {
      assert x % DICT_SIZE == p % DICT_SIZE + i;
    } else {
      assert x % DICT_SIZE == p % DICT_SIZE + i - DICT_SIZE;
    }
  }

  /** What a probe compares are bytes of the history, wherever the hash chain pointed. */
  lemma ProbeIsMatch(s: seq<byte>, hist: seq<byte>, p: nat, dist: nat, len: nat, probe: nat)
    requires Ring(s, hist) && 1 <= dist <= p && p + len <= |hist| <= p - dist + DICT_SIZE && len <= MAX_MATCH
    requires probe == (p - dist) % DICT_SIZE
    requires p % DICT_SIZE + len <= |s| && probe + len <= |s|
    requires s[p % DICT_SIZE..p % DICT_SIZE + len] == s[probe..probe + len]
    ensures IsMatch(hist, p, dist, len)
  {
    hide Ring;
    forall x | p <= x < p + len ensures hist[x] == hist[x - dist] {
      var i, here := x - p, p % DICT_SIZE;
      RingAt(s, hist, p, i);
      RingAt(s, hist, p - dist, i);
      assert s[here..here + len][i] == s[here + i] && s[probe..probe + len][i] == s[probe + i];
    }
  }

  /** The low 16 bits of the distance to a chain entry decide which ring position it names. */
  lemma ProbePosition(p: nat, entry: nat, dist: nat)
    requires dist == (p - entry) % 65536 && dist <= p
    ensures entry % DICT_SIZE == (p - dist) % DICT_SIZE
  {
    var k := (p - entry) / 65536;
    assert p - entry == 65536 * k + dist;
    assert p - dist == entry + DICT_SIZE * (2 * k);
    ModShift(entry, 2 * k);
  }

  /** What stands for none is no distance away. */
  lemma EntryBehind(pos: nat, entry: nat, dist: nat)
    requires 0 < entry < 65536 && dist == (pos - entry) % 65536 && dist <= pos
    ensures (pos - dist) % 65536 == entry
  {
    var k := (pos - entry) / 65536;
    assert pos - dist == entry + 65536 * k;
    ShiftedMod(entry, k);
  }

  lemma PlaceNext(at: nat, n: nat)
    requires at == n % DICT_SIZE
    ensures (at + 1) % DICT_SIZE == (n + 1) % DICT_SIZE
  {
  }

  lemma ModShift(a: nat, k: int)
    requires a + DICT_SIZE * k >= 0
    ensures (a + DICT_SIZE * k) % DICT_SIZE == a % DICT_SIZE
  {
  }

  /** How far a search has followed the chain: to position `q`, after `seen` steps; or all in reach is seen. */
  datatype Trail = Lost | On(q: nat, seen: nat)

  /** From the match at distance `d` on, at least `probes` positions up to the current one have its hash, or one of
      them is a multiple of 65536. */
  ghost predicate OutOfReach(hist: seq<byte>, pos: nat, d: nat, probes: nat)
    requires 1 <= d <= pos && pos + 3 <= |hist|
  {
    || Rivals(hist, pos - d, pos, Chain(hist, pos)) >= probes
    || exists z :: pos - d <= z < pos && z % 65536 == 0 && Chain(hist, z) == Chain(hist, pos)
  }

  /** A match of three bytes or more has the same hash. */
  lemma SameChain(hist: seq<byte>, pos: nat, d: nat, len: nat)
    requires IsMatch(hist, pos, d, len) && len >= 3
    ensures Chain(hist, pos - d) == Chain(hist, pos)
  {
    assert hist[pos] == hist[pos - d] && hist[pos + 1] == hist[pos - d + 1] && hist[pos + 2] == hist[pos - d + 2];
  }

  lemma MatchEnds(hist: seq<byte>, pos: nat, d: nat, len: nat)
    requires IsMatch(hist, pos, d, len)
    ensures 1 <= d <= pos && pos + len <= |hist|
  {
  }

  /** A position of the chain before `q` adds one to what there is from `q` on. */
  lemma RivalsBeyond(hist: seq<byte>, p: nat, q: nat, pos: nat, h: nat)
    requires p < q <= pos && pos + 3 <= |hist| && Chain(hist, p) == h
    ensures Rivals(hist, p, pos, h) >= Rivals(hist, q, pos, h) + 1
  {
    hide Chain;
    RivalsSplit(hist, p, q, pos, h);
    RivalsSplit(hist, p, p + 1, q, h);
    assert Rivals(hist, p, p, h) == 0;
  }

  /** Within 65535 positions, the low 16 bits of a distance are all of it. */
  lemma NearDistance(pos: nat, p: nat)
    requires p <= pos < p + 65536
    ensures (pos - p % 65536) % 65536 == pos - p
  {
    var k := p / 65536;
    assert pos - p % 65536 == (pos - p) + 65536 * k;
    ShiftedMod(pos - p, k);
  }

  lemma ShiftedMod(a: nat, k: nat)
    requires a < 65536
    ensures (a + 65536 * k) % 65536 == a
  {
  }

  class Dict {
    const ring: array<byte>
    const next: array<uint16>
    const hash: array<uint16>
    var pos: nat
    var ahead: nat
    var size: nat
    ghost var hist: seq<byte>
    ghost var since: nat

    /** `hist` is everything taken in: `pos` bytes behind the current position, `ahead` bytes of
        lookahead. `size` bytes behind the position may be referred to, but none before `since`. */
    ghost predicate Valid()
      reads this, ring, next, hash
    {
      && Ring(ring[..], hist) && next != hash && next.Length == hash.Length == DICT_SIZE
      && Linked(hash[..], next[..], hist, since) && Sized()
    }

    ghost predicate Sized()
      reads this
    {
      && |hist| == pos + ahead && size + ahead <= DICT_SIZE && ahead <= MAX_MATCH
      && since + size <= pos && (since + size == pos || size + ahead == DICT_SIZE)
    }

    constructor ()
      ensures Valid() && fresh(ring) && fresh(next) && fresh(hash)
      ensures pos == ahead == size == since == 0 && hist == []
    {
      ring := new byte[DICT_SIZE + MIRROR];
      next := new uint16[DICT_SIZE](i => 0);
      hash := new uint16[DICT_SIZE](i => 0);
      pos, ahead, size, hist, since := 0, 0, 0, [], 0;
      new;
      LinkedFresh(hash[..], next[..], hist);
    }

    /** One byte of input goes to the end of the lookahead. */
    method Write(c: byte, at: nat)
      requires ring.Length == DICT_SIZE + MIRROR && Ring(ring[..], hist) && at == |hist| % DICT_SIZE
      modifies this`hist, ring
      ensures hist == old(hist) + [c] && Ring(ring[..], hist)
    {
      ghost var s := ring[..];
      RingPush(s, hist, c);
      ring[at] := c;
      if at < MIRROR {
        ring[DICT_SIZE + at] := c;
      }
      assert ring[..] == Written(s, at, c);
      hist := hist + [c];
    }

    /** Enter position `p` into the hash chain of `h`. `was` is what was known before its last byte `c`. */
    method Link(p: nat, h: bv15, ghost was: seq<byte>, ghost c: byte)
      requires next != hash && Linked(hash[..], next[..], was, since) && since <= p == |was| - 2 && hist == was + [c]
      requires h as nat == Chain(hist, p)
      modifies next, hash
      ensures Linked(hash[..], next[..], hist, since)
    {
      ghost var hash0, next0 := hash[..], next[..];
      LinkedPush(hash0, next0, was, since, c, p);
      hide *;
      var at, low := p % DICT_SIZE, (p % 65536) as uint16;
      next[at] := hash[h as nat];
      hash[h as nat] := low;
      assert next[..] == next0[at := hash0[h as nat]];
      assert hash[..] == hash0[h as nat := low];
    }

    /** Fill the lookahead as far as the input allows. `n` bytes of `src` have been taken. */
    method Fill(src: seq<byte>) returns (n: nat)
      requires Valid()
      modifies this`ahead, this`size, this`hist, ring, next, hash
      ensures Valid() && n == Min(|src|, 258 - old(ahead)) && hist == old(hist) + src[..n]
      ensures ahead == old(ahead) + n
      ensures size == Min(old(size), 32768 - ahead)
    {
      hide Ring, Linked;
      if ahead + size >= MIN_MATCH - 1 {
        n := FillFast(src);
      } else {
        n := FillSlow(src);
      }
      size := Min(DICT_SIZE - ahead, size);
    }

    method FillFast(src: seq<byte>) returns (n: nat)
      requires Valid() && ahead + size >= MIN_MATCH - 1
      modifies this`ahead, this`hist, ring, next, hash
      ensures Ring(ring[..], hist) && n == Min(|src|, MAX_MATCH - old(ahead)) && hist == old(hist) + src[..n]
      ensures ahead == old(ahead) + n && Linked(hash[..], next[..], hist, since)
    {
      hide Ring, HashNext, Linked;
      var at := (pos + ahead) % DICT_SIZE;
      var ins: nat := pos + ahead - 2;
      RingSize(ring[..], hist);
      var h := HashNext(HashOne(ring[ins % DICT_SIZE]), ring[(ins + 1) % DICT_SIZE]);
      TwoInRing(ring[..], hist, ins);
      n := Min(|src|, MAX_MATCH - ahead);
      ahead := ahead + n;
      assert src[..0] == [];
      for k := 0 to n
        invariant Ring(ring[..], hist) && hist == old(hist) + src[..k]
        invariant at == |hist| % DICT_SIZE && ring.Length == DICT_SIZE + MIRROR
        invariant ahead == old(ahead) + n && ins == old(pos + ahead) - 2 + k == |hist| - 2
        invariant Linked(hash[..], next[..], hist, since)
        invariant Rolls(h, hist[ins], hist[ins + 1])
      {
        var c := src[k];
        assert src[..k + 1] == src[..k] + [c];
        ghost var was := hist;
        Write(c, at);
        Rolled(h, was[ins], was[ins + 1], c);
        h := HashNext(h, c);
        Link(ins, h, was, c);
        PlaceNext(at, |hist| - 1);
        at, ins := (at + 1) % DICT_SIZE, ins + 1;
      }
    }

    method FillSlow(src: seq<byte>) returns (n: nat)
      requires Valid()
      modifies this`ahead, this`hist, ring, next, hash
      ensures Ring(ring[..], hist) && n == Min(|src|, MAX_MATCH - old(ahead)) && hist == old(hist) + src[..n]
      ensures ahead == old(ahead) + n && Linked(hash[..], next[..], hist, since)
    {
      hide Ring, HashNext, Linked;
      n := 0;
      RingSize(ring[..], hist);
      assert src[..0] == [];
      while n < |src| && ahead < MAX_MATCH
        invariant n <= |src| && old(ahead) <= ahead == old(ahead) + n <= MAX_MATCH
        invariant Ring(ring[..], hist) && hist == old(hist) + src[..n]
        invariant |hist| == pos + ahead && ring.Length == DICT_SIZE + MIRROR
        invariant Linked(hash[..], next[..], hist, since)
      {
        var c := src[n];
        var at := (pos + ahead) % DICT_SIZE;
        assert src[..n + 1] == src[..n] + [c];
        n := n + 1;
        ghost var was := hist;
        Write(c, at);
        ahead := ahead + 1;
        if ahead + size >= MIN_MATCH {
          var ins: nat := pos + (ahead - 1) - 2;
          TwoInRing(ring[..], hist, ins);
          Link(ins, HashNext(HashNext(HashOne(ring[ins % DICT_SIZE]), ring[(ins + 1) % DICT_SIZE]), c), was, c);
        } else {
          LinkedShort(hash[..], next[..], was, since, c);
        }
      }
    }

    // ---- The search for a match

    /** The walk through the chain of the current position has come to `q`. */
    ghost predicate Followed(from: nat, q: nat)
      reads this
    {
      && from == q % DICT_SIZE && since <= q <= pos <= q + size && pos + 3 <= |hist|
      && Chain(hist, q) == Chain(hist, pos)
    }

    /** The position before `q` in the chain of the current one. */
    ghost function Before(q: nat): Option<nat>
      reads this
      requires q <= pos && pos + 3 <= |hist|
    {
      Last(hist, since, q, Chain(hist, pos))
    }

    ghost predicate InReach(q: nat)
      reads this
    {
      q <= pos && pos + 3 <= |hist| && Before(q).Some? && pos <= Before(q).value + size
    }

    /** No position of the chain from `q` on up to the current one starts a match longer than `len`. */
    ghost predicate NoneLonger(q: nat, len: nat)
      reads this
      requires pos + 3 <= |hist|
    {
      forall p :: q <= p < pos && Chain(hist, p) == Chain(hist, pos) ==> !IsMatch(hist, pos, pos - p, len + 1)
    }

    /** The walk stands at ring position `at`, and has passed nothing longer than `len`. */
    ghost predicate Tracks(t: Trail, at: nat, len: nat)
      reads this
    {
      match t
      case Lost => pos >= size && pos + 3 <= |hist| && NoneLonger(pos - size, len)
      case On(q, seen) =>
        Followed(at, q) && NoneLonger(q, len) && Rivals(hist, q, pos, Chain(hist, pos)) == seen
    }

    /** The walk has come to the next entry, at ring position `at` and distance `d`, and not looked at it yet. */
    ghost predicate Meets(t: Trail, at: nat, d: nat, len: nat)
      reads this
    {
      match t
      case Lost => Tracks(t, at, len)
      case On(q, seen) =>
        && Tracks(t, q % DICT_SIZE, len) && InReach(q)
        && d == pos - Before(q).value && at == Before(q).value % DICT_SIZE
    }

    /** The walk once it has looked at that entry. */
    ghost function Onward(t: Trail): Trail
      reads this
    {
      match t
      case Lost => Lost
      case On(q, seen) => if InReach(q) then On(Before(q).value, seen + 1) else Lost
    }

    /** A match longer than `len` lies beyond what `probes` probes can find. */
    ghost predicate Searched(probes: nat, len: nat)
      reads this
    {
        forall d :: 1 <= d <= size && len >= 2 && IsMatch(hist, pos, d, len + 1) ==> OutOfReach(hist, pos, d, probes)
    }

    /** One `TDEFL_PROBE`: follow the chain one entry. `out` ends the search, `hit` ends the probing. */
    method Probe(from: nat, maxDist: nat, len: nat, c0: byte, c1: byte, ghost t: Trail)
      returns (out: bool, hit: bool, at: nat, dist: nat, ghost u: Trail)
      requires Valid() && from < DICT_SIZE && maxDist == size && 2 <= len < ahead && Tracks(t, from, len)
      ensures at < DICT_SIZE && (hit ==> !out)
      ensures !out ==> dist <= maxDist && at == (pos - dist) % DICT_SIZE && at + len < ring.Length
      ensures !out ==> (pos - dist) % 65536 != 0
      ensures !out ==> (hit <==> ring[at + len] == c0 && ring[at + len - 1] == c1)
      ensures out ==> forall probes: nat :: Searched(probes, len)
      ensures !out ==> Meets(u, at, dist, len) && (u == t || u == Lost)
    {
      hide Ring, Chain, Last, Linked, Searched, NoneLonger, Rivals;
      out, hit, at, dist, u := false, false, from, 0, t;
      RingSize(ring[..], hist);
      var entry: nat := next[from] as nat;
      if t.On? && !InReach(t.q) {
        u := Lost;
        AllLookedAt(t, from, len);
      }
      if t.On? { NextIs(t.q); }
      if entry == 0 {
        out := true;
        NothingEntered(u, from, len);
        return;
      }
      dist := (pos - entry) % 65536;
      if u.On? { NearDistance(pos, Before(u.q).value); }
      if dist > maxDist {
        out := true;
        LostSearched(len);
        return;
      }
      ProbePosition(pos, entry, dist);
      EntryBehind(pos, entry, dist);
      at := entry % DICT_SIZE;
      hit := ring[at + len] == c0 && ring[at + len - 1] == c1;
    }

    lemma NextIs(q: nat)
      requires Valid() && Followed(q % DICT_SIZE, q)
      ensures next[q % DICT_SIZE] == Ref(Before(q))
    {
      hide Ring, Chain, Last, Ref;
      assert next[..][q % DICT_SIZE] == next[q % DICT_SIZE];
    }

    /** Before `q` there is nothing in reach. */
    lemma AllLookedAt(t: Trail, from: nat, len: nat)
      requires Sized() && Tracks(t, from, len) && t.On? && !InReach(t.q)
      ensures Tracks(Lost, from, len)
    {
      hide Chain, IsMatch, Rivals;
    }

    lemma LostSearched(len: nat)
      requires Sized() && len >= 2 && Tracks(Lost, 0, len)
      ensures forall probes: nat :: Searched(probes, len)
    {
      hide Chain;
      var n := len + 1;
      forall d | 1 <= d <= size ensures !IsMatch(hist, pos, d, n) {
        if IsMatch(hist, pos, d, n) { SameChain(hist, pos, d, n); }
      }
    }

    /** An entry of zero: the chain ends, or its next position is a multiple of 65536. */
    lemma NothingEntered(u: Trail, from: nat, len: nat)
      requires Sized() && len >= 2 && Tracks(u, from, len) && (u.On? ==> InReach(u.q) && Before(u.q).value % 65536 == 0)
      ensures forall probes: nat :: Searched(probes, len)
    {
      if u == Lost {
        LostSearched(len);
      } else {
        var z := Before(u.q).value;
        forall probes: nat, d | 1 <= d <= size && IsMatch(hist, pos, d, len + 1)
          ensures OutOfReach(hist, pos, d, probes)
        {
          SameChain(hist, pos, d, len + 1);
          assert pos - d <= z < pos;
        }
      }
    }

    /** No more probes: what has not been looked at is too far down the chain. */
    lemma OutOfProbes(t: Trail, at: nat, len: nat, probes: nat)
      requires Sized() && len >= 2 && Tracks(t, at, len) && (t.On? ==> t.seen + 1 >= probes)
      ensures Searched(probes, len)
    {
      if t == Lost {
        LostSearched(len);
      } else {
        forall d | 1 <= d <= size && IsMatch(hist, pos, d, len + 1) ensures OutOfReach(hist, pos, d, probes) {
          SameChain(hist, pos, d, len + 1);
          RivalsBeyond(hist, pos - d, t.q, pos, Chain(hist, pos));
        }
      }
    }

    /** The entry met has been compared. */
    lemma Compared(t: Trail, at: nat, d: nat, len: nat, now: nat)
      requires Sized() && Meets(t, at, d, len) && len <= now && (t.On? ==> !IsMatch(hist, pos, d, now + 1))
      ensures Tracks(Onward(t), at, now)
    {
      hide Chain;
      if t.On? {
        RivalsBack(hist, since, t.q, pos, Chain(hist, pos));
        var r := Before(t.q).value;
        forall p | r <= p < pos && Chain(hist, p) == Chain(hist, pos) ensures !IsMatch(hist, pos, pos - p, now + 1) {
        }
      }
    }

    /** How far the bytes at ring position `at` agree with those at the current position. */
    method Agreement(at: nat, maxLen: nat) returns (n: nat)
      requires Valid() && at < DICT_SIZE && maxLen <= MAX_MATCH
      ensures n <= maxLen && ring[pos % DICT_SIZE..pos % DICT_SIZE + n] == ring[at..at + n]
      ensures n < maxLen ==> ring[pos % DICT_SIZE + n] != ring[at + n]
    {
      n := 0;
      while n < maxLen && ring[pos % DICT_SIZE + n] == ring[at + n]
        invariant n <= maxLen && ring[pos % DICT_SIZE..pos % DICT_SIZE + n] == ring[at..at + n]
      {
        n := n + 1;
      }
    }

    /** The inner loop of `tdefl_find_match`: on to the next entry whose bytes at `len` and before it are right. */
    method NextHit(from: nat, maxDist: nat, len: nat, probes: nat, c0: byte, c1: byte, ghost all: nat, ghost t: Trail)
      returns (out: bool, left: nat, at: nat, dist: nat, ghost u: Trail)
      requires Valid() && from < DICT_SIZE && maxDist == size && 2 <= len < ahead && probes >= 1
      requires pos % DICT_SIZE + len < ring.Length
      requires c0 == ring[pos % DICT_SIZE + len] && c1 == ring[pos % DICT_SIZE + len - 1]
      requires Tracks(t, from, len) && (t.On? ==> t.seen + probes >= all)
      ensures out ==> Searched(all, len)
      ensures !out ==> 1 <= left < probes && at < DICT_SIZE && dist <= maxDist && at == (pos - dist) % DICT_SIZE
      ensures !out ==> (pos - dist) % 65536 != 0
      ensures !out ==> Meets(u, at, dist, len) && (u.On? ==> u.seen + 1 + left >= all)
    {
      hide Ring, IsMatch, Chain, Followed, Rivals, Linked, Searched, Tracks, Meets;
      left, at, dist, u := probes, from, 0, t;
      var hit := false;
      while !hit
        invariant at < DICT_SIZE && 1 <= left <= probes && (hit ==> left < probes)
        invariant hit ==> dist <= maxDist && at == (pos - dist) % DICT_SIZE && (pos - dist) % 65536 != 0
        invariant if hit then Meets(u, at, dist, len) && (u.On? ==> u.seen + 1 + left >= all)
                  else Tracks(u, at, len) && (u.On? ==> u.seen + left >= all)
        decreases left
      {
        left := left - 1;
        if left == 0 {
          OutOfProbes(u, at, len, all);
          out := true;
          return;
        }
        var k := 0;
        while k < 3 && !hit
          invariant at < DICT_SIZE && k <= 3
          invariant hit ==> dist <= maxDist && at == (pos - dist) % DICT_SIZE && (pos - dist) % 65536 != 0
          invariant if hit then Meets(u, at, dist, len) && (u.On? ==> u.seen + 1 + left >= all)
                    else Tracks(u, at, len) && (u.On? ==> u.seen + left + (if k == 0 then 1 else 0) >= all)
          decreases 3 - k
        {
          out, hit, at, dist, u := Probe(at, maxDist, len, c0, c1, u);
          if out {
            return;
          }
          if !hit {
            if u.On? { Mismatch(at, dist, len); }
            Compared(u, at, dist, len, len);
            u := Onward(u);
          }
          k := k + 1;
        }
      }
      out := false;
    }

    /** `tdefl_find_match`: whatever the chains hold, a match that is reported is one, lies within the
        window and the lookahead, and is longer than the one already known. With chains as `Valid` has them, a
        longer match is missed only where the probes do not reach: at least `probes` positions from there on have
        the hash of this one, or one of them is a multiple of 65536, which the tables cannot tell from none. A
        match that starts at such a position is never reported. */
    method FindMatch(maxDist: nat, maxLen: nat, probes: nat, dist0: nat, len0: nat) returns (dist: nat, len: nat)
      requires Valid() && maxDist == size && maxLen == ahead && probes >= 1 && MIN_MATCH - 1 <= len0 < MAX_MATCH
      ensures (dist == dist0 && len == len0)
              || (len0 < len <= maxLen && 1 <= dist <= maxDist && IsMatch(hist, pos, dist, len)
                  && (pos - dist) % 65536 != 0)
      ensures Searched(probes, len)
    {
      hide Ring, IsMatch, Chain, Followed, Rivals, Linked, Searched, Tracks, Meets;
      dist, len := dist0, len0;
      RingSize(ring[..], hist);
      var here := pos % DICT_SIZE;
      var at: nat, left := here, probes;
      var c0, c1 := ring[here + len], ring[here + len - 1];
      if maxLen <= len {
        BeyondInput(probes, len);
        return;
      }
      ghost var t := On(pos, 0);
      WalkStarts(len);
      while true
        invariant at < DICT_SIZE && len0 <= len < maxLen && left >= 1
        invariant c0 == ring[here + len] && c1 == ring[here + len - 1]
        invariant || (dist == dist0 && len == len0)
                  || (len0 < len && 1 <= dist <= maxDist && IsMatch(hist, pos, dist, len)
                      && (pos - dist) % 65536 != 0)
        invariant Tracks(t, at, len) && (t.On? ==> t.seen + left >= probes)
        decreases left
      {
        var out, d;
        out, left, at, d, t := NextHit(at, maxDist, len, left, c0, c1, probes, t);
        if out {
          return;
        }
        if d == 0 {
          NoDistance(t, at, len, probes);
          return;
        }
        var n;
        n, t := Compare(at, d, len, maxLen, t);
        if n > len {
          dist, len := d, n;
          if n == maxLen {
            BeyondInput(probes, len);
            return;
          }
          c0, c1 := ring[here + len], ring[here + len - 1];
        }
      }
    }

    /** With more probes than positions in the window, and no multiple of 65536 among these, nothing longer is missed:
        the match found is the longest there is. */
    lemma LongestFound(probes: nat, len: nat, d: nat)
      requires Sized() && Searched(probes, len) && len >= 2 && size < probes && 1 <= d <= size
      requires forall z :: pos - size <= z < pos ==> z % 65536 != 0
      ensures !IsMatch(hist, pos, d, len + 1)
    {
      hide Chain, IsMatch;
      if IsMatch(hist, pos, d, len + 1) {
        MatchEnds(hist, pos, d, len + 1);
        assert OutOfReach(hist, pos, d, probes);
        RivalsFew(hist, pos - d, pos, Chain(hist, pos));
      }
    }

    /** The comparison of one entry with the current position. */
    method Compare(at: nat, d: nat, len: nat, maxLen: nat, ghost t: Trail) returns (n: nat, ghost u: Trail)
      requires Valid() && 2 <= len < maxLen == ahead && at < DICT_SIZE && 1 <= d <= size && at == (pos - d) % DICT_SIZE
      requires Meets(t, at, d, len)
      ensures n <= maxLen && (n > len ==> IsMatch(hist, pos, d, n))
      ensures u == Onward(t) && (n < maxLen ==> Tracks(u, at, if n > len then n else len))
    {
      hide Ring, IsMatch, Chain, Followed, Rivals, Linked, Tracks, Meets, Onward;
      RingSize(ring[..], hist);
      n := Agreement(at, maxLen);
      u := Onward(t);
      if n > len { ProbeIsMatch(ring[..], hist, pos, d, n, at); }
      if n < maxLen {
        ghost var now := if n > len then n else len;
        ShorterThan(at, d, n, now);
        Compared(t, at, d, len, now);
      }
    }

    /** Nothing is longer than the lookahead. */
    lemma BeyondInput(probes: nat, len: nat)
      requires Sized() && ahead <= len
      ensures Searched(probes, len)
    {
    }

    lemma WalkStarts(len: nat)
      requires Sized() && ahead >= 3
      ensures Tracks(On(pos, 0), pos % DICT_SIZE, len)
    {
    }

    /** The walk is never at distance 0 before it is lost. */
    lemma NoDistance(t: Trail, at: nat, len: nat, probes: nat)
      requires Sized() && len >= 2 && Meets(t, at, 0, len)
      ensures Searched(probes, len)
    {
      hide Chain, Rivals, Searched, NoneLonger;
      LostSearched(len);
    }

    /** One of the two bytes a probe looks at is wrong. */
    lemma Mismatch(at: nat, d: nat, len: nat)
      requires Valid() && 2 <= len < ahead && 1 <= d <= size && at == (pos - d) % DICT_SIZE
      requires at + len < ring.Length && pos % DICT_SIZE + len < ring.Length
      requires ring[at + len] != ring[pos % DICT_SIZE + len] || ring[at + len - 1] != ring[pos % DICT_SIZE + len - 1]
      ensures !IsMatch(hist, pos, d, len + 1)
    {
      hide Ring, Linked;
      RingAt(ring[..], hist, pos, len);
      RingAt(ring[..], hist, pos, len - 1);
      RingAt(ring[..], hist, pos - d, len);
      RingAt(ring[..], hist, pos - d, len - 1);
    }

    /** What agrees up to `n` only is no match of more than `n` bytes. */
    lemma ShorterThan(at: nat, d: nat, n: nat, len: nat)
      requires Valid() && n <= len && n < ahead && 1 <= d <= size && at == (pos - d) % DICT_SIZE
      requires at + n < ring.Length && pos % DICT_SIZE + n < ring.Length
      requires ring[at + n] != ring[pos % DICT_SIZE + n]
      ensures !IsMatch(hist, pos, d, len + 1)
    {
      hide Ring, Linked;
      RingAt(ring[..], hist, pos, n);
      RingAt(ring[..], hist, pos - d, n);
    }

    /** The run-length parser's search: how often the last byte repeats at the current position. */
    method RunLength() returns (n: nat)
      requires Valid() && size > 0
      ensures n <= ahead && IsMatch(hist, pos, 1, n) && (n < ahead ==> !IsMatch(hist, pos, 1, n + 1))
    {
      var here := pos % DICT_SIZE;
      var c := ring[(pos - 1) % DICT_SIZE];
      assert c == hist[pos - 1];
      n := 0;
      while n < ahead && ring[here + n] == c
        invariant n <= ahead && forall i :: pos - 1 <= i < pos + n ==> hist[i] == c
      {
        RingAt(ring[..], hist, pos, n);
        n := n + 1;
      }
      if n < ahead {
        RingAt(ring[..], hist, pos, n);
        assert hist[pos + n] != hist[pos + n - 1];
      }
    }

    /** After a full flush: no chains, and nothing behind the position may be referred to. */
    method Forget()
      requires Valid() && ahead == 0
      modifies this`size, this`since, next, hash
      ensures Valid() && size == 0 && since == |hist|
      ensures forall i :: 0 <= i < DICT_SIZE ==> hash[i] == 0 && next[i] == 0
    {
      hide Ring, Linked;
      for i := 0 to DICT_SIZE
        invariant forall k :: 0 <= k < i ==> hash[k] == 0
      {
        hash[i] := 0;
      }
      for i := 0 to DICT_SIZE
        invariant forall k :: 0 <= k < i ==> next[k] == 0
        modifies next
      {
        next[i] := 0;
      }
      size, since := 0, |hist|;
      LinkedFresh(hash[..], next[..], hist);
    }

    /** Step over `n` bytes of the lookahead. */
    method Move(n: nat)
      requires Valid() && n <= ahead
      modifies this`pos, this`ahead, this`size
      ensures Valid() && pos == old(pos) + n && ahead == old(ahead) - n && size == old(size) + n
    {
      pos, ahead := pos + n, ahead - n;
      size := Min(size + n, DICT_SIZE);
    }
  }

  /** `h` goes on like the hash of `a` and `b`. */
  ghost predicate Rolls(h: bv15, a: byte, b: byte) {
    forall c: byte :: HashNext(h, c) == HashThree(a, b, c)
  }

  lemma Rolled(h: bv15, a: byte, b: byte, c: byte)
    requires Rolls(h, a, b)
    ensures HashNext(h, c) == HashThree(a, b, c) && Rolls(HashNext(h, c), b, c)
  {
    hide HashNext, HashThree;
    forall d: byte ensures HashNext(HashNext(h, c), d) == HashThree(b, c, d) { HashRolls(a, b, c, d); }
  }

  lemma TwoInRing(s: seq<byte>, hist: seq<byte>, p: nat)
    requires Ring(s, hist) && p + 2 <= |hist| <= p + DICT_SIZE
    ensures |s| == DICT_SIZE + MIRROR && s[p % DICT_SIZE] == hist[p] && s[(p + 1) % DICT_SIZE] == hist[p + 1]
    ensures Rolls(HashNext(HashOne(hist[p]), hist[p + 1]), hist[p], hist[p + 1])
  {
    hide HashNext;
  }

  lemma RingSize(s: seq<byte>, hist: seq<byte>)
    requires Ring(s, hist)
    ensures |s| == DICT_SIZE + MIRROR
  {
  }
}
