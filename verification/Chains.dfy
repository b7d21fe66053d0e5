/** The hash chains of the compressor, by what they are for: from every position of the window they lead back
    through the earlier positions whose next three bytes have the same hash. */
module Chains {
  import opened Bits
  import opened Canonical
  import opened Tokens

  newtype uint16 = x: int | 0 <= x < 0x1_0000

  // Hashes of three bytes; the source masks to 15 bits after each step.
  function HashOne(a: byte): bv15 { a as bv15 }
  function HashNext(h: bv15, c: byte): bv15 { (h << 5) ^ (c as bv15) }

  function HashThree(a: byte, b: byte, c: byte): bv15 { HashNext(HashNext(HashOne(a), b), c) }

  /** Each byte of the three is moved five bits on by the next. */
  lemma HashStated(a: byte, b: byte, c: byte)
    ensures HashThree(a, b, c) == ((a as bv15) << 10) ^ ((b as bv15) << 5) ^ (c as bv15)
  {
    ShiftedOn(a as bv15, b as bv15, c as bv15);
  }

  lemma ShiftedOn(a: bv15, b: bv15, c: bv15)
    ensures (((a << 5) ^ b) << 5) ^ c == (a << 10) ^ (b << 5) ^ c
  {
  }

  /** Fifteen bits hold three bytes: the fourth pushes the first out. */
  lemma HashRolls(a: byte, b: byte, c: byte, d: byte)
    ensures HashNext(HashThree(a, b, c), d) == HashThree(b, c, d)
  {
    PushedOut(a as bv15, b as bv15, c as bv15, d as bv15);
  }

  lemma PushedOut(a: bv15, b: bv15, c: bv15, d: bv15)
    ensures (((((a << 5) ^ b) << 5) ^ c) << 5) ^ d == (((b << 5) ^ c) << 5) ^ d
  {
  }

  /** The chain that position `p` belongs to. */
  function Chain(hist: seq<byte>, p: nat): (h: nat)
    requires p + 3 <= |hist|
    ensures h < DICT_SIZE
  {
    HashThree(hist[p], hist[p + 1], hist[p + 2]) as nat
  }

  /** The last position of chain `h` from `since` up to, but not including, `m`. */
  function Last(hist: seq<byte>, since: nat, m: nat, h: nat): (r: Option<nat>)
    requires m <= since || m + 2 <= |hist|
    ensures r.Some? ==> since <= r.value < m && Chain(hist, r.value) == h
    ensures forall p :: (if r.Some? then r.value + 1 else since) <= p < m ==> Chain(hist, p) != h
    decreases m
  {
    if m <= since then None
    else if Chain(hist, m - 1) == h then Some(m - 1)
    else Last(hist, since, m - 1, h)
  }

  /** A position as the tables keep it: its low 16 bits, 0 standing for none. */
  function Ref(p: Option<nat>): uint16 { if p.None? then 0 else (p.value % 65536) as uint16 }

  /** How far the positions with three known bytes reach. */
  function Entered(hist: seq<byte>, since: nat): nat { if |hist| >= since + 2 then |hist| - 2 else since }

  /** `hash` keeps the last position of each chain. */
  ghost predicate Heads(hash: seq<uint16>, hist: seq<byte>, since: nat, m: nat)
    requires m <= since || m + 2 <= |hist|
  {
    |hash| == DICT_SIZE && forall h :: 0 <= h < DICT_SIZE ==> hash[h] == Ref(Last(hist, since, m, h))
  }

  /** `next` keeps, for each position of the window, the one before it in its chain. */
  ghost predicate Links(next: seq<uint16>, hist: seq<byte>, since: nat, m: nat)
    requires m <= since || m + 2 <= |hist|
  {
    && |next| == DICT_SIZE
    && forall p :: since <= p < m <= p + DICT_SIZE ==> next[p % DICT_SIZE] == Ref(Last(hist, since, p, Chain(hist, p)))
  }

  /** The tables hold the chains of all positions since `since`. */
  ghost predicate Linked(hash: seq<uint16>, next: seq<uint16>, hist: seq<byte>, since: nat) {
    && since <= |hist|
    && Heads(hash, hist, since, Entered(hist, since)) && Links(next, hist, since, Entered(hist, since))
  }

  /** Nothing is linked after a fresh start. */
  lemma LinkedFresh(hash: seq<uint16>, next: seq<uint16>, hist: seq<byte>)
    requires |hash| == |next| == DICT_SIZE && forall h :: 0 <= h < DICT_SIZE ==> hash[h] == 0
    ensures Linked(hash, next, hist, |hist|)
  {
  }

  lemma {:induction false} LastGrows(hist: seq<byte>, c: byte, since: nat, m: nat, h: nat)
    requires m <= since || m + 2 <= |hist|
    ensures Last(hist + [c], since, m, h) == Last(hist, since, m, h)
    decreases m
  {
    if m > since { LastGrows(hist, c, since, m - 1, h); }
  }

  /** A byte that does not complete three since `since` changes nothing. */
  lemma LinkedShort(hash: seq<uint16>, next: seq<uint16>, hist: seq<byte>, since: nat, c: byte)
    requires Linked(hash, next, hist, since) && |hist| < since + 2
    ensures Linked(hash, next, hist + [c], since)
  {
  }

  lemma ChainGrows(hist: seq<byte>, c: byte, p: nat)
    requires p + 3 <= |hist|
    ensures Chain(hist + [c], p) == Chain(hist, p)
  {
  }

  lemma HeadsPush(hash: seq<uint16>, hist: seq<byte>, since: nat, c: byte, p: nat)
    requires since <= p == |hist| - 2 && Heads(hash, hist, since, p)
    ensures |hash| == DICT_SIZE && Heads(hash[Chain(hist + [c], p) := (p % 65536) as uint16], hist + [c], since, p + 1)
  {
    hide Chain;
    var all := hist + [c];
    var h := Chain(all, p);
    var r := hash[h := (p % 65536) as uint16];
    forall k | 0 <= k < DICT_SIZE ensures r[k] == Ref(Last(all, since, p + 1, k)) {
      LastGrows(hist, c, since, p, k);
    }
  }

  lemma LinksPush(hash: seq<uint16>, next: seq<uint16>, hist: seq<byte>, since: nat, c: byte, p: nat)
    requires since <= p == |hist| - 2 && Heads(hash, hist, since, p) && Links(next, hist, since, p)
    ensures |next| == DICT_SIZE
    ensures Links(next[p % DICT_SIZE := hash[Chain(hist + [c], p)]], hist + [c], since, p + 1)
  {
    var all := hist + [c];
    var r := next[p % DICT_SIZE := hash[Chain(all, p)]];
    hide Chain, Last, Ref;
    forall q | since <= q < p + 1 <= q + DICT_SIZE
      ensures r[q % DICT_SIZE] == Ref(Last(all, since, q, Chain(all, q)))
    {
      LastGrows(hist, c, since, q, Chain(all, q));
      if q < p {
        OtherPlace(q, p);
        ChainGrows(hist, c, q);
      }
    }
  }

  lemma OtherPlace(q: nat, p: nat)
    requires q < p < q + DICT_SIZE
    ensures q % DICT_SIZE != p % DICT_SIZE
  {
  }

  /** A byte completes the three bytes of a position, which is entered into its chain. */
  lemma LinkedPush(hash: seq<uint16>, next: seq<uint16>, hist: seq<byte>, since: nat, c: byte, p: nat)
    requires Linked(hash, next, hist, since) && since <= p == |hist| - 2
    ensures |hash| == |next| == DICT_SIZE
    ensures
      var h := Chain(hist + [c], p);
      Linked(hash[h := (p % 65536) as uint16], next[p % DICT_SIZE := hash[h]], hist + [c], since)
  {
    hide Heads, Links, Chain;
    assert Entered(hist, since) == p && Entered(hist + [c], since) == p + 1;
    HeadsPush(hash, hist, since, c, p);
    LinksPush(hash, next, hist, since, c, p);
  }

  // ---- Candidates for a match

  /** How many positions from `lo` up to `hi` belong to chain `h`. */
  function Rivals(hist: seq<byte>, lo: nat, hi: nat, h: nat): nat
    requires hi <= lo || hi + 2 <= |hist|
    decreases hi
  {
    if hi <= lo then 0 else Rivals(hist, lo, hi - 1, h) + if Chain(hist, hi - 1) == h then 1 else 0
  }

  lemma {:induction false} RivalsSplit(hist: seq<byte>, lo: nat, mid: nat, hi: nat, h: nat)
    requires lo <= mid <= hi && (hi <= lo || hi + 2 <= |hist|)
    ensures Rivals(hist, lo, hi, h) == Rivals(hist, lo, mid, h) + Rivals(hist, mid, hi, h)
    decreases hi
  {
    if mid < hi { RivalsSplit(hist, lo, mid, hi - 1, h); }
  }

  lemma {:induction false} RivalsNone(hist: seq<byte>, lo: nat, hi: nat, h: nat)
    requires hi <= lo || hi + 2 <= |hist|
    requires forall p :: lo <= p < hi ==> Chain(hist, p) != h
    ensures Rivals(hist, lo, hi, h) == 0
    decreases hi
  {
    if lo < hi { RivalsNone(hist, lo, hi - 1, h); }
  }

  lemma {:induction false} RivalsFew(hist: seq<byte>, lo: nat, hi: nat, h: nat)
    requires lo <= hi && (hi <= lo || hi + 2 <= |hist|)
    ensures Rivals(hist, lo, hi, h) <= hi - lo
    decreases hi
  {
    if lo < hi { RivalsFew(hist, lo, hi - 1, h); }
  }

  /** One chain entry back, there is one rival more. */
  lemma RivalsBack(hist: seq<byte>, since: nat, q: nat, pos: nat, h: nat)
    requires since <= q <= pos && pos + 3 <= |hist| && Last(hist, since, q, h).Some?
    ensures Rivals(hist, Last(hist, since, q, h).value, pos, h) == Rivals(hist, q, pos, h) + 1
  {
    var r := Last(hist, since, q, h).value;
    RivalsSplit(hist, r, q, pos, h);
    RivalsSplit(hist, r, r + 1, q, h);
    RivalsNone(hist, r + 1, q, h);
    hide Chain;
    assert Rivals(hist, r, r, h) == 0;
  }
}
