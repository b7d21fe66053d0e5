/** Swapping, and `memset` and `memcpy` on arrays. */
module Arrays {
  function Swapped(s: seq<nat>, i: nat, k: nat): (r: seq<nat>)
    requires i < |s| && k < |s|
    ensures |r| == |s|
  {
    s[i := s[k]][k := s[i]]
  }

  method Fill(a: array<nat>, from: nat, to: nat, v: nat)
    requires from <= to <= a.Length
    modifies a
    ensures a[..] == old(a[..from]) + seq(to - from, i => v) + old(a[to..])
  {
    for i := from to to
      invariant a[..from] == old(a[..from]) && a[to..] == old(a[to..])
      invariant forall k :: from <= k < i ==> a[k] == v
    {
      a[i] := v;
    }
    assert a[from..to] == seq(to - from, i => v);
    assert a[..] == a[..from] + a[from..to] + a[to..];
  }

  /** The first `n` elements of `a` from `from` on become the first of `b`. */
  method CopyTo(a: array<nat>, from: nat, b: array<nat>, n: nat)
    requires a != b && from + n <= a.Length && n <= b.Length
    modifies b
    ensures b[..n] == a[from..from + n]
  {
    for i := 0 to n
      invariant b[..i] == a[from..from + i]
    {
      b[i] := a[from + i];
      assert b[..i + 1] == b[..i] + [a[from + i]];
    }
  }
}
