/** Sums of sequences. */
module Sums {
  function Sum(s: seq<nat>): nat {
    if s == [] then 0 else s[0] + Sum(s[1..])
  }

  lemma {:induction false} SumAppend(a: seq<nat>, b: seq<nat>)
    ensures Sum(a + b) == Sum(a) + Sum(b)
  {
    if a == [] {
      assert a + b == b;
    } else {
      SumAppend(a[1..], b);
      assert (a + b)[1..] == a[1..] + b;
    }
  }

  lemma SumDrop(s: seq<nat>, i: nat)
    requires i < |s|
    ensures Sum(s[i..]) == s[i] + Sum(s[i + 1..])
  {
    assert s[i..][1..] == s[i + 1..];
  }

  lemma SumOne(x: nat)
    ensures Sum([x]) == x
  {
    assert [x][1..] == [];
  }

  lemma SumTail(m: seq<nat>, x: nat, k: nat)
    requires k <= |m|
    ensures Sum((m + [x])[k..]) == Sum(m[k..]) + x
  {
    assert (m + [x])[k..] == m[k..] + [x];
    SumAppend(m[k..], [x]);
    SumOne(x);
  }

  lemma {:induction false} SumSplit(w: seq<nat>, i: nat)
    requires i <= |w|
    ensures Sum(w) == Sum(w[..i]) + Sum(w[i..])
  {
    assert w == w[..i] + w[i..];
    SumAppend(w[..i], w[i..]);
  }

  lemma SumElement(s: seq<nat>, i: nat)
    requires i < |s|
    ensures s[i] <= Sum(s)
  {
    SumSplit(s, i);
    SumDrop(s, i);
  }

  lemma {:induction false} SumZeros(s: seq<nat>)
    requires forall i :: 0 <= i < |s| ==> s[i] == 0
    ensures Sum(s) == 0
  {
    if s != [] { SumZeros(s[1..]); }
  }

  lemma {:induction false} SumChange(s: seq<nat>, i: nat, v: nat)
    requires i < |s|
    ensures Sum(s[i := v]) == Sum(s) - s[i] + v
  {
    if i == 0 {
      assert s[0 := v][1..] == s[1..];
    } else {
      SumChange(s[1..], i - 1, v);
      assert s[i := v][1..] == s[1..][i - 1 := v];
    }
  }
}
