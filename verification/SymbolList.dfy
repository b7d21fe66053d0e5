/** The symbols that occur, listed with their counts, and sums over such lists, which sorting does not
    change. */
module SymbolList {
  import opened Bits
  import opened Canonical
  import opened Sums
  import opened Huffman
  import opened LimitCost
  import opened MinRedundancy
  import opened RadixSort

  function Collected(count: seq<nat>): seq<SymFreq> {
    if count == [] then []
    else
      var n := |count| - 1;
      var r := Collected(count[..n]);
      if count[n] > 0 then r + [SymFreq(count[n], n)] else r
  }

  lemma {:induction false} CollectedIs(count: seq<nat>)
    ensures |Collected(count)| <= |count|
    ensures forall x :: x in Collected(count) <==> x.sym < |count| && count[x.sym] == x.key > 0
    ensures forall i, j :: 0 <= i < j < |Collected(count)| ==> Collected(count)[i].sym < Collected(count)[j].sym
  {
    if count != [] {
      var n := |count| - 1;
      CollectedIs(count[..n]);
      var r := Collected(count[..n]);
      assert forall i :: 0 <= i < |r| ==> r[i] in r;
      assert forall x: SymFreq :: x.sym < n ==> count[..n][x.sym] == count[x.sym];
    }
  }

  // ---- Sums over a list

  function Total(b: seq<SymFreq>, f: SymFreq -> nat): nat {
    if b == [] then 0 else f(b[0]) + Total(b[1..], f)
  }

  lemma {:induction false} TotalAppend(a: seq<SymFreq>, b: seq<SymFreq>, f: SymFreq -> nat)
    ensures Total(a + b, f) == Total(a, f) + Total(b, f)
  {
    if a == [] {
      assert a + b == b;
    } else {
      TotalAppend(a[1..], b, f);
      assert (a + b)[1..] == a[1..] + b;
    }
  }

  lemma TotalPush(a: seq<SymFreq>, x: SymFreq, f: SymFreq -> nat)
    ensures Total(a + [x], f) == Total(a, f) + f(x)
  {
    TotalAppend(a, [x], f);
    assert [x][1..] == [];
  }

  /** Element `j` taken out. */
  lemma TotalRemove(b: seq<SymFreq>, j: nat, f: SymFreq -> nat)
    requires j < |b|
    ensures Total(b, f) == f(b[j]) + Total(b[..j] + b[j + 1..], f)
  {
    hide Total;
    assert b == b[..j] + [b[j]] + b[j + 1..];
    TotalPush(b[..j], b[j], f);
    TotalAppend(b[..j] + [b[j]], b[j + 1..], f);
    TotalAppend(b[..j], b[j + 1..], f);
  }

  lemma RemoveSame(a: seq<SymFreq>, b: seq<SymFreq>, j: nat)
    requires multiset(a) == multiset(b) && a != [] && j < |b| && b[j] == a[0]
    ensures multiset(a[1..]) == multiset(b[..j] + b[j + 1..])
  {
    assert a == [a[0]] + a[1..];
    assert b == b[..j] + [b[j]] + b[j + 1..];
    assert multiset(a[1..]) == multiset(a) - multiset{a[0]};
  }

  lemma {:induction false} TotalPermuted(a: seq<SymFreq>, b: seq<SymFreq>, f: SymFreq -> nat)
    requires multiset(a) == multiset(b)
    ensures Total(a, f) == Total(b, f)
  {
    assert |multiset(a)| == |multiset(b)|;
    if a != [] {
      assert a[0] in multiset(b);
      var j :| 0 <= j < |b| && b[j] == a[0];
      RemoveSame(a, b, j);
      TotalPermuted(a[1..], b[..j] + b[j + 1..], f);
      TotalRemove(b, j, f);
    }
  }

  function Weights(): SymFreq -> nat { (x: SymFreq) => x.key }

  /** What a symbol costs with the lengths `lens`. */
  function Prices(lens: seq<nat>): SymFreq -> nat {
    (x: SymFreq) => if x.sym < |lens| then x.key * lens[x.sym] else 0
  }

  /** The share of the words of length `m` that its code takes up. */
  function Portions(lens: seq<nat>, m: nat): SymFreq -> nat {
    (x: SymFreq) => if x.sym < |lens| then Share(m, lens[x.sym]) else 0
  }

  /** The lengths of the symbols listed. */
  function Picked(b: seq<SymFreq>, lens: seq<nat>): (r: seq<nat>)
    requires forall k :: 0 <= k < |b| ==> b[k].sym < |lens|
    ensures |r| == |b|
  {
    seq(|b|, k requires 0 <= k < |b| => lens[b[k].sym])
  }

  lemma {:induction false} KeysTotal(b: seq<SymFreq>)
    ensures Sum(Keys(b)) == Total(b, Weights())
  {
    if b != [] {
      KeysTotal(b[1..]);
      assert Keys(b)[1..] == Keys(b[1..]);
    }
  }

  lemma {:induction false} PickedTotal(b: seq<SymFreq>, lens: seq<nat>, m: nat)
    requires forall k :: 0 <= k < |b| ==> b[k].sym < |lens|
    ensures Cost(Keys(b), Picked(b, lens)) == Total(b, Prices(lens))
    ensures Shares(Picked(b, lens), m) == Total(b, Portions(lens, m))
  {
    hide Share;
    if b != [] {
      PickedTotal(b[1..], lens, m);
      assert Keys(b)[1..] == Keys(b[1..]) && Picked(b, lens)[1..] == Picked(b[1..], lens);
    }
  }

  lemma SharesPush(l: seq<nat>, x: nat, m: nat)
    ensures Shares(l + [x], m) == Shares(l, m) + Share(m, x)
  {
    hide Share;
    if l == [] {
      assert [] + [x] == [x] && [x][1..] == [];
    } else {
      SharesPush(l[1..], x, m);
      assert (l + [x])[1..] == l[1..] + [x];
    }
  }

  /** Summing over the symbols that occur is summing over all. */
  lemma {:induction false} CollectedTotal(count: seq<nat>, lens: seq<nat>, m: nat)
    requires |count| <= |lens|
    ensures Total(Collected(count), Weights()) == Sum(count)
    ensures Total(Collected(count), Prices(lens)) == Cost(count, lens[..|count|])
    ensures Total(Collected(count), Portions(lens, m)) <= Shares(lens[..|count|], m)
  {
    hide Share;
    if count != [] {
      var n := |count| - 1;
      var r, c, x := Collected(count[..n]), count[n], SymFreq(count[n], n);
      CollectedTotal(count[..n], lens, m);
      SumAppend(count[..n], [c]);
      SumOne(c);
      CostPush(count[..n], lens[..n], c, lens[n]);
      SharesPush(lens[..n], lens[n], m);
      TotalPush(r, x, Weights());
      TotalPush(r, x, Prices(lens));
      TotalPush(r, x, Portions(lens, m));
      assert count == count[..n] + [c] && lens[..n + 1] == lens[..n] + [lens[n]];
    }
  }

  lemma CostPush(w: seq<nat>, l: seq<nat>, x: nat, y: nat)
    requires |w| == |l|
    ensures Cost(w + [x], l + [y]) == Cost(w, l) + x * y
  {
    CostAppend(w, l, [x], [y]);
    assert [x][1..] == [] && [y][1..] == [];
  }

  // ---- Sorted lists

  /** No two entries name the same symbol. */
  ghost predicate DistinctSyms(s: seq<SymFreq>) {
    forall i, j :: 0 <= i < j < |s| ==> s[i].sym != s[j].sym
  }

  lemma DistinctPermuted(a: seq<SymFreq>, b: seq<SymFreq>, count: seq<nat>)
    requires a == Collected(count) && multiset(a) == multiset(b)
    ensures DistinctSyms(b)
    ensures forall x :: x in b <==> x.sym < |count| && count[x.sym] == x.key > 0
  {
    CollectedIs(count);
    forall x ensures x in b <==> x in a {
      assert x in multiset(b) <==> x in multiset(a);
    }
    forall i, j | 0 <= i < j < |b| ensures b[i].sym != b[j].sym {
      if b[i].sym == b[j].sym {
        assert b[i] in b && b[j] in b;
        assert b[i] == b[j];
        TwiceInMultiset(b, i, j);
        OnceInCollected(a, b[i]);
      }
    }
  }

  lemma TwiceInMultiset(s: seq<SymFreq>, i: nat, j: nat)
    requires i < j < |s| && s[i] == s[j]
    ensures multiset(s)[s[i]] >= 2
  {
    assert s == s[..i] + [s[i]] + s[i + 1..j] + [s[j]] + s[j + 1..];
  }

  lemma {:induction false} OnceInCollected(s: seq<SymFreq>, x: SymFreq)
    requires forall i, j :: 0 <= i < j < |s| ==> s[i].sym < s[j].sym
    ensures multiset(s)[x] <= 1
  {
    if s != [] {
      var n := |s| - 1;
      OnceInCollected(s[..n], x);
      assert s == s[..n] + [s[n]];
      forall i | 0 <= i < n ensures s[i] != s[n] {
        assert s[i].sym < s[n].sym;
      }
      assert s[n] !in s[..n];
      assert x !in s[..n] ==> multiset(s[..n])[x] == 0;
    }
  }

  lemma FrequenciesOf(b: seq<SymFreq>, count: seq<nat>)
    requires SortedKeys(b) && multiset(b) == multiset(Collected(count)) && Sum(count) <= 65535
    ensures Frequencies(Keys(b)) && Sum(Keys(b)) == Sum(count)
  {
    TotalPermuted(b, Collected(count), Weights());
    CollectedTotal(count, count, 0);
    KeysTotal(b);
    DistinctPermuted(Collected(count), b, count);
    forall i | 0 <= i < |b| ensures Keys(b)[i] >= 1 { assert b[i] in b; }
  }
}
