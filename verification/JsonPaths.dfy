/** Where the values of a JSON text are reported: the path of every value, written out from the places of its
    containers, and the events that carry it. */
module JsonPaths {
  import opened Bits
  import opened Canonical
  import opened JsonGrammar
  import opened JsonForm

  // ---- Numbers in paths

  /** The number that a row of digits stands for, the first digit first. */
  function NumeralValue(d: seq<byte>): int {
    if d == [] then 0 else 10 * NumeralValue(d[..|d| - 1]) + d[|d| - 1] - 48
  }

  /** The decimal numeral of `n`: digits only, none too many. */
  ghost predicate Numeral(d: seq<byte>, n: nat) {
    && d != [] && (forall i :: 0 <= i < |d| ==> 48 <= d[i] <= 57)
    && (n > 0 ==> d[0] != 48) && (n == 0 ==> |d| == 1)
    && NumeralValue(d) == n
  }

  lemma {:induction false} DecimalIsNumeral(n: nat)
    ensures Numeral(Decimal(n), n)
  {
    if n < 10 {
      assert Decimal(n)[..0] == [];
    } else {
      DecimalIsNumeral(n / 10);
      assert Decimal(n)[..|Decimal(n)| - 1] == Decimal(n / 10);
    }
  }

  /** Different items have different numbers in their paths. */
  lemma IndexInjective(m: nat, n: nat)
    requires IndexText(m) == IndexText(n)
    ensures m == n
  {
    hide Decimal;
    DecimalIsNumeral(m);
    DecimalIsNumeral(n);
    assert Decimal(m) == IndexText(m)[1..|Decimal(m)| + 1] && Decimal(n) == IndexText(n)[1..|Decimal(n)| + 1];
  }

  /** Digits without leading zeros stand for a number above zero. */
  lemma {:induction false} NumeralPositive(d: seq<byte>)
    requires d != [] && (forall i :: 0 <= i < |d| ==> 48 <= d[i] <= 57) && d[0] != 48
    ensures NumeralValue(d) > 0
  {
    if |d| == 1 {
      assert d[..0] == [];
    } else {
      NumeralPositive(d[..|d| - 1]);
    }
  }

  lemma {:induction false} NumeralAtLeast(d: seq<byte>)
    requires forall i :: 0 <= i < |d| ==> 48 <= d[i] <= 57
    ensures NumeralValue(d) >= 0
  {
    if d != [] { NumeralAtLeast(d[..|d| - 1]); }
  }

  /** A number has one numeral. */
  lemma {:induction false} NumeralUnique(a: seq<byte>, b: seq<byte>, n: nat)
    requires Numeral(a, n) && Numeral(b, n)
    ensures a == b
    decreases n
  {
    var x, y := a[..|a| - 1], b[..|b| - 1];
    NumeralAtLeast(x);
    NumeralAtLeast(y);
    LastDigit(NumeralValue(x), a[|a| - 1] - 48, NumeralValue(y), b[|b| - 1] - 48);
    assert a == x + [a[|a| - 1]] && b == y + [b[|b| - 1]];
    if x == [] || y == [] {
      if x != [] { NumeralPositive(x); }
      if y != [] { NumeralPositive(y); }
    } else {
      NumeralPositive(x);
      NumeralUnique(x, y, NumeralValue(x));
    }
  }

  lemma LastDigit(x: int, c: int, y: int, d: int)
    requires 10 * x + c == 10 * y + d && 0 <= c < 10 && 0 <= d < 10
    ensures x == y && c == d
  {
  }

  // ---- Places and their paths

  /** A place within a value: the value itself, or a place within an item or the value of a member. */
  datatype Place = Whole | Item(k: nat, rest: Place) | Member(k: nat, rest: Place)

  function ItemAt(items: Values, k: nat): Option<Value> {
    match items
    case NoValues => None
    case Values(v, rest) => if k == 0 then Some(v) else ItemAt(rest, k - 1)
  }

  function MemberAt(members: Members, k: nat): Option<Pair> {
    match members
    case NoMembers => None
    case Members(m, rest) => if k == 0 then Some(m) else MemberAt(rest, k - 1)
  }

  /** The value at a place. */
  function ValueIn(v: Value, place: Place): Option<Value>
    decreases place
  {
    match place
    case Whole => Some(v)
    case Item(k, rest) =>
      if v.Arr? && ItemAt(v.items, k).Some? then ValueIn(ItemAt(v.items, k).value, rest) else None
    case Member(k, rest) =>
      if v.Obj? && MemberAt(v.members, k).Some? then ValueIn(MemberAt(v.members, k).value.value, rest) else None
  }

  /** `q` is `p` and `s`, as far as 255 characters reach. */
  ghost predicate Joined(p: seq<byte>, s: seq<byte>, q: seq<byte>) {
    q == if |p + s| <= 255 then p + s else (p + s)[..255]
  }

  /** `q` is the path to the value at `place`, where the path to the whole is `p`: an item adds its number in
      brackets, a member a dot and its key. */
  ghost predicate PathTo(text: seq<byte>, v: Value, place: Place, p: seq<byte>, q: seq<byte>)
    decreases place
  {
    match place
    case Whole => q == p
    case Item(k, rest) =>
      && v.Arr? && ItemAt(v.items, k).Some?
      && exists d, r :: Numeral(d, k) && Joined(p, [91] + d + [93], r)
                        && PathTo(text, ItemAt(v.items, k).value, rest, r, q)
    case Member(k, rest) =>
      && v.Obj? && MemberAt(v.members, k).Some?
      && var m := MemberAt(v.members, k).value;
         && m.start + m.len <= |text|
         && exists r :: Joined(p, [46] + text[m.start..m.start + m.len], r) && PathTo(text, m.value, rest, r, q)
  }

  /** There is one such path. */
  lemma {:induction false} PathUnique(text: seq<byte>, v: Value, place: Place, p: seq<byte>, q: seq<byte>,
                                      r: seq<byte>)
    requires PathTo(text, v, place, p, q) && PathTo(text, v, place, p, r)
    ensures q == r
    decreases place
  {
    match place
    case Whole =>
    case Item(k, rest) =>
      var one := ItemAt(v.items, k).value;
      var c, x :| Numeral(c, k) && Joined(p, [91] + c + [93], x) && PathTo(text, one, rest, x, q);
      var d, y :| Numeral(d, k) && Joined(p, [91] + d + [93], y) && PathTo(text, one, rest, y, r);
      NumeralUnique(c, d, k);
      PathUnique(text, one, rest, x, q, r);
    case Member(k, rest) =>
      var m := MemberAt(v.members, k).value;
      var x :| Joined(p, [46] + text[m.start..m.start + m.len], x) && PathTo(text, m.value, rest, x, q);
      PathUnique(text, m.value, rest, x, q, r);
  }

  // ---- Where events are

  /** The part of the events that is about one item. */
  lemma {:induction false} ItemSlice(text: seq<byte>, items: Values, p: seq<byte>, i: nat, k: nat)
    returns (pre: seq<Event>, post: seq<Event>)
    requires ItemAt(items, k).Some?
    ensures ItemEvents(text, items, p, i)
         == pre + Events(text, ItemAt(items, k).value, Cut(p + IndexText(i + k))) + post
  {
    hide Events, Cut, IndexText;
    var here := Events(text, items.first, Cut(p + IndexText(i)));
    if k == 0 {
      pre, post := [], ItemEvents(text, items.rest, p, i + 1);
      assert ItemEvents(text, items, p, i) == here + post;
      assert pre + here + post == here + post;
    } else {
      pre, post := ItemSlice(text, items.rest, p, i + 1, k - 1);
      Regroup(here, pre, Events(text, ItemAt(items, k).value, Cut(p + IndexText(i + k))), post);
      pre := here + pre;
    }
  }

  lemma Regroup(a: seq<Event>, b: seq<Event>, c: seq<Event>, d: seq<Event>)
    ensures a + (b + c + d) == (a + b) + c + d
  {
  }

  /** The part of the events that is about the value of one member. */
  lemma {:induction false} MemberSlice(text: seq<byte>, members: Members, q: seq<byte>, k: nat)
    returns (pre: seq<Event>, post: seq<Event>)
    requires MemberAt(members, k).Some?
    ensures
      var m := MemberAt(members, k).value;
      MemberEvents(text, members, q) == pre + Events(text, m.value, Cut(q + Piece(text, m.start, m.len))) + post
  {
    hide Events, Cut, Piece, Maybe;
    var m := members.first;
    var key := Maybe(Event(Text, q, Span(m.start, m.len)));
    var here := Events(text, m.value, Cut(q + Piece(text, m.start, m.len)));
    assert PairEvents(text, m, q) == key + here;
    if k == 0 {
      pre, post := key, MemberEvents(text, members.rest, q);
    } else {
      pre, post := MemberSlice(text, members.rest, q, k - 1);
      var one := MemberAt(members, k).value;
      Regroup(key + here, pre, Events(text, one.value, Cut(q + Piece(text, one.start, one.len))), post);
      pre := key + here + pre;
    }
  }

  lemma {:induction false} ItemInside(text: seq<byte>, lo: nat, hi: nat, items: Values, k: nat) returns (a: nat, b: nat)
    requires WrittenItems(text, lo, hi, items) && ItemAt(items, k).Some?
    ensures Written(text, a, b, ItemAt(items, k).value)
    decreases items
  {
    hide Written, GapForm;
    var e: nat, c: nat :|
      Written(text, lo, e, items.first) && GapForm(text, e, c) && WrittenItems(text, c, hi, items.rest);
    if k == 0 {
      a, b := lo, e;
    } else {
      a, b := ItemInside(text, c, hi, items.rest, k - 1);
    }
  }

  lemma {:induction false} MemberInside(text: seq<byte>, lo: nat, hi: nat, members: Members, k: nat)
    returns (a: nat, b: nat)
    requires WrittenMembers(text, lo, hi, members) && MemberAt(members, k).Some?
    ensures Written(text, a, b, MemberAt(members, k).value.value)
    ensures MemberAt(members, k).value.start + MemberAt(members, k).value.len <= |text|
    decreases members
  {
    hide Written, WrittenMembers, KeyForm;
    var n, e, c := MembersParts(text, lo, hi, members);
    if k == 0 {
      a, b := n, e;
    } else {
      a, b := MemberInside(text, c, hi, members.rest, k - 1);
    }
  }

  lemma MembersParts(text: seq<byte>, lo: nat, hi: nat, members: Members) returns (n: nat, e: nat, c: nat)
    requires WrittenMembers(text, lo, hi, members) && members.Members?
    ensures members.first.start + members.first.len <= |text|
    ensures Written(text, n, e, members.first.value) && WrittenMembers(text, c, hi, members.rest)
  {
    hide Written, GapForm, ColonForm, KeyForm;
    var m, rest := members.first, members.rest;
    var x: nat;
    x, n, e, c :| KeyForm(text, lo, x, m.start, m.len) && ColonForm(text, x, n)
                  && Written(text, n, e, m.value) && GapForm(text, e, c) && WrittenMembers(text, c, hi, rest);
    KeyInside(text, lo, x, m.start, m.len);
  }

  lemma KeyInside(text: seq<byte>, lo: nat, hi: nat, start: nat, len: nat)
    requires KeyForm(text, lo, hi, start, len)
    ensures start + len <= |text|
  {
    hide CharsForm;
  }

  lemma CutJoins(p: seq<byte>, s: seq<byte>)
    ensures Joined(p, s, Cut(p + s)) && |Cut(p + s)| <= 255
  {
  }

  /** Cutting off at every step is cutting off once. */
  lemma CutTwice(p: seq<byte>, s: seq<byte>, t: seq<byte>)
    requires |p| <= 255
    ensures Cut(Cut(p + s) + t) == Cut(p + (s + t))
  {
    assert p + s + t == p + (s + t);
  }

  /** An item is reported within its array. */
  lemma OneItem(text: seq<byte>, v: Value, p: seq<byte>, k: nat) returns (pre: seq<Event>, post: seq<Event>)
    requires v.Arr? && ItemAt(v.items, k).Some?
    ensures Events(text, v, p) == pre + Events(text, ItemAt(v.items, k).value, Cut(p + IndexText(k))) + post
  {
    hide Cut, IndexText, Maybe, ItemEvents;
    var x, y := ItemSlice(text, v.items, p, 0, k);
    var start, end := Maybe(Event(ArrayStart, p, NoValue)), Maybe(Event(ArrayEnd, p, Span(v.start, v.len)));
    Around(start, x, Events(text, ItemAt(v.items, k).value, Cut(p + IndexText(k))), y, end);
    pre, post := start + x, y + end;
  }

  /** The value of a member is reported within its object. */
  lemma OneMember(text: seq<byte>, v: Value, p: seq<byte>, k: nat) returns (pre: seq<Event>, post: seq<Event>)
    requires v.Obj? && MemberAt(v.members, k).Some? && |p| <= 255
    requires MemberAt(v.members, k).value.start + MemberAt(v.members, k).value.len <= |text|
    ensures
      var m := MemberAt(v.members, k).value;
      Events(text, v, p) == pre + Events(text, m.value, Cut(p + ([46] + text[m.start..m.start + m.len]))) + post
  {
    hide Cut, Maybe, MemberEvents, Piece;
    var m := MemberAt(v.members, k).value;
    var x, y := MemberSlice(text, v.members, Cut(p + [DOT]), k);
    PieceIs(text, m.start, m.len);
    CutTwice(p, [46], text[m.start..m.start + m.len]);
    var start, end := Maybe(Event(ObjectStart, p, NoValue)), Maybe(Event(ObjectEnd, p, Span(v.start, v.len)));
    Around(start, x, Events(text, m.value, Cut(p + ([46] + text[m.start..m.start + m.len]))), y, end);
    pre, post := start + x, y + end;
  }

  /** What reports the value at a place is a part of what reports the whole, with the path to the place. */
  lemma {:induction false} PartReported(text: seq<byte>, lo: nat, hi: nat, v: Value, place: Place, p: seq<byte>)
    returns (pre: seq<Event>, q: seq<byte>, post: seq<Event>)
    requires Written(text, lo, hi, v) && ValueIn(v, place).Some? && |p| <= 255
    ensures PathTo(text, v, place, p, q)
    ensures Events(text, v, p) == pre + Events(text, ValueIn(v, place).value, q) + post
    decreases place
  {
    hide Cut, IndexText, Events, WrittenItems, WrittenMembers;
    match place
    case Whole =>
      pre, q, post := [], p, [];
    case Item(k, rest) =>
      var one, r := ItemAt(v.items, k).value, Cut(p + IndexText(k));
      var a, b := ItemInside(text, v.start + 1, hi - 1, v.items, k);
      var x, y := OneItem(text, v, p, k);
      CutJoins(p, IndexText(k));
      IndexIs(k);
      pre, q, post := PartReported(text, a, b, one, rest, r);
      Around(x, pre, Events(text, ValueIn(v, place).value, q), post, y);
      pre, post := x + pre, post + y;
    case Member(k, rest) =>
      var m := MemberAt(v.members, k).value;
      var a, b := MemberInside(text, v.start + 1, hi - 1, v.members, k);
      var x, y := OneMember(text, v, p, k);
      var key := text[m.start..m.start + m.len];
      CutJoins(p, [46] + key);
      pre, q, post := PartReported(text, a, b, m.value, rest, Cut(p + ([46] + key)));
      Around(x, pre, Events(text, ValueIn(v, place).value, q), post, y);
      pre, post := x + pre, post + y;
  }

  lemma IndexIs(k: nat)
    ensures Numeral(Decimal(k), k) && IndexText(k) == [91] + Decimal(k) + [93]
  {
    DecimalIsNumeral(k);
    hide Decimal;
  }

  lemma PieceIs(text: seq<byte>, start: nat, len: nat)
    requires start + len <= |text|
    ensures Piece(text, start, len) == text[start..start + len]
  {
  }

  lemma Around(a: seq<Event>, b: seq<Event>, c: seq<Event>, d: seq<Event>, e: seq<Event>)
    ensures a + (b + c + d) + e == (a + b) + c + (d + e)
  {
  }

  /** An event is passed over where its path ends in a dot. */
  ghost predicate Passed(q: seq<byte>) { q != [] && q[|q| - 1] == 46 }

  /** Among `events` are those that report `v` with path `q`: one for a scalar, a start and an end for a container. */
  ghost predicate Announced(v: Value, q: seq<byte>, events: seq<Event>) {
    match v
    case Token(kind, start, len) => Event(kind, q, Span(start, len)) in events
    case Arr(start, len, _) =>
      Event(ArrayStart, q, NoValue) in events && Event(ArrayEnd, q, Span(start, len)) in events
    case Obj(start, len, _) =>
      Event(ObjectStart, q, NoValue) in events && Event(ObjectEnd, q, Span(start, len)) in events
  }

  /** The value at `place` is reported with its path. */
  ghost predicate ReportedAt(text: seq<byte>, v: Value, place: Place, events: seq<Event>)
    requires ValueIn(v, place).Some?
  {
    exists q :: PathTo(text, v, place, [], q) && (Passed(q) || Announced(ValueIn(v, place).value, q, events))
  }

  /** Every value of a text is reported with its path. */
  lemma AllReported(text: seq<byte>, lo: nat, hi: nat, v: Value)
    requires Written(text, lo, hi, v)
    ensures forall place :: ValueIn(v, place).Some? ==> ReportedAt(text, v, place, Events(text, v, []))
  {
    forall place | ValueIn(v, place).Some? ensures ReportedAt(text, v, place, Events(text, v, [])) {
      hide Events, PathTo;
      var pre, q, post := PartReported(text, lo, hi, v, place, []);
      if !Passed(q) { OwnEvents(text, ValueIn(v, place).value, q, pre, post); }
    }
  }

  lemma OwnEvents(text: seq<byte>, v: Value, q: seq<byte>, pre: seq<Event>, post: seq<Event>)
    requires !Passed(q)
    ensures Announced(v, q, pre + Events(text, v, q) + post)
  {
    var own := Events(text, v, q);
    assert forall e :: e in own ==> e in pre + own + post;
    hide ItemEvents, MemberEvents;
  }
}
