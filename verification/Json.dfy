/** The JSON walker of `frozen.c`: a recursive parser over a cursor that reports what it meets to a
    callback, together with the path to it in a buffer of 256 bytes. */
module Json {
  import opened Bits
  import opened Canonical
  import opened JsonGrammar
  import opened JsonForm
  import opened JsonPaths

  const END_OF_STRING: int := -1

  /** A routine that has read a value has moved the cursor behind it; one that has failed returns the error. */
  predicate Agrees<T>(r: int, cur: nat, read: Read<T>) {
    match read
    case Bad(code) => r == code < 0
    case Got(_, end) => r == 0 && cur == end
  }

  predicate Passes(r: int, cur: nat, read: Skip) {
    match read
    case Stuck(code) => r == code < 0
    case Past(end) => r == 0 && cur == end
  }

  // ---- What each routine reads, white space in front included

  function IdentifierAt(text: seq<byte>, i: nat): (r: Read<Value>)
    requires i <= |text|
  {
    var s := SkipSpace(text, i);
    if s < |text| && Alpha(text[s]) then ReadName(text, s) else Bad(INVALID)
  }

  function StringAt(text: seq<byte>, behind: byte, i: nat): (r: Read<Value>)
    requires i <= |text|
  {
    var q := Pass(text, i, QUOTE);
    if q.Stuck? then Bad(q.code) else ReadString(text, behind, q.end - 1)
  }

  function ArrayAt(text: seq<byte>, behind: byte, i: nat): (r: Read<Value>)
    requires i <= |text|
  {
    var b := Pass(text, i, 91);
    if b.Stuck? then Bad(b.code)
    else
      var r := ReadItems(text, behind, b.end);
      if r.Bad? then Bad(r.code) else Got(Arr(b.end - 1, r.end + 2 - b.end, r.value), r.end + 1)
  }

  function ObjectAt(text: seq<byte>, behind: byte, i: nat): (r: Read<Value>)
    requires i <= |text|
  {
    var b := Pass(text, i, 123);
    if b.Stuck? then Bad(b.code)
    else
      var r := ReadMembers(text, behind, b.end);
      if r.Bad? then Bad(r.code) else Got(Obj(b.end - 1, r.end + 2 - b.end, r.value), r.end + 1)
  }

  /** The first character of a value leads to the routine that reads it. */
  ghost predicate Led(text: seq<byte>, behind: byte, s: nat, r: Read<Value>)
    requires s <= |text|
  {
    && (Is(text, s, QUOTE) ==> r == StringAt(text, behind, s))
    && (Is(text, s, 123) ==> r == ObjectAt(text, behind, s))
    && (Is(text, s, 91) ==> r == ArrayAt(text, behind, s))
    && (Is(text, s, 110) ==> r == ReadWord(text, s, Null))
    && (Is(text, s, 116) ==> r == ReadWord(text, s, True))
    && (Is(text, s, 102) ==> r == ReadWord(text, s, False))
    && (s < |text| && (text[s] == 45 || Digit(text[s])) ==> r == ReadNumber(text, s))
    && (s < |text| && text[s] !in {QUOTE, 123, 91, 110, 116, 102, 45} && !Digit(text[s]) ==> r == Bad(INVALID))
    && (s == |text| ==> r == Bad(INCOMPLETE))
  }

  lemma ValueAt(text: seq<byte>, behind: byte, i: nat)
    requires i <= |text|
    ensures var s := SkipSpace(text, i); SkipSpace(text, s) == s && Led(text, behind, s, ReadValue(text, behind, i))
  {
    hide ReadValue, SkipSpace, Led;
    SpaceBefore(text, behind, i);
    ValueHere(text, behind, SkipSpace(text, i));
  }

  lemma ValueHere(text: seq<byte>, behind: byte, s: nat)
    requires s <= |text| && SkipSpace(text, s) == s
    ensures Led(text, behind, s, ReadValue(text, behind, s))
  {
    hide SkipSpace, ReadItems, ReadMembers, ReadNumber, ReadString, ReadWord;
    if s < |text| { PassHere(text, s, text[s]); }
    hide Pass;
  }

  // ---- Half-read containers

  /** After `i` items, reported by `done`, the array goes on at `at`; reading the rest gives `all`. */
  ghost predicate ItemsFrom(text: seq<byte>, behind: byte, at: nat, p: seq<byte>, i: nat, done: seq<Event>,
                            all: Read<Values>) {
    && at <= |text|
    && match ReadItems(text, behind, at)
       case Bad(code) => all == Bad(code)
       case Got(items, end) =>
         all.Got? && all.end == end && ItemEvents(text, all.value, p, 0) == done + ItemEvents(text, items, p, i)
  }

  lemma ItemsFirst(text: seq<byte>, behind: byte, at: nat, p: seq<byte>)
    requires at <= |text|
    ensures ItemsFrom(text, behind, SkipSpace(text, at), p, 0, [], ReadItems(text, behind, at))
  {
    ItemsSpace(text, behind, at);
  }

  lemma ItemsSpace(text: seq<byte>, behind: byte, at: nat)
    requires at <= |text|
    ensures ReadItems(text, behind, SkipSpace(text, at)) == ReadItems(text, behind, at)
  {
    SpaceBefore(text, behind, at);
    hide SkipSpace, ReadValue;
  }

  /** One more item. */
  lemma ItemsNext(text: seq<byte>, behind: byte, at: nat, p: seq<byte>, i: nat, done: seq<Event>, all: Read<Values>)
    requires ItemsFrom(text, behind, at, p, i, done, all) && SkipSpace(text, at) == at && !Is(text, at, 93)
    ensures
      var v := ReadValue(text, behind, at);
      if v.Bad? then all == Bad(v.code)
      else ItemsFrom(text, behind, SkipSpace(text, PassComma(text, v.end)), p, i + 1,
                     done + Events(text, v.value, Cut(p + IndexText(i))), all)
  {
    hide SkipSpace, ReadValue, Events, Cut, IndexText, PassComma;
    var one := ReadValue(text, behind, at);
    if one.Got? {
      ItemsSpace(text, behind, PassComma(text, one.end));
      var e := Events(text, one.value, Cut(p + IndexText(i)));
      var r := ReadItems(text, behind, PassComma(text, one.end));
      if r.Got? {
        assert done + (e + ItemEvents(text, r.value, p, i + 1)) == done + e + ItemEvents(text, r.value, p, i + 1);
      }
    }
  }

  lemma ItemsLast(text: seq<byte>, behind: byte, at: nat, p: seq<byte>, i: nat, done: seq<Event>, all: Read<Values>)
    requires ItemsFrom(text, behind, at, p, i, done, all) && SkipSpace(text, at) == at && Is(text, at, 93)
    ensures all.Got? && all.end == at && ItemEvents(text, all.value, p, 0) == done
  {
  }

  lemma ArrayWhole(text: seq<byte>, behind: byte, i: nat, p: seq<byte>)
    requires i <= |text|
    ensures
      var b, r := Pass(text, i, 91), ArrayAt(text, behind, i);
      if b.Stuck? then r == Bad(b.code)
      else
        var all := ReadItems(text, behind, b.end);
        if all.Bad? then r == Bad(all.code)
        else
          var len := all.end + 2 - b.end;
          && r.Got? && r.end == all.end + 1
          && Events(text, r.value, p) == Maybe(Event(ArrayStart, p, NoValue)) + ItemEvents(text, all.value, p, 0)
                                       + Maybe(Event(ArrayEnd, p, Span(b.end - 1, len)))
  {
    hide Pass, ReadItems, ItemEvents, Maybe;
  }

  /** The same for the members of an object whose path and dot are `q`. */
  ghost predicate MembersFrom(text: seq<byte>, behind: byte, at: nat, q: seq<byte>, done: seq<Event>,
                              all: Read<Members>) {
    && at <= |text|
    && match ReadMembers(text, behind, at)
       case Bad(code) => all == Bad(code)
       case Got(members, end) =>
         all.Got? && all.end == end && MemberEvents(text, all.value, q) == done + MemberEvents(text, members, q)
  }

  lemma MembersFirst(text: seq<byte>, behind: byte, at: nat, q: seq<byte>)
    requires at <= |text|
    ensures MembersFrom(text, behind, SkipSpace(text, at), q, [], ReadMembers(text, behind, at))
  {
    MembersSpace(text, behind, at);
  }

  lemma MembersSpace(text: seq<byte>, behind: byte, at: nat)
    requires at <= |text|
    ensures ReadMembers(text, behind, SkipSpace(text, at)) == ReadMembers(text, behind, at)
  {
    SpaceBefore(text, behind, at);
    hide SkipSpace, ReadPair;
  }

  lemma MembersNext(text: seq<byte>, behind: byte, at: nat, q: seq<byte>, done: seq<Event>, all: Read<Members>)
    requires MembersFrom(text, behind, at, q, done, all) && SkipSpace(text, at) == at && !Is(text, at, 125)
    ensures
      var m := ReadPair(text, behind, at);
      if m.Bad? then all == Bad(m.code)
      else MembersFrom(text, behind, SkipSpace(text, PassComma(text, m.end)), q,
                       done + PairEvents(text, m.value, q), all)
  {
    hide SkipSpace, ReadPair, PairEvents, PassComma;
    var one := ReadPair(text, behind, at);
    if one.Got? {
      MembersSpace(text, behind, PassComma(text, one.end));
      var e, r := PairEvents(text, one.value, q), ReadMembers(text, behind, PassComma(text, one.end));
      if r.Got? {
        assert done + (e + MemberEvents(text, r.value, q)) == done + e + MemberEvents(text, r.value, q);
      }
    }
  }

  lemma MembersLast(text: seq<byte>, behind: byte, at: nat, q: seq<byte>, done: seq<Event>, all: Read<Members>)
    requires MembersFrom(text, behind, at, q, done, all) && SkipSpace(text, at) == at && Is(text, at, 125)
    ensures all.Got? && all.end == at && MemberEvents(text, all.value, q) == done
  {
  }

  lemma ObjectWhole(text: seq<byte>, behind: byte, i: nat, p: seq<byte>)
    requires i <= |text|
    ensures
      var b, r := Pass(text, i, 123), ObjectAt(text, behind, i);
      if b.Stuck? then r == Bad(b.code)
      else
        var all := ReadMembers(text, behind, b.end);
        if all.Bad? then r == Bad(all.code)
        else
          var len := all.end + 2 - b.end;
          && r.Got? && r.end == all.end + 1
          && Events(text, r.value, p) == Maybe(Event(ObjectStart, p, NoValue))
                                       + MemberEvents(text, all.value, Cut(p + [DOT]))
                                       + Maybe(Event(ObjectEnd, p, Span(b.end - 1, len)))
  {
    hide Pass, ReadMembers, MemberEvents, Maybe, Cut;
  }

  lemma PairWhole(text: seq<byte>, behind: byte, i: nat, q: seq<byte>)
    requires i <= |text|
    ensures
      var k, r := ReadKey(text, behind, i), ReadPair(text, behind, i);
      if k.Bad? then r == Bad(k.code)
      else
        var c := Pass(text, k.end, COLON);
        if c.Stuck? then r == Bad(c.code)
        else
          var v := ReadValue(text, behind, c.end);
          if v.Bad? then r == Bad(v.code)
          else
            && r.Got? && r.end == v.end
            && PairEvents(text, r.value, q) == Events(text, k.value, q)
                 + Events(text, v.value, Cut(q + Piece(text, k.value.start, k.value.len)))
  {
    hide ReadKey, Pass, ReadValue, Events, Cut, Piece, Maybe;
    var k := ReadKey(text, behind, i);
    if k.Got? {
      KeyIsText(text, behind, i);
      KeyEvent(text, k.value, q);
    }
  }

  lemma KeyIsText(text: seq<byte>, behind: byte, i: nat)
    requires i <= |text| && ReadKey(text, behind, i).Got?
    ensures ReadKey(text, behind, i).value.Token? && ReadKey(text, behind, i).value.kind == Text
  {
    hide ReadChars, SkipName;
  }

  /** The path that a key adds is the key without its quotes, wherever the cursor passed it. */
  lemma KeyPiece(text: seq<byte>, behind: byte, i: nat)
    requires i <= |text| && ReadKey(text, behind, i).Got?
    ensures
      var tok, r := SkipSpace(text, i), ReadKey(text, behind, i);
      && tok < r.end <= |text|
      && Piece(text, r.value.start, r.value.len)
         == if text[tok] == QUOTE && r.end >= tok + 2 then text[tok + 1..r.end - 1] else text[tok..r.end]
  {
    hide ReadChars, SkipName;
  }

  class Walker {
    const text: seq<byte>
    const behind: byte
    var cur: nat
    const path: array<byte>
    var pathLen: nat
    var events: seq<Event>

    constructor (text: seq<byte>, behind: byte)
      ensures Valid() && this.text == text && this.behind == behind && cur == 0 && pathLen == 0 && events == []
      ensures fresh(path)
    {
      this.text, this.behind := text, behind;
      path := new byte[MAX_PATH](i => 0);
      cur, pathLen, events := 0, 0, [];
    }

    ghost predicate Valid()
      reads this, path
    {
      cur <= |text| && path.Length == MAX_PATH && pathLen < MAX_PATH && path[pathLen] == 0
    }

    /** The path as the callback sees it. */
    function Here(): (p: seq<byte>)
      reads this`pathLen, path
      requires pathLen <= path.Length
      ensures |p| == pathLen
    {
      path[..pathLen]
    }

    /** `CALL_BACK` */
    method CallBack(kind: Kind, at: Span)
      requires Valid()
      modifies this`events
      ensures events == old(events) + Maybe(Event(kind, Here(), at))
    {
      if pathLen == 0 || path[pathLen - 1] != DOT {
        events := events + [Event(kind, path[..pathLen], at)];
      }
    }

    /** `json_append_to_path`: as much of `s` as there is room for. */
    method Append(s: seq<byte>) returns (n: nat)
      requires Valid()
      modifies this`pathLen, path
      ensures Valid() && n == old(pathLen) && Here() == Cut(old(Here()) + s)
      ensures n <= pathLen && Here()[..n] == old(Here())
    {
      n := pathLen;
      var left := MAX_PATH - n - 1;
      var size := if |s| > left then left else |s|;
      ghost var was := Here();
      for i := 0 to size
        invariant pathLen == n && path[..n] == was && path[n..n + i] == s[..i]
      {
        path[n + i] := s[i];
        assert path[n..n + i + 1] == path[n..n + i] + [s[i]];
      }
      path[n + size] := 0;
      pathLen := pathLen + size;
      assert path[..pathLen] == path[..n] + path[n..n + size];
    }

    /** `json_truncate_path` */
    method Truncate(n: nat)
      requires Valid() && n <= pathLen
      modifies this`pathLen, path
      ensures Valid() && Here() == old(Here())[..n]
    {
      pathLen := n;
      path[n] := 0;
    }

    /** `json_cur`: skip white space and look at the next character. */
    method Cur() returns (ch: int)
      requires Valid()
      modifies this`cur
      ensures Valid() && cur == SkipSpace(text, old(cur))
      ensures ch == if cur < |text| then text[cur] as int else END_OF_STRING
    {
      while cur < |text| && Space(text[cur])
        invariant cur <= |text| && SkipSpace(text, cur) == SkipSpace(text, old(cur))
      {
        cur := cur + 1;
      }
      ch := if cur >= |text| then END_OF_STRING else text[cur];
    }

    /** `json_test_and_skip` */
    method TestAndSkip(expected: byte) returns (r: int)
      requires Valid()
      modifies this`cur
      ensures Valid() && Passes(r, cur, Pass(text, old(cur), expected))
    {
      var ch := Cur();
      if ch == expected as int {
        cur := cur + 1;
        return 0;
      }
      r := if ch == END_OF_STRING then INCOMPLETE else INVALID;
    }

    /** What a routine delivers that has read a token: its event. */
    ghost predicate Reported(r: int, read: Read<Value>, before: seq<Event>)
      reads this, path
    {
      && Valid() && Agrees(r, cur, read)
      && (read.Got? ==> events == before + Events(text, read.value, Here()))
    }

    /** `json_parse_identifier` */
    method ParseIdentifier() returns (r: int)
      requires Valid()
      modifies this`cur, this`events
      ensures Reported(r, IdentifierAt(text, old(cur)), old(events)) && Here() == old(Here())
    {
      var ch := Cur();
      if !Alpha(ch) {
        return INVALID;
      }
      var start := cur;
      while cur < |text| && NameChar(text[cur])
        invariant start <= cur <= |text| && Valid() && SkipName(text, cur) == SkipName(text, start)
        invariant events == old(events)
      {
        cur := cur + 1;
      }
      CallBack(Text, Span(start, cur - start));
      r := 0;
    }

    /** `json_parse_string` */
    method ParseString() returns (r: int)
      requires Valid()
      modifies this`cur, this`events
      ensures Reported(r, StringAt(text, behind, old(cur)), old(events)) && Here() == old(Here())
    {
      hide SkipSpace;
      r := TestAndSkip(QUOTE);
      if r < 0 {
        return;
      }
      var start := cur;
      while cur < |text|
        invariant start <= cur <= |text| && Valid() && events == old(events)
        invariant ReadChars(text, behind, cur) == ReadChars(text, behind, start)
      {
        var ch := text[cur];
        var len := CharLen(ch);
        if ch < 32 {
          return INVALID;
        }
        if len > |text| - cur {
          return INCOMPLETE;
        }
        if ch == 92 {
          var n := EscapeLen(text, behind, cur + 1, |text| - cur);
          if n <= 0 {
            return n;
          }
          len := len + n;
        } else if ch == QUOTE {
          CallBack(Text, Span(start, cur - start));
          cur := cur + 1;
          return 0;
        }
        cur := cur + len;
      }
      r := INCOMPLETE;
    }

    /** One digit or more. */
    method Digits(hex: bool) returns (r: int)
      requires Valid()
      modifies this`cur
      ensures Valid() && Passes(r, cur, ReadDigits(text, old(cur), hex))
    {
      if cur >= |text| {
        return INCOMPLETE;
      }
      if !DigitOf(hex, text[cur]) {
        return INVALID;
      }
      while cur < |text| && DigitOf(hex, text[cur])
        invariant cur <= |text| && SkipDigits(text, cur, hex) == SkipDigits(text, old(cur), hex)
      {
        cur := cur + 1;
      }
      r := 0;
    }

    method Fraction() returns (r: int)
      requires Valid()
      modifies this`cur
      ensures Valid() && Passes(r, cur, ReadFraction(text, old(cur)))
    {
      r := 0;
      if cur < |text| && text[cur] == DOT {
        cur := cur + 1;
        r := Digits(false);
      }
    }

    method ExponentPart() returns (r: int)
      requires Valid()
      modifies this`cur
      ensures Valid() && Passes(r, cur, ReadExponent(text, old(cur)))
    {
      r := 0;
      if cur < |text| && (text[cur] == 101 || text[cur] == 69) {
        cur := cur + 1;
        if cur >= |text| {
          return INCOMPLETE;
        }
        if text[cur] == 43 || text[cur] == 45 {
          cur := cur + 1;
        }
        r := Digits(false);
      }
    }

    /** A number after its sign. */
    method Amount() returns (r: int)
      requires Valid()
      modifies this`cur
      ensures Valid() && Passes(r, cur, ReadAmount(text, old(cur)))
    {
      hide ReadDigits, ReadFraction, ReadExponent;
      if cur + 1 < |text| && text[cur] == 48 && text[cur + 1] == 120 {
        cur := cur + 2;
        r := Digits(true);
        return;
      }
      r := Digits(false);
      if r == 0 {
        r := Fraction();
      }
      if r == 0 {
        r := ExponentPart();
      }
    }

    /** `json_parse_number` */
    method ParseNumber() returns (r: int)
      requires Valid()
      modifies this`cur, this`events
      ensures Reported(r, ReadNumber(text, SkipSpace(text, old(cur))), old(events)) && Here() == old(Here())
    {
      hide SkipSpace, ReadFraction, ReadExponent;
      var ch := Cur();
      var start := cur;
      if ch == 45 {
        cur := cur + 1;
      }
      if cur >= |text| {
        return INCOMPLETE;
      }
      hide ReadDigits, ReadAmount;
      r := Amount();
      if r == 0 {
        CallBack(Number, Span(start, cur - start));
      }
    }

    /** `json_expect` */
    method Expect(kind: Kind) returns (r: int)
      requires Valid() && kind in {True, False, Null}
      modifies this`cur, this`events
      ensures Reported(r, ReadWord(text, old(cur), kind), old(events)) && Here() == old(Here())
    {
      hide Word;
      var s, n := Word(kind), |text| - cur;
      for i := 0 to |s|
        invariant i <= n && Agreement(text, cur, s, i) == Agreement(text, cur, s, 0)
      {
        if i >= n {
          return INCOMPLETE;
        }
        if text[cur + i] != s[i] {
          return INVALID;
        }
      }
      var start := cur;
      cur := cur + |s|;
      CallBack(kind, Span(start, cur - start));
      r := 0;
    }

    /** What a routine delivers that has read a whole value: its events, with the path as it was. */
    ghost predicate Walked(r: int, read: Read<Value>, p: seq<byte>, before: seq<Event>)
      reads this, path
    {
      && Valid() && Agrees(r, cur, read)
      && (read.Got? ==> Here() == p && events == before + Events(text, read.value, p))
    }

    /** `json_parse_value` */
    method ParseValue() returns (r: int)
      requires Valid()
      modifies this`cur, this`pathLen, this`events, path
      ensures Walked(r, ReadValue(text, behind, old(cur)), old(Here()), old(events))
      decreases |text| - cur, 3
    {
      hide ReadValue, ReadNumber, StringAt, ArrayAt, ObjectAt, ReadWord, SkipSpace, Events;
      ValueAt(text, behind, cur);
      var ch := Cur();
      if ch == 34 {
        r := ParseString();
      } else if ch == 123 {
        r := ParseObject();
      } else if ch == 91 {
        r := ParseArray();
      } else if ch == 110 {
        r := Expect(Null);
      } else if ch == 116 {
        r := Expect(True);
      } else if ch == 102 {
        r := Expect(False);
      } else if ch == 45 || Digit(ch) {
        r := ParseNumber();
      } else {
        r := if ch == END_OF_STRING then INCOMPLETE else INVALID;
      }
    }

    /** `json_parse_key` */
    method ParseKey() returns (r: int)
      requires Valid()
      modifies this`cur, this`events
      ensures Reported(r, ReadKey(text, behind, old(cur)), old(events)) && Here() == old(Here())
    {
      hide ReadName, ReadString, SkipSpace, Events;
      SpaceBefore(text, behind, cur);
      var ch := Cur();
      if Alpha(ch) {
        r := ParseIdentifier();
      } else if ch == 34 {
        r := ParseString();
      } else {
        r := if ch == END_OF_STRING then INCOMPLETE else INVALID;
      }
    }

    /** What of a key goes into the path: without its quotes. */
    function KeyText(tok: nat): seq<byte>
      reads this`cur
      requires tok < cur <= |text|
    {
      if text[tok] == QUOTE && cur >= tok + 2 then text[tok + 1..cur - 1] else text[tok..cur]
    }

    /** `json_parse_pair` */
    method ParsePair() returns (r: int)
      requires Valid()
      modifies this`cur, this`pathLen, this`events, path
      ensures Valid() && Agrees(r, cur, ReadPair(text, behind, old(cur)))
      ensures r == 0 ==> Here() == old(Here())
      ensures r == 0 ==> events == old(events) + PairEvents(text, ReadPair(text, behind, old(cur)).value, old(Here()))
      decreases |text| - cur, 2
    {
      hide ReadPair, ReadKey, ReadValue, SkipSpace, Events, PairEvents, Cut, Pass, Piece, Maybe, Shown;
      ghost var from, before, q := cur, events, Here();
      SpaceBefore(text, behind, from);
      PairWhole(text, behind, from, q);
      var ch := Cur();
      var tok := cur;
      r := ParseKey();
      if r < 0 {
        return;
      }
      KeyPiece(text, behind, from);
      var n := Append(KeyText(tok));
      r := TestAndSkip(COLON);
      if r < 0 {
        return;
      }
      ghost var at := cur;
      r := ParseValue();
      if r < 0 {
        return;
      }
      Truncate(n);
      ghost var key := ReadKey(text, behind, from).value;
      ghost var value := Events(text, ReadValue(text, behind, at).value, Cut(q + Piece(text, key.start, key.len)));
      Assoc(before, Events(text, key, q), value);
    }

    /** `json_parse_array` */
    method ParseArray() returns (r: int)
      requires Valid()
      modifies this`cur, this`pathLen, this`events, path
      ensures Walked(r, ArrayAt(text, behind, old(cur)), old(Here()), old(events))
      decreases |text| - cur, 1
    {
      hide Passes;
      hide ArrayAt, ReadItems, ReadValue, Events, ItemEvents, SkipSpace, Cut, PassComma, IndexText;
      hide Pass, ItemsFrom, Maybe;
      ghost var p, before := Here(), events;
      ArrayWhole(text, behind, cur, p);
      CallBack(ArrayStart, NoValue);
      r := TestAndSkip(91);
      if r < 0 {
        return;
      }
      var start, top, i: nat := cur - 1, pathLen, 0;
      ghost var all, begun, done := ReadItems(text, behind, cur), events, [];
      ItemsFirst(text, behind, cur, p);
      var ch := Cur();
      while ch != 93
        invariant Valid() && Here() == p && SkipSpace(text, cur) == cur && start < cur
        invariant ch == if cur < |text| then text[cur] as int else END_OF_STRING
        invariant events == begun + done && ItemsFrom(text, behind, cur, p, i, done, all)
        decreases |text| - cur
      {
        ghost var at := cur;
        ItemsNext(text, behind, at, p, i, done, all);
        var n := Append(IndexText(i));
        r := ParseValue();
        if r < 0 {
          return;
        }
        Truncate(n);
        ghost var more := Events(text, ReadValue(text, behind, at).value, Cut(p + IndexText(i)));
        Assoc(begun, done, more);
        done := done + more;
        i := i + 1;
        ch := SkipComma();
      }
      ItemsLast(text, behind, cur, p, i, done, all);
      PassHere(text, cur, 93);
      r := TestAndSkip(93);
      assert p[..top] == p;
      Truncate(top);
      CallBack(ArrayEnd, Span(start, cur - start));
      AssocFour(before, Maybe(Event(ArrayStart, p, NoValue)), done,
                Maybe(Event(ArrayEnd, p, Span(start, cur - start))));
    }

    /** After an element: a comma is passed over, none is required. */
    method SkipComma() returns (ch: int)
      requires Valid()
      modifies this`cur
      ensures Valid() && cur == SkipSpace(text, PassComma(text, old(cur))) && SkipSpace(text, cur) == cur
      ensures ch == if cur < |text| then text[cur] as int else END_OF_STRING
    {
      hide SkipSpace;
      SpaceBefore(text, behind, cur);
      ch := Cur();
      if ch == 44 {
        cur := cur + 1;
      }
      SpaceBefore(text, behind, cur);
      ch := Cur();
    }

    /** `json_parse_object` */
    method ParseObject() returns (r: int)
      requires Valid()
      modifies this`cur, this`pathLen, this`events, path
      ensures Walked(r, ObjectAt(text, behind, old(cur)), old(Here()), old(events))
      decreases |text| - cur, 1
    {
      hide ObjectAt, ReadMembers, ReadPair, Events, MemberEvents, PairEvents, SkipSpace, Cut, PassComma, Pass, Maybe;
      hide MembersFrom;
      ghost var p, before := Here(), events;
      ObjectWhole(text, behind, cur, p);
      CallBack(ObjectStart, NoValue);
      r := TestAndSkip(123);
      if r < 0 {
        return;
      }
      var start, top: nat := cur - 1, pathLen;
      var n := Append([DOT]);
      ghost var q := Here();
      ghost var all, begun, done := ReadMembers(text, behind, cur), events, [];
      MembersFirst(text, behind, cur, q);
      var ch := Cur();
      while ch != 125
        invariant Valid() && Here() == q && SkipSpace(text, cur) == cur && start < cur
        invariant ch == if cur < |text| then text[cur] as int else END_OF_STRING
        invariant events == begun + done && MembersFrom(text, behind, cur, q, done, all)
        decreases |text| - cur
      {
        ghost var at := cur;
        MembersNext(text, behind, at, q, done, all);
        r := ParsePair();
        if r < 0 {
          return;
        }
        ghost var more := PairEvents(text, ReadPair(text, behind, at).value, q);
        Assoc(begun, done, more);
        done := done + more;
        ch := SkipComma();
      }
      MembersLast(text, behind, cur, q, done, all);
      PassHere(text, cur, 125);
      r := TestAndSkip(125);
      Truncate(top);
      CallBack(ObjectEnd, Span(start, cur - start));
      AssocFour(before, Maybe(Event(ObjectStart, p, NoValue)), done,
                Maybe(Event(ObjectEnd, p, Span(start, cur - start))));
    }
  }

  lemma PassHere(text: seq<byte>, i: nat, ch: byte)
    requires Is(text, i, ch) && SkipSpace(text, i) == i
    ensures Pass(text, i, ch) == Past(i + 1)
  {
  }

  lemma Assoc(a: seq<Event>, b: seq<Event>, c: seq<Event>)
    ensures (a + b) + c == a + (b + c)
  {
  }

  lemma AssocFour(a: seq<Event>, b: seq<Event>, c: seq<Event>, d: seq<Event>)
    ensures ((a + b) + c) + d == a + (b + c + d)
  {
  }

  /** A key is reported like any string. */
  lemma KeyEvent(text: seq<byte>, key: Value, q: seq<byte>)
    requires key.Token? && key.kind == Text
    ensures Events(text, key, q) == Maybe(Event(Text, q, Span(key.start, key.len)))
  {
  }

  /** `json_walk` on `length` characters of `s`, behind which a zero stands. It reads exactly what the grammar
      reads, and reports it by exactly the events of the value read, which are well nested. */
  method JsonWalk(s: Option<seq<byte>>, length: int) returns (r: int, events: seq<Event>)
    requires s.Some? ==> length <= |s.value|
    ensures s.None? || length < 0 ==> r == -1
    ensures s.Some? && length == 0 ==> r == -2
    ensures s.Some? && length > 0 ==>
      var text, behind := s.value[..length], if length < |s.value| then s.value[length] else 0;
      match ReadValue(text, behind, 0)
      case Bad(code) => r == code < 0 && forall hi: nat, v: Value :: !Written(text, 0, hi, v)
      case Got(v, end) =>
        && r == end > 0 && Written(text, 0, end, v) && events == Events(text, v, []) && WellNested(events)
        && forall place :: ValueIn(v, place).Some? ==> ReportedAt(text, v, place, events)
  {
    events := [];
    if s.None? || length < 0 {
      return INVALID, events;
    }
    if length == 0 {
      return INCOMPLETE, events;
    }
    var text, behind := s.value[..length], if length < |s.value| then s.value[length] else 0;
    hide Events, ReadValue, WellNested, Written, ReportedAt, ValueIn;
    var w := new Walker(text, behind);
    r := w.ParseValue();
    events := w.events;
    if r == 0 {
      ReportNested(text, behind);
      ReadIsWritten(text, behind, 0);
      AllReported(text, 0, w.cur, ReadValue(text, behind, 0).value);
      r := w.cur;
    } else {
      forall hi: nat, v: Value ensures !Written(text, 0, hi, v) { ReadExactly(text, behind, 0, hi, v); }
    }
  }
}
