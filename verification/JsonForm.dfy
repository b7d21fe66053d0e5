/** What the events of a JSON text are worth. A value read is written in the text in a form described without
    reading (`Written`), and every value so written is read. Its events are well nested: each end meets its
    own start, with the same path, and all between carry paths that begin with that path. */
module JsonForm {
  import opened Bits
  import opened Canonical
  import opened JsonGrammar

  // ---- How a value is written

  predicate White(text: seq<byte>, lo: nat, hi: nat) {
    lo <= hi <= |text| && forall k :: lo <= k < hi ==> text[k] in {9, 10, 13, 32}
  }

  /** A decimal or, where `hex` is set, a hexadecimal digit. */
  predicate DigitForm(hex: bool, c: byte) { 48 <= c <= 57 || (hex && (65 <= c <= 70 || 97 <= c <= 102)) }

  /** All digits there are from `lo` on, at least one. */
  predicate AllDigits(text: seq<byte>, lo: nat, hi: nat, hex: bool) {
    && lo < hi <= |text| && (forall k :: lo <= k < hi ==> DigitForm(hex, text[k]))
    && (hi < |text| ==> !DigitForm(hex, text[hi]))
  }

  /** One of two characters stands at `i`. */
  predicate OneOf(text: seq<byte>, i: nat, x: byte, y: byte) { i < |text| && text[i] in {x, y} }

  predicate FractionForm(text: seq<byte>, lo: nat, hi: nat) {
    if OneOf(text, lo, 46, 46) then AllDigits(text, lo + 1, hi, false) else hi == lo
  }

  predicate ExponentForm(text: seq<byte>, lo: nat, hi: nat) {
    if OneOf(text, lo, 69, 101) then AllDigits(text, if OneOf(text, lo + 1, 43, 45) then lo + 2 else lo + 1, hi, false)
    else hi == lo
  }

  /** An optional minus, then hexadecimal digits after `0x`, or digits, fraction and exponent. */
  ghost predicate NumberForm(text: seq<byte>, lo: nat, hi: nat) {
    var d := if OneOf(text, lo, 45, 45) then lo + 1 else lo;
    if OneOf(text, d, 48, 48) && OneOf(text, d + 1, 120, 120) then AllDigits(text, d + 2, hi, true)
    else exists a: nat, b: nat ::
           AllDigits(text, d, a, false) && FractionForm(text, a, b) && ExponentForm(text, b, hi)
  }

  /** A character of a string, `n` bytes long: an escape of one letter, an escape of `u` and four hexadecimal
      digits, or a character in UTF-8 that is neither quote nor control. */
  predicate CharForm(text: seq<byte>, i: nat, n: nat) {
    && i + n <= |text| && n > 0
    && if text[i] == 92 then
         || (n == 2 && text[i + 1] in {34, 47, 92, 98, 102, 110, 114, 116})
         || (n == 6 && text[i + 1] == 117 && forall k :: i + 2 <= k < i + 6 ==> DigitForm(true, text[k]))
       else
         && text[i] >= 32 && text[i] != 34
         && n == if text[i] < 128 then 1 else if text[i] < 224 then 2 else if text[i] < 240 then 3 else 4
  }

  ghost predicate CharsForm(text: seq<byte>, lo: nat, hi: nat)
    decreases hi - lo
  {
    lo <= hi <= |text| &&
    (lo < hi ==> exists n: nat :: CharForm(text, lo, n) && lo + n <= hi && CharsForm(text, lo + n, hi))
  }

  ghost predicate StringForm(text: seq<byte>, lo: nat, start: nat, len: nat) {
    && start > lo && White(text, lo, start - 1) && Is(text, start - 1, 34)
    && CharsForm(text, start, start + len) && Is(text, start + len, 34)
  }

  predicate LetterForm(c: byte) { 65 <= c <= 90 || 97 <= c <= 122 }

  /** A name stands by itself: it takes in all letters, digits and underscores there are. */
  predicate NameForm(text: seq<byte>, lo: nat, start: nat, len: nat) {
    && White(text, lo, start) && start + len <= |text| && len > 0 && LetterForm(text[start])
    && (forall k :: start <= k < start + len ==> LetterForm(text[k]) || 48 <= text[k] <= 57 || text[k] == 95)
    && (start + len < |text| ==>
          var c := text[start + len]; !LetterForm(c) && !(48 <= c <= 57) && c != 95)
  }

  /** A key between `lo` and `hi`. */
  ghost predicate KeyForm(text: seq<byte>, lo: nat, hi: nat, start: nat, len: nat) {
    || (NameForm(text, lo, start, len) && hi == start + len)
    || (StringForm(text, lo, start, len) && hi == start + len + 1)
  }

  /** A colon, after white space. */
  predicate ColonForm(text: seq<byte>, lo: nat, hi: nat) {
    lo < hi <= |text| && White(text, lo, hi - 1) && text[hi - 1] == 58
  }

  /** Between values: white space and at most one comma. */
  predicate GapForm(text: seq<byte>, lo: nat, hi: nat) {
    || (lo < hi <= |text| && White(text, lo, hi - 1) && text[hi - 1] == 44)
    || (White(text, lo, hi) && (hi < |text| ==> text[hi] !in {9, 10, 13, 32, 44}))
  }

  /** A string, a number, or one of three words. */
  ghost predicate TokenForm(text: seq<byte>, lo: nat, hi: nat, kind: Kind, start: nat, len: nat) {
    if kind == Text then StringForm(text, lo, start, len) && hi == start + len + 1
    else
      && White(text, lo, start) && hi == start + len <= |text|
      && match kind
         case Number => len > 0 && (text[start] == 45 || 48 <= text[start] <= 57) && NumberForm(text, start, hi)
         case True => text[start..hi] == [116, 114, 117, 101]
         case False => text[start..hi] == [102, 97, 108, 115, 101]
         case Null => text[start..hi] == [110, 117, 108, 108]
         case _ => false
  }

  /** The characters from `lo` to `hi` are white space and the value `v`. */
  ghost predicate Written(text: seq<byte>, lo: nat, hi: nat, v: Value)
    decreases v
  {
    match v
    case Token(kind, start, len) => TokenForm(text, lo, hi, kind, start, len)
    case Arr(start, len, items) =>
      && White(text, lo, start) && hi == start + len <= |text| && len >= 2
      && text[start] == 91 && text[hi - 1] == 93 && WrittenItems(text, start + 1, hi - 1, items)
    case Obj(start, len, members) =>
      && White(text, lo, start) && hi == start + len <= |text| && len >= 2
      && text[start] == 123 && text[hi - 1] == 125 && WrittenMembers(text, start + 1, hi - 1, members)
  }

  ghost predicate WrittenItems(text: seq<byte>, lo: nat, hi: nat, items: Values)
    decreases items
  {
    match items
    case NoValues => White(text, lo, hi)
    case Values(v, rest) =>
      exists e: nat, c: nat ::
        Written(text, lo, e, v) && GapForm(text, e, c) && WrittenItems(text, c, hi, rest)
  }

  ghost predicate WrittenMembers(text: seq<byte>, lo: nat, hi: nat, members: Members)
    decreases members
  {
    match members
    case NoMembers => White(text, lo, hi)
    case Members(m, rest) =>
      exists k: nat, n: nat, e: nat, c: nat ::
        && KeyForm(text, lo, k, m.start, m.len) && ColonForm(text, k, n)
        && Written(text, n, e, m.value) && GapForm(text, e, c) && WrittenMembers(text, c, hi, rest)
  }

  // ---- What is read is so written

  lemma SkipIsWhite(text: seq<byte>, i: nat)
    requires i <= |text|
    ensures White(text, i, SkipSpace(text, i))
  {
  }

  /** White space up to something else is skipped, and no more. */
  lemma WhiteIsSkipped(text: seq<byte>, lo: nat, hi: nat)
    requires White(text, lo, hi) && (hi < |text| ==> !Space(text[hi]))
    ensures SkipSpace(text, lo) == hi
  {
    var j := SkipSpace(text, lo);
    if j < hi { assert false; }
    if hi < j { assert false; }
  }

  lemma DigitsForm(text: seq<byte>, i: nat, hex: bool, hi: nat)
    requires i <= |text|
    ensures AllDigits(text, i, hi, hex) <==> ReadDigits(text, i, hex) == Past(hi)
  {
    if AllDigits(text, i, hi, hex) {
      var j := SkipDigits(text, i, hex);
      if j < hi { assert false; }
      if hi < j { assert false; }
    }
  }

  lemma NumberWritten(text: seq<byte>, i: nat, hi: nat)
    requires i <= |text| && i <= hi
    ensures NumberForm(text, i, hi) <==> ReadNumber(text, i) == Got(Token(Number, i, hi - i), hi)
  {
    var d := AfterMinus(text, i);
    if Hex(text, d) {
      DigitsForm(text, d + 2, true, hi);
    } else {
      DecimalWritten(text, d, hi);
    }
    hide AllDigits, FractionForm, ExponentForm, ReadDigits, ReadFraction, ReadExponent;
  }

  lemma DecimalWritten(text: seq<byte>, d: nat, hi: nat)
    requires d <= |text| && !Hex(text, d)
    ensures (exists a: nat, b: nat ::
               AllDigits(text, d, a, false) && FractionForm(text, a, b) && ExponentForm(text, b, hi))
            <==> ReadAmount(text, d) == Past(hi)
  {
    hide FractionForm, ExponentForm, AllDigits, ReadDigits, ReadFraction, ReadExponent;
    if a: nat, b: nat :| AllDigits(text, d, a, false) && FractionForm(text, a, b) && ExponentForm(text, b, hi) {
      DigitsForm(text, d, false, a);
      FractionWritten(text, a, b);
      ExponentWritten(text, b, hi);
    }
    var whole := ReadDigits(text, d, false);
    if whole.Past? && ReadFraction(text, whole.end).Past? {
      DigitsForm(text, d, false, whole.end);
      FractionWritten(text, whole.end, ReadFraction(text, whole.end).end);
      ExponentWritten(text, ReadFraction(text, whole.end).end, hi);
    }
  }

  lemma FractionWritten(text: seq<byte>, a: nat, b: nat)
    requires a <= |text|
    ensures FractionForm(text, a, b) <==> ReadFraction(text, a) == Past(b)
  {
    if Is(text, a, DOT) { DigitsForm(text, a + 1, false, b); }
  }

  lemma ExponentWritten(text: seq<byte>, a: nat, b: nat)
    requires a <= |text|
    ensures ExponentForm(text, a, b) <==> ReadExponent(text, a) == Past(b)
  {
    if Exponent(text, a) { DigitsForm(text, if Sign(text, a + 1) then a + 2 else a + 1, false, b); }
  }

  lemma {:induction false} CharsWritten(text: seq<byte>, behind: byte, i: nat, hi: nat)
    requires i <= |text|
    ensures CharsForm(text, i, hi) && Is(text, hi, QUOTE) <==> ReadChars(text, behind, i) == Past(hi)
    decreases |text| - i
  {
    if i < |text| && text[i] != QUOTE {
      var n := if text[i] == 92 then 1 + EscapeLen(text, behind, i + 1, |text| - i) else CharLen(text[i]);
      assert forall m: nat :: CharForm(text, i, m) ==> m == n;
      if n > 0 && i + n <= |text| && text[i] >= 32 {
        CharsWritten(text, behind, i + n, hi);
        assert CharForm(text, i, n);
      }
    }
  }

  lemma ReadFromQuote(text: seq<byte>, behind: byte, start: nat, len: nat)
    requires start > 0 && Is(text, start - 1, QUOTE)
    ensures ReadString(text, behind, start - 1) == Got(Token(Text, start, len), start + len + 1)
       <==> ReadChars(text, behind, start) == Past(start + len)
  {
    hide ReadChars;
  }

  lemma StringStart(text: seq<byte>, lo: nat, start: nat, len: nat)
    requires StringForm(text, lo, start, len)
    ensures start > lo && Is(text, start - 1, QUOTE) && start + len < |text|
  {
    hide CharsForm;
  }

  lemma StringWritten(text: seq<byte>, behind: byte, lo: nat, start: nat, len: nat)
    requires lo <= |text| && start > 0
    ensures StringForm(text, lo, start, len) <==>
            SkipSpace(text, lo) == start - 1 && Is(text, start - 1, QUOTE)
            && ReadString(text, behind, start - 1) == Got(Token(Text, start, len), start + len + 1)
  {
    SkipIsWhite(text, lo);
    if Is(text, start - 1, QUOTE) {
      CharsWritten(text, behind, start, start + len);
      if White(text, lo, start - 1) { WhiteIsSkipped(text, lo, start - 1); }
      ReadFromQuote(text, behind, start, len);
    }
  }

  lemma NameWritten(text: seq<byte>, lo: nat, start: nat, len: nat)
    requires lo <= |text|
    ensures NameForm(text, lo, start, len) <==>
            SkipSpace(text, lo) == start < |text| && Alpha(text[start])
            && ReadName(text, start) == Got(Token(Text, start, len), start + len)
  {
    if NameForm(text, lo, start, len) {
      WhiteIsSkipped(text, lo, start);
      var j := SkipName(text, start);
      if j < start + len { assert false; }
      if start + len < j { assert false; }
    }
  }

  lemma KeyWritten(text: seq<byte>, behind: byte, lo: nat, hi: nat, start: nat, len: nat)
    requires lo <= |text|
    ensures KeyForm(text, lo, hi, start, len) <==> ReadKey(text, behind, lo) == Got(Token(Text, start, len), hi)
  {
    NameWritten(text, lo, start, len);
    if start > 0 { StringWritten(text, behind, lo, start, len); }
    hide StringForm, NameForm, ReadString, ReadName;
  }

  lemma ColonWritten(text: seq<byte>, lo: nat, hi: nat)
    requires lo <= |text|
    ensures ColonForm(text, lo, hi) <==> Pass(text, lo, COLON) == Past(hi)
  {
    if ColonForm(text, lo, hi) { WhiteIsSkipped(text, lo, hi - 1); }
  }

  lemma GapWritten(text: seq<byte>, lo: nat, hi: nat)
    requires lo <= |text|
    ensures GapForm(text, lo, hi) <==> PassComma(text, lo) == hi
  {
    if GapForm(text, lo, hi) {
      if White(text, lo, hi) && (hi < |text| ==> !Space(text[hi]) && text[hi] != COMMA) {
        WhiteIsSkipped(text, lo, hi);
      } else {
        WhiteIsSkipped(text, lo, hi - 1);
      }
    }
  }

  lemma WordWritten(text: seq<byte>, i: nat, kind: Kind)
    requires i <= |text|
    ensures i + |Word(kind)| <= |text| && text[i..i + |Word(kind)|] == Word(kind) <==>
            ReadWord(text, i, kind) == Got(Token(kind, i, |Word(kind)|), i + |Word(kind)|)
  {
    var n := Agreement(text, i, Word(kind), 0);
  }

  /** White space in front makes no difference. */
  lemma SpaceBefore(text: seq<byte>, behind: byte, i: nat)
    requires i <= |text|
    ensures SkipSpace(text, SkipSpace(text, i)) == SkipSpace(text, i)
    ensures ReadValue(text, behind, SkipSpace(text, i)) == ReadValue(text, behind, i)
    ensures ReadKey(text, behind, SkipSpace(text, i)) == ReadKey(text, behind, i)
  {
    WhiteIsSkipped(text, SkipSpace(text, i), SkipSpace(text, i));
    hide SkipSpace, ReadItems, ReadMembers, ReadNumber, ReadString, ReadWord, ReadName;
  }

  /** A container is read from its opening bracket on. */
  lemma ReadContainer(text: seq<byte>, behind: byte, lo: nat)
    requires lo <= |text|
    ensures
      var s, r := SkipSpace(text, lo), ReadValue(text, behind, lo);
      && (Is(text, s, 91) ==> r == match ReadItems(text, behind, s + 1)
                                   case Bad(code) => Bad(code)
                                   case Got(items, end) => Got(Arr(s, end + 1 - s, items), end + 1))
      && (Is(text, s, 123) ==> r == match ReadMembers(text, behind, s + 1)
                                    case Bad(code) => Bad(code)
                                    case Got(members, end) => Got(Obj(s, end + 1 - s, members), end + 1))
      && (r.Got? && !Is(text, s, 91) && !Is(text, s, 123) ==> r.value.Token?)
  {
    hide SkipSpace, ReadItems, ReadMembers, ReadNumber, ReadChars, Agreement, SkipName;
    if ReadNumber(text, SkipSpace(text, lo)).Got? { NumberToken(text, SkipSpace(text, lo)); }
  }

  /** The first character decides what is read. */
  lemma ReadToken(text: seq<byte>, behind: byte, lo: nat)
    requires lo <= |text|
    ensures
      var s, r := SkipSpace(text, lo), ReadValue(text, behind, lo);
      && (Is(text, s, QUOTE) ==> r == ReadString(text, behind, s))
      && (Is(text, s, 110) ==> r == ReadWord(text, s, Null))
      && (Is(text, s, 116) ==> r == ReadWord(text, s, True))
      && (Is(text, s, 102) ==> r == ReadWord(text, s, False))
      && (s < |text| && (text[s] == 45 || Digit(text[s])) ==> r == ReadNumber(text, s))
      && (r.Got? && r.value.Token? ==> s < |text| && (text[s] in {QUOTE, 110, 116, 102, 45} || Digit(text[s])))
  {
    hide SkipSpace, ReadItems, ReadMembers, ReadNumber, ReadString, ReadWord;
  }

  lemma NumberToken(text: seq<byte>, i: nat)
    requires i <= |text| && ReadNumber(text, i).Got?
    ensures ReadNumber(text, i).value == Token(Number, i, ReadNumber(text, i).end - i)
  {
  }

  // ---- Reading finds what is written

  lemma TokenRead(text: seq<byte>, behind: byte, lo: nat, hi: nat, kind: Kind, start: nat, len: nat)
    requires lo <= |text| && TokenForm(text, lo, hi, kind, start, len)
    ensures ReadValue(text, behind, lo) == Got(Token(kind, start, len), hi) && hi <= |text|
    ensures lo < hi && !Is(text, SkipSpace(text, lo), 93)
  {
    hide ReadValue, ReadString, ReadNumber, ReadWord, NumberForm, StringForm, SkipSpace;
    ReadToken(text, behind, lo);
    if kind == Text {
      StringStart(text, lo, start, len);
      StringWritten(text, behind, lo, start, len);
    } else {
      WhiteIsSkipped(text, lo, start);
      if kind == Number {
        NumberWritten(text, start, hi);
      } else {
        assert text[start] == Word(kind)[0];
        WordWritten(text, start, kind);
      }
    }
  }

  /** Every value that is written is read. */
  lemma {:induction false} WrittenIsRead(text: seq<byte>, behind: byte, lo: nat, hi: nat, v: Value)
    requires lo <= |text| && Written(text, lo, hi, v)
    ensures ReadValue(text, behind, lo) == Got(v, hi) && lo < hi <= |text|
    ensures !Is(text, SkipSpace(text, lo), 93)
    decreases v
  {
    hide ReadValue, ReadItems, ReadMembers, SkipSpace, TokenForm, WrittenItems, WrittenMembers;
    ReadContainer(text, behind, lo);
    match v
    case Token(kind, start, len) =>
      TokenRead(text, behind, lo, hi, kind, start, len);
    case Arr(start, len, items) =>
      WhiteIsSkipped(text, lo, start);
      ItemsAreRead(text, behind, start + 1, hi - 1, items);
    case Obj(start, len, members) =>
      WhiteIsSkipped(text, lo, start);
      MembersAreRead(text, behind, start + 1, hi - 1, members);
  }

  lemma {:induction false} ItemsAreRead(text: seq<byte>, behind: byte, lo: nat, hi: nat, items: Values)
    requires lo <= |text| && WrittenItems(text, lo, hi, items) && Is(text, hi, 93)
    ensures ReadItems(text, behind, lo) == Got(items, hi)
    decreases items
  {
    match items
    case NoValues =>
      WhiteIsSkipped(text, lo, hi);
    case Values(v, rest) =>
      var e: nat, c: nat :|
        Written(text, lo, e, v) && GapForm(text, e, c) && WrittenItems(text, c, hi, rest);
      WrittenIsRead(text, behind, lo, e, v);
      SpaceBefore(text, behind, lo);
      GapWritten(text, e, c);
      ItemsAreRead(text, behind, c, hi, rest);
  }

  /** A key does not begin with a brace. */
  lemma KeyAhead(text: seq<byte>, behind: byte, lo: nat)
    requires lo <= |text| && ReadKey(text, behind, lo).Got?
    ensures !Is(text, SkipSpace(text, lo), 125)
  {
    hide ReadChars;
  }

  lemma {:induction false} MembersAreRead(text: seq<byte>, behind: byte, lo: nat, hi: nat, members: Members)
    requires lo <= |text| && WrittenMembers(text, lo, hi, members) && Is(text, hi, 125)
    ensures ReadMembers(text, behind, lo) == Got(members, hi)
    decreases members
  {
    match members
    case NoMembers =>
      WhiteIsSkipped(text, lo, hi);
    case Members(m, rest) =>
      var k: nat, n: nat, e: nat, c: nat :|
        && KeyForm(text, lo, k, m.start, m.len) && ColonForm(text, k, n)
        && Written(text, n, e, m.value) && GapForm(text, e, c) && WrittenMembers(text, c, hi, rest);
      hide KeyForm, ColonForm, GapForm, Written, WrittenMembers, ReadKey, Pass, PassComma, ReadValue;
      KeyWritten(text, behind, lo, k, m.start, m.len);
      KeyAhead(text, behind, lo);
      ColonWritten(text, k, n);
      WrittenIsRead(text, behind, n, e, m.value);
      SpaceBefore(text, behind, lo);
      GapWritten(text, e, c);
      MembersAreRead(text, behind, c, hi, rest);
  }

  // ---- What is read is written

  lemma TokenIsWritten(text: seq<byte>, behind: byte, lo: nat)
    requires lo <= |text| && ReadValue(text, behind, lo).Got? && ReadValue(text, behind, lo).value.Token?
    ensures Written(text, lo, ReadValue(text, behind, lo).end, ReadValue(text, behind, lo).value)
  {
    hide ReadValue, ReadNumber, ReadWord, NumberForm, StringForm, SkipSpace, ReadChars;
    ReadToken(text, behind, lo);
    var s, r := SkipSpace(text, lo), ReadValue(text, behind, lo);
    SkipIsWhite(text, lo);
    if text[s] == QUOTE {
      StringWritten(text, behind, lo, s + 1, r.value.len);
    } else if text[s] == 45 || Digit(text[s]) {
      NumberToken(text, s);
      NumberWritten(text, s, r.end);
    } else {
      WordWritten(text, s, r.value.kind);
    }
  }

  /** Every value that is read is written where it is said to be. */
  lemma {:induction false} ReadIsWritten(text: seq<byte>, behind: byte, lo: nat)
    requires lo <= |text| && ReadValue(text, behind, lo).Got?
    ensures Written(text, lo, ReadValue(text, behind, lo).end, ReadValue(text, behind, lo).value)
    decreases |text| - lo, 2
  {
    hide ReadValue, ReadItems, ReadMembers, SkipSpace, TokenForm, WrittenItems, WrittenMembers;
    var s, r := SkipSpace(text, lo), ReadValue(text, behind, lo);
    SkipIsWhite(text, lo);
    ReadContainer(text, behind, lo);
    match r.value
    case Token(_, _, _) =>
      TokenIsWritten(text, behind, lo);
    case Arr(start, len, items) =>
      ItemsAreWritten(text, behind, s + 1);
    case Obj(start, len, members) =>
      MembersAreWritten(text, behind, s + 1);
  }

  lemma {:induction false} ItemsAreWritten(text: seq<byte>, behind: byte, lo: nat)
    requires lo <= |text| && ReadItems(text, behind, lo).Got?
    ensures WrittenItems(text, lo, ReadItems(text, behind, lo).end, ReadItems(text, behind, lo).value)
    decreases |text| - lo, 3
  {
    SkipIsWhite(text, lo);
    if !Is(text, SkipSpace(text, lo), 93) {
      SpaceBefore(text, behind, lo);
      var v := ReadValue(text, behind, lo);
      ReadIsWritten(text, behind, lo);
      var c := PassComma(text, v.end);
      GapWritten(text, v.end, c);
      ItemsAreWritten(text, behind, c);
    }
  }

  lemma {:induction false} MembersAreWritten(text: seq<byte>, behind: byte, lo: nat)
    requires lo <= |text| && ReadMembers(text, behind, lo).Got?
    ensures WrittenMembers(text, lo, ReadMembers(text, behind, lo).end, ReadMembers(text, behind, lo).value)
    decreases |text| - lo, 3
  {
    SkipIsWhite(text, lo);
    if !Is(text, SkipSpace(text, lo), 125) {
      SpaceBefore(text, behind, lo);
      var k := ReadKey(text, behind, lo);
      KeyWritten(text, behind, lo, k.end, k.value.start, k.value.len);
      var n := Pass(text, k.end, COLON).end;
      ColonWritten(text, k.end, n);
      var v := ReadValue(text, behind, n);
      ReadIsWritten(text, behind, n);
      var c := PassComma(text, v.end);
      GapWritten(text, v.end, c);
      MembersAreWritten(text, behind, c);
    }
  }

  // ---- Well-nested events

  /** Reading events with the containers still open on a stack: `None` where an end does not meet its own
      start, with the same path, or an event lies outside the path of the innermost container. */
  function Follow(events: seq<Event>, open: seq<Event>): Option<seq<Event>> {
    if events == [] then Some(open)
    else
      var r := Follow(events[..|events| - 1], open);
      if r.None? then None else FollowOne(events[|events| - 1], r.value)
  }

  function FollowOne(e: Event, open: seq<Event>): Option<seq<Event>> {
    if open != [] && !(open[|open| - 1].path <= e.path) then None
    else if e.kind == ObjectStart || e.kind == ArrayStart then Some(open + [e])
    else if e.kind == ObjectEnd || e.kind == ArrayEnd then
      if open != [] && open[|open| - 1].path == e.path && open[|open| - 1].kind == Opening(e.kind)
      then Some(open[..|open| - 1])
      else None
    else Some(open)
  }

  function Opening(k: Kind): Kind { if k == ObjectEnd then ObjectStart else ArrayStart }

  /** Every start has its end, with the same path, around events below that path. */
  predicate WellNested(events: seq<Event>) { Follow(events, []) == Some([]) }

  lemma {:induction false} FollowJoin(a: seq<Event>, b: seq<Event>, open: seq<Event>)
    ensures Follow(a + b, open) ==
            if Follow(a, open).None? then None else Follow(b, Follow(a, open).value)
  {
    if b == [] {
      assert a + b == a;
    } else {
      FollowJoin(a, b[..|b| - 1], open);
      assert (a + b)[..|a + b| - 1] == a + b[..|b| - 1];
    }
  }

  lemma FollowSingle(e: Event, open: seq<Event>)
    ensures Follow([e], open) == FollowOne(e, open)
  {
    assert [e][..0] == [];
  }

  /** The innermost open container's path begins `p`. */
  predicate Below(open: seq<Event>, p: seq<byte>) { open == [] || open[|open| - 1].path <= p }

  lemma MaybeNested(e: Event, open: seq<Event>)
    requires e.kind in {Text, Number, True, False, Null} && Below(open, e.path)
    ensures Follow(Maybe(e), open) == Some(open)
  {
    FollowSingle(e, open);
  }

  /** A container around events that leave the stack as it is. */
  lemma ContainerNested(kind: Kind, p: seq<byte>, at: Span, inner: seq<Event>, open: seq<Event>)
    requires (kind == ObjectEnd || kind == ArrayEnd) && Below(open, p)
    requires forall o: seq<Event> :: Below(o, p) ==> Follow(inner, o) == Some(o)
    ensures Follow(Maybe(Event(Opening(kind), p, NoValue)) + inner + Maybe(Event(kind, p, at)), open) == Some(open)
  {
    var a, z := Event(Opening(kind), p, NoValue), Event(kind, p, at);
    FollowJoin(Maybe(a) + inner, Maybe(z), open);
    FollowJoin(Maybe(a), inner, open);
    FollowSingle(a, open);
    FollowSingle(z, open + [a]);
    assert (open + [a])[..|open|] == open;
    assert Follow([], open) == Some(open);
  }

  lemma CutBelow(p: seq<byte>, s: seq<byte>, open: seq<Event>)
    requires Below(open, p) && |p| < MAX_PATH
    ensures Below(open, Cut(p + s)) && p <= Cut(p + s)
  {
  }

  /** The events of a value are well nested wherever they are reported. */
  lemma {:induction false} EventsNested(text: seq<byte>, v: Value, p: seq<byte>, open: seq<Event>)
    requires Below(open, p) && |p| < MAX_PATH && ScalarTokens(v)
    ensures Follow(Events(text, v, p), open) == Some(open)
    decreases v
  {
    match v
    case Token(kind, start, len) =>
      MaybeNested(Event(kind, p, Span(start, len)), open);
    case Arr(start, len, items) =>
      forall o: seq<Event> | Below(o, p) ensures Follow(ItemEvents(text, items, p, 0), o) == Some(o) {
        ItemsNested(text, items, p, 0, o);
      }
      ContainerNested(ArrayEnd, p, Span(start, len), ItemEvents(text, items, p, 0), open);
    case Obj(start, len, members) =>
      var q := Cut(p + [DOT]);
      forall o: seq<Event> | Below(o, p) ensures Follow(MemberEvents(text, members, q), o) == Some(o) {
        CutBelow(p, [DOT], o);
        MembersNested(text, members, q, o);
      }
      ContainerNested(ObjectEnd, p, Span(start, len), MemberEvents(text, members, q), open);
  }

  lemma {:induction false} ItemsNested(text: seq<byte>, items: Values, p: seq<byte>, i: nat, open: seq<Event>)
    requires Below(open, p) && |p| < MAX_PATH && ScalarItems(items)
    ensures Follow(ItemEvents(text, items, p, i), open) == Some(open)
    decreases items
  {
    match items
    case NoValues =>
    case Values(v, rest) =>
      CutBelow(p, IndexText(i), open);
      EventsNested(text, v, Cut(p + IndexText(i)), open);
      ItemsNested(text, rest, p, i + 1, open);
      FollowJoin(Events(text, v, Cut(p + IndexText(i))), ItemEvents(text, rest, p, i + 1), open);
  }

  lemma {:induction false} MembersNested(text: seq<byte>, members: Members, q: seq<byte>, open: seq<Event>)
    requires Below(open, q) && |q| < MAX_PATH && ScalarMembers(members)
    ensures Follow(MemberEvents(text, members, q), open) == Some(open)
    decreases members
  {
    match members
    case NoMembers =>
    case Members(m, rest) =>
      PairNested(text, m, q, open);
      MembersNested(text, rest, q, open);
      FollowJoin(PairEvents(text, m, q), MemberEvents(text, rest, q), open);
  }

  lemma {:induction false} PairNested(text: seq<byte>, m: Pair, q: seq<byte>, open: seq<Event>)
    requires Below(open, q) && |q| < MAX_PATH && ScalarTokens(m.value)
    ensures Follow(PairEvents(text, m, q), open) == Some(open)
    decreases m
  {
    var key, here := Event(Text, q, Span(m.start, m.len)), Cut(q + Piece(text, m.start, m.len));
    MaybeNested(key, open);
    CutBelow(q, Piece(text, m.start, m.len), open);
    EventsNested(text, m.value, here, open);
    FollowJoin(Maybe(key), Events(text, m.value, here), open);
  }

  /** All tokens are scalars. */
  predicate ScalarTokens(v: Value) {
    match v
    case Token(kind, _, _) => kind in {Text, Number, True, False, Null}
    case Arr(_, _, items) => ScalarItems(items)
    case Obj(_, _, members) => ScalarMembers(members)
  }

  predicate ScalarItems(items: Values) {
    match items
    case NoValues => true
    case Values(v, rest) => ScalarTokens(v) && ScalarItems(rest)
  }

  predicate ScalarMembers(members: Members) {
    match members
    case NoMembers => true
    case Members(m, rest) => ScalarTokens(m.value) && ScalarMembers(rest)
  }

  lemma {:induction false} WrittenScalar(text: seq<byte>, lo: nat, hi: nat, v: Value)
    requires Written(text, lo, hi, v)
    ensures ScalarTokens(v)
    decreases v
  {
    match v
    case Token(_, _, _) =>
    case Arr(start, _, items) => ItemsScalar(text, start + 1, hi - 1, items);
    case Obj(start, _, members) => MembersScalar(text, start + 1, hi - 1, members);
  }

  lemma {:induction false} ItemsScalar(text: seq<byte>, lo: nat, hi: nat, items: Values)
    requires WrittenItems(text, lo, hi, items)
    ensures ScalarItems(items)
    decreases items
  {
    match items
    case NoValues =>
    case Values(v, rest) =>
      var e: nat, c: nat :|
        Written(text, lo, e, v) && GapForm(text, e, c) && WrittenItems(text, c, hi, rest);
      WrittenScalar(text, lo, e, v);
      ItemsScalar(text, c, hi, rest);
  }

  lemma {:induction false} MembersScalar(text: seq<byte>, lo: nat, hi: nat, members: Members)
    requires WrittenMembers(text, lo, hi, members)
    ensures ScalarMembers(members)
    decreases members
  {
    match members
    case NoMembers =>
    case Members(m, rest) =>
      var k: nat, n: nat, e: nat, c: nat :|
        && KeyForm(text, lo, k, m.start, m.len) && ColonForm(text, k, n)
        && Written(text, n, e, m.value) && GapForm(text, e, c) && WrittenMembers(text, c, hi, rest);
      WrittenScalar(text, n, e, m.value);
      MembersScalar(text, c, hi, rest);
  }

  /** What is read at the start of a text is reported by well-nested events. */
  lemma ReportNested(text: seq<byte>, behind: byte)
    requires ReadValue(text, behind, 0).Got?
    ensures WellNested(Events(text, ReadValue(text, behind, 0).value, []))
  {
    ReadIsWritten(text, behind, 0);
    WrittenScalar(text, 0, ReadValue(text, behind, 0).end, ReadValue(text, behind, 0).value);
    EventsNested(text, ReadValue(text, behind, 0).value, [], []);
  }

  /** A text is read as `v` up to `hi` exactly when its beginning is written so. */
  lemma ReadExactly(text: seq<byte>, behind: byte, lo: nat, hi: nat, v: Value)
    requires lo <= |text|
    ensures ReadValue(text, behind, lo) == Got(v, hi) <==> Written(text, lo, hi, v)
  {
    if ReadValue(text, behind, lo) == Got(v, hi) {
      ReadIsWritten(text, behind, lo);
    }
    if Written(text, lo, hi, v) {
      WrittenIsRead(text, behind, lo, hi, v);
    }
  }
}
