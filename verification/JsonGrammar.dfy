/** The JSON that `frozen.c` reads: what a text stands for, found by reading it (`ReadValue`) and, independently,
    as a relation between a value and the characters it is written in (`Written`); and the events a value is
    reported by, each with the path to it. */
module JsonGrammar {
  import opened Bits
  import opened Canonical

  const MAX_PATH: nat := 256
  const INVALID: int := -1
  const INCOMPLETE: int := -2

  const DOT: byte := 46
  const QUOTE: byte := 34
  const COMMA: byte := 44
  const COLON: byte := 58

  datatype Kind = Text | Number | True | False | Null | ObjectStart | ObjectEnd | ArrayStart | ArrayEnd

  /** Where the token of an event stands. */
  datatype Span = NoValue | Span(start: nat, len: nat)

  /** What the callback receives. */
  datatype Event = Event(kind: Kind, path: seq<byte>, at: Span)

  /** A value and where it stands in the text: a string without its quotes, a container with its brackets. */
  datatype Value =
    | Token(kind: Kind, start: nat, len: nat)
    | Arr(start: nat, len: nat, items: Values)
    | Obj(start: nat, len: nat, members: Members)

  datatype Values = NoValues | Values(first: Value, rest: Values)

  /** A member: where its key stands, without quotes, and its value. */
  datatype Pair = Pair(start: nat, len: nat, value: Value)

  datatype Members = NoMembers | Members(first: Pair, rest: Members)

  // ---- Characters

  predicate Digit(ch: int) { 48 <= ch <= 57 }

  predicate HexDigit(ch: int) { Digit(ch) || 97 <= ch <= 102 || 65 <= ch <= 70 }

  predicate Alpha(ch: int) { 97 <= ch <= 122 || 65 <= ch <= 90 }

  predicate Space(ch: int) { ch == 32 || ch == 9 || ch == 13 || ch == 10 }

  predicate NameChar(ch: int) { ch == 95 || Alpha(ch) || Digit(ch) }

  predicate DigitOf(hex: bool, ch: int) { if hex then HexDigit(ch) else Digit(ch) }

  function Word(k: Kind): seq<byte> {
    match k
    case True => [116, 114, 117, 101]
    case False => [102, 97, 108, 115, 101]
    case Null => [110, 117, 108, 108]
    case _ => []
  }

  /** `json_get_utf8_char_len` */
  function CharLen(ch: byte): (n: nat)
    ensures 1 <= n <= 4
  {
    if ch < 128 then 1 else if ch >= 240 then 4 else if ch >= 224 then 3 else 2
  }

  /** A character of the text, or the one right behind it. */
  function CharAt(text: seq<byte>, behind: byte, i: nat): int { if i < |text| then text[i] else behind }

  predicate Is(text: seq<byte>, i: nat, ch: byte) { i < |text| && text[i] == ch }

  /** `json_get_escape_len`, for the escape that starts at `i`; `left` counts from the backslash on. */
  function EscapeLen(text: seq<byte>, behind: byte, i: nat, left: nat): (r: int)
    requires i <= |text| && left == |text| - i + 1
    ensures r == INVALID || r == INCOMPLETE || (1 <= r && r < left)
  {
    var ch := CharAt(text, behind, i);
    if ch == 117 then
      if left < 6 then INCOMPLETE
      else if HexDigit(text[i + 1]) && HexDigit(text[i + 2]) && HexDigit(text[i + 3]) && HexDigit(text[i + 4]) then 5
      else INVALID
    else if ch in {34, 92, 47, 98, 102, 110, 114, 116} then if left < 2 then INCOMPLETE else 1
    else INVALID
  }

  // ---- Reading

  datatype Read<+T> = Bad(code: int) | Got(value: T, end: nat)

  /** The same where only the end matters. */
  datatype Skip = Stuck(code: int) | Past(end: nat)

  function SkipSpace(text: seq<byte>, i: nat): (j: nat)
    requires i <= |text|
    ensures i <= j <= |text| && (j < |text| ==> !Space(text[j]))
    ensures forall k :: i <= k < j ==> Space(text[k])
    decreases |text| - i
  {
    if i < |text| && Space(text[i]) then SkipSpace(text, i + 1) else i
  }

  function SkipDigits(text: seq<byte>, i: nat, hex: bool): (j: nat)
    requires i <= |text|
    ensures i <= j <= |text| && (j < |text| ==> !DigitOf(hex, text[j]))
    ensures forall k :: i <= k < j ==> DigitOf(hex, text[k])
    decreases |text| - i
  {
    if i < |text| && DigitOf(hex, text[i]) then SkipDigits(text, i + 1, hex) else i
  }

  function SkipName(text: seq<byte>, i: nat): (j: nat)
    requires i <= |text|
    ensures i <= j <= |text| && (j < |text| ==> !NameChar(text[j]))
    ensures forall k :: i <= k < j ==> NameChar(text[k])
    decreases |text| - i
  {
    if i < |text| && NameChar(text[i]) then SkipName(text, i + 1) else i
  }

  /** What is missing where another character is wanted. */
  function Missing(text: seq<byte>, i: nat): int { if i >= |text| then INCOMPLETE else INVALID }

  /** One digit or more. */
  function ReadDigits(text: seq<byte>, i: nat, hex: bool): (r: Skip)
    requires i <= |text|
    ensures r.Past? ==> i < r.end <= |text|
  {
    if i < |text| && DigitOf(hex, text[i]) then Past(SkipDigits(text, i, hex)) else Stuck(Missing(text, i))
  }

  /** A fraction, if there is a point. */
  function ReadFraction(text: seq<byte>, i: nat): (r: Skip)
    requires i <= |text|
    ensures r.Past? ==> i <= r.end <= |text|
  {
    if Is(text, i, DOT) then ReadDigits(text, i + 1, false) else Past(i)
  }

  predicate Exponent(text: seq<byte>, i: nat) { Is(text, i, 101) || Is(text, i, 69) }

  predicate Sign(text: seq<byte>, i: nat) { Is(text, i, 43) || Is(text, i, 45) }

  /** An exponent, if there is an `e`. */
  function ReadExponent(text: seq<byte>, i: nat): (r: Skip)
    requires i <= |text|
    ensures r.Past? ==> i <= r.end <= |text|
  {
    if Exponent(text, i) then ReadDigits(text, if Sign(text, i + 1) then i + 2 else i + 1, false) else Past(i)
  }

  /** Where the digits of a number begin. */
  function AfterMinus(text: seq<byte>, i: nat): nat { if Is(text, i, 45) then i + 1 else i }

  predicate Hex(text: seq<byte>, i: nat) { Is(text, i, 48) && Is(text, i + 1, 120) }

  /** The digits of a number, with a fraction and an exponent unless it is hexadecimal. */
  function ReadAmount(text: seq<byte>, i: nat): (r: Skip)
    requires i <= |text|
    ensures r.Past? ==> i < r.end <= |text|
  {
    if Hex(text, i) then ReadDigits(text, i + 2, true)
    else
      var whole := ReadDigits(text, i, false);
      if whole.Stuck? then whole
      else
        var fraction := ReadFraction(text, whole.end);
        if fraction.Stuck? then fraction else ReadExponent(text, fraction.end)
  }

  function ReadNumber(text: seq<byte>, i: nat): (r: Read<Value>)
    requires i <= |text|
    ensures r.Got? ==> i < r.end <= |text|
  {
    var amount := ReadAmount(text, AfterMinus(text, i));
    if amount.Stuck? then Bad(amount.code) else Got(Token(Number, i, amount.end - i), amount.end)
  }

  /** The closing quote of a string, from inside it. */
  function ReadChars(text: seq<byte>, behind: byte, i: nat): (r: Skip)
    requires i <= |text|
    ensures r.Past? ==> i <= r.end < |text| && text[r.end] == QUOTE
    ensures r.Stuck? ==> r.code == INVALID || r.code == INCOMPLETE
    decreases |text| - i
  {
    if i == |text| then Stuck(INCOMPLETE)
    else
      var ch, n := text[i], CharLen(text[i]);
      if ch < 32 then Stuck(INVALID)
      else if n > |text| - i then Stuck(INCOMPLETE)
      else if ch == 92 then
        var e := EscapeLen(text, behind, i + 1, |text| - i);
        if e <= 0 then Stuck(e) else ReadChars(text, behind, i + n + e)
      else if ch == QUOTE then Past(i)
      else ReadChars(text, behind, i + n)
  }

  /** A string whose opening quote stands at `i`. */
  function ReadString(text: seq<byte>, behind: byte, i: nat): (r: Read<Value>)
    requires Is(text, i, QUOTE)
    ensures r.Got? ==> i + 1 < r.end <= |text| && r.value == Token(Text, i + 1, r.end - i - 2)
  {
    var end := ReadChars(text, behind, i + 1);
    if end.Stuck? then Bad(end.code) else Got(Token(Text, i + 1, end.end - i - 1), end.end + 1)
  }

  /** How far the text agrees with `s` from `i` on. */
  function Agreement(text: seq<byte>, i: nat, s: seq<byte>, k: nat): (n: nat)
    requires k <= |s|
    ensures k <= n <= |s| && (n < |s| ==> !Is(text, i + n, s[n]))
    ensures forall j :: k <= j < n ==> Is(text, i + j, s[j])
    ensures n > k ==> i + n <= |text|
    decreases |s| - k
  {
    if k < |s| && Is(text, i + k, s[k]) then Agreement(text, i, s, k + 1) else k
  }

  function ReadWord(text: seq<byte>, i: nat, kind: Kind): (r: Read<Value>)
    requires i <= |text|
    ensures r.Got? ==> r.value == Token(kind, i, |Word(kind)|) && r.end == i + |Word(kind)|
    ensures r.Got? && |Word(kind)| > 0 ==> r.end <= |text|
  {
    var n := Agreement(text, i, Word(kind), 0);
    if n == |Word(kind)| then Got(Token(kind, i, n), i + n) else Bad(Missing(text, i + n))
  }

  function ReadName(text: seq<byte>, i: nat): (r: Read<Value>)
    requires i < |text| && Alpha(text[i])
    ensures r.Got? && i < r.end <= |text|
  {
    Got(Token(Text, i, SkipName(text, i) - i), SkipName(text, i))
  }

  /** The name or string in front of a colon. */
  function ReadKey(text: seq<byte>, behind: byte, i: nat): (r: Read<Value>)
    requires i <= |text|
    ensures r.Got? ==> i < r.end <= |text| && r.value.Token? && r.value.kind == Text
  {
    var s := SkipSpace(text, i);
    if s < |text| && Alpha(text[s]) then ReadName(text, s)
    else if Is(text, s, QUOTE) then ReadString(text, behind, s)
    else Bad(Missing(text, s))
  }

  /** `json_test_and_skip` */
  function Pass(text: seq<byte>, i: nat, ch: byte): (r: Skip)
    requires i <= |text|
    ensures r.Past? ==> i < r.end <= |text| && text[r.end - 1] == ch
  {
    var s := SkipSpace(text, i);
    if Is(text, s, ch) then Past(s + 1) else Stuck(Missing(text, s))
  }

  /** A comma is passed over where there is one. */
  function PassComma(text: seq<byte>, i: nat): (j: nat)
    requires i <= |text|
    ensures i <= j <= |text|
  {
    var s := SkipSpace(text, i);
    if Is(text, s, COMMA) then s + 1 else s
  }

  /** The value that begins at `i`, white space in front of it included. */
  function ReadValue(text: seq<byte>, behind: byte, i: nat): (r: Read<Value>)
    requires i <= |text|
    ensures r.Got? ==> i < r.end <= |text|
    decreases |text| - i, 2
  {
    var s := SkipSpace(text, i);
    if s == |text| then Bad(INCOMPLETE)
    else
      var ch := text[s];
      if ch == QUOTE then ReadString(text, behind, s)
      else if ch == 123 then
        var r := ReadMembers(text, behind, s + 1);
        if r.Bad? then Bad(r.code) else Got(Obj(s, r.end + 1 - s, r.value), r.end + 1)
      else if ch == 91 then
        var r := ReadItems(text, behind, s + 1);
        if r.Bad? then Bad(r.code) else Got(Arr(s, r.end + 1 - s, r.value), r.end + 1)
      else if ch == 110 then ReadWord(text, s, Null)
      else if ch == 116 then ReadWord(text, s, True)
      else if ch == 102 then ReadWord(text, s, False)
      else if ch == 45 || Digit(ch) then ReadNumber(text, s)
      else Bad(INVALID)
  }

  /** The values of an array up to its closing bracket. */
  function ReadItems(text: seq<byte>, behind: byte, i: nat): (r: Read<Values>)
    requires i <= |text|
    ensures r.Got? ==> i <= r.end < |text| && text[r.end] == 93
    decreases |text| - i, 3
  {
    var s := SkipSpace(text, i);
    if Is(text, s, 93) then Got(NoValues, s)
    else
      var v := ReadValue(text, behind, s);
      if v.Bad? then Bad(v.code)
      else
        var r := ReadItems(text, behind, PassComma(text, v.end));
        if r.Bad? then Bad(r.code) else Got(Values(v.value, r.value), r.end)
  }

  /** A key, a colon and a value. */
  function ReadPair(text: seq<byte>, behind: byte, i: nat): (r: Read<Pair>)
    requires i <= |text|
    ensures r.Got? ==> i < r.end <= |text|
    decreases |text| - i, 3
  {
    var k := ReadKey(text, behind, i);
    if k.Bad? then Bad(k.code)
    else
      var c := Pass(text, k.end, COLON);
      if c.Stuck? then Bad(c.code)
      else
        var v := ReadValue(text, behind, c.end);
        if v.Bad? then Bad(v.code) else Got(Pair(k.value.start, k.value.len, v.value), v.end)
  }

  /** The members of an object up to its closing brace. */
  function ReadMembers(text: seq<byte>, behind: byte, i: nat): (r: Read<Members>)
    requires i <= |text|
    ensures r.Got? ==> i <= r.end < |text| && text[r.end] == 125
    decreases |text| - i, 4
  {
    var s := SkipSpace(text, i);
    if Is(text, s, 125) then Got(NoMembers, s)
    else
      var m := ReadPair(text, behind, s);
      if m.Bad? then Bad(m.code)
      else
        var r := ReadMembers(text, behind, PassComma(text, m.end));
        if r.Bad? then Bad(r.code) else Got(Members(m.value, r.value), r.end)
  }

  // ---- Reporting

  /** An event is reported unless the path ends in a dot. */
  predicate Shown(path: seq<byte>) { path == [] || path[|path| - 1] != DOT }

  function Maybe(e: Event): (r: seq<Event>) { if Shown(e.path) then [e] else [] }

  /** The path buffer keeps the first 255 characters. */
  function Cut(p: seq<byte>): (q: seq<byte>)
    ensures |q| < MAX_PATH && q <= p
  {
    if |p| < MAX_PATH then p else p[..MAX_PATH - 1]
  }

  function Decimal(n: nat): seq<byte> {
    if n < 10 then [48 + n] else Decimal(n / 10) + [48 + n % 10]
  }

  function IndexText(i: nat): seq<byte> { [91] + Decimal(i) + [93] }

  function Piece(text: seq<byte>, start: nat, len: nat): seq<byte> {
    if start + len <= |text| then text[start..start + len] else []
  }

  /** The events by which the value at path `p` is reported. */
  function Events(text: seq<byte>, v: Value, p: seq<byte>): seq<Event> {
    match v
    case Token(kind, start, len) => Maybe(Event(kind, p, Span(start, len)))
    case Arr(start, len, items) =>
      Maybe(Event(ArrayStart, p, NoValue)) + ItemEvents(text, items, p, 0) + Maybe(Event(ArrayEnd, p, Span(start, len)))
    case Obj(start, len, members) =>
      Maybe(Event(ObjectStart, p, NoValue)) + MemberEvents(text, members, Cut(p + [DOT]))
      + Maybe(Event(ObjectEnd, p, Span(start, len)))
  }

  /** The items of the array at path `p`, from number `i` on. */
  function ItemEvents(text: seq<byte>, items: Values, p: seq<byte>, i: nat): seq<Event> {
    match items
    case NoValues => []
    case Values(v, rest) => Events(text, v, Cut(p + IndexText(i))) + ItemEvents(text, rest, p, i + 1)
  }

  /** A member of the object whose path and dot are `q`: the key is shown only where the dot was cut off. */
  function PairEvents(text: seq<byte>, m: Pair, q: seq<byte>): seq<Event> {
    Maybe(Event(Text, q, Span(m.start, m.len))) + Events(text, m.value, Cut(q + Piece(text, m.start, m.len)))
  }

  function MemberEvents(text: seq<byte>, members: Members, q: seq<byte>): seq<Event> {
    match members
    case NoMembers => []
    case Members(m, rest) => PairEvents(text, m, q) + MemberEvents(text, rest, q)
  }
}
