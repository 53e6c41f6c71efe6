/**
 * A reader for the JSON text Dumps writes, as the receiver frontend that loads
 * bookmarks.json reads it: whitespace between tokens, integers, string literals
 * with their escapes, arrays and objects. It is the inverse of Dumps: reading the
 * text of a value gives that value back, so the written file determines the
 * bookmarks exactly.
 */
module JsonReader {
  import opened Wrappers
  import opened Digits
  import opened Json

  // ---------------------------------------------------------------------------
  // Whitespace
  // ---------------------------------------------------------------------------

  /** The characters JSON allows between tokens. */
  predicate IsWhitespace(c: char) { c == ' ' || c == '\n' || c == '\r' || c == '\t' }

  function SkipWhitespace(s: string): (r: string)
    ensures |r| <= |s|
    ensures r == [] || !IsWhitespace(r[0])
  {
    if s != [] && IsWhitespace(s[0]) then SkipWhitespace(s[1..]) else s
  }

  predicate AllWhitespace(w: string) { forall i :: 0 <= i < |w| ==> IsWhitespace(w[i]) }

  lemma {:induction false} SkipWhitespacePrefix(w: string, x: string)
    requires AllWhitespace(w)
    ensures SkipWhitespace(w + x) == SkipWhitespace(x)
  {
    if w != [] {
      assert IsWhitespace(w[0]);
      assert (w + x)[0] == w[0];
      assert (w + x)[1..] == w[1..] + x;
      assert forall i :: 0 <= i < |w[1..]| ==> w[1..][i] == w[i + 1];
      SkipWhitespacePrefix(w[1..], x);
    } else {
      assert w + x == x;
    }
  }

  lemma SpacesAreWhitespace(level: nat)
    ensures AllWhitespace(Spaces(level)) && AllWhitespace(NewlineIndent(level))
  {
    if level > 0 {
      SpacesAreWhitespace(level - 1);
    }
  }

  // ---------------------------------------------------------------------------
  // Integers
  // ---------------------------------------------------------------------------

  /** The length of the run of digits s starts with. */
  function DigitRun(s: string): (k: nat)
    ensures k <= |s| && AllDigits(s[..k]) && (k < |s| ==> !IsDigit(s[k]))
  {
    if s != [] && IsDigit(s[0]) then
      var k := 1 + DigitRun(s[1..]);
      assert forall i :: 1 <= i < k ==> s[..k][i] == s[1..][..k - 1][i - 1];
      k
    else 0
  }

  function ReadNat(s: string): (r: Option<(nat, string)>)
    ensures r.Some? ==> |r.value.1| < |s|
  {
    var k := DigitRun(s);
    if k == 0 then None else Some((DigitsValue(s[..k]), s[k..]))
  }

  /** An integer: an optional '-' and the longest run of digits after it. */
  function ReadInt(s: string): (r: Option<(int, string)>)
    ensures r.Some? ==> |r.value.1| < |s|
  {
    if s != [] && s[0] == '-' then
      match ReadNat(s[1..])
      case None => None
      case Some((n, rest)) => Some((-(n as int), rest))
    else
      match ReadNat(s)
      case None => None
      case Some((n, rest)) => Some((n as int, rest))
  }

  /** Nothing that could continue a number: the end of the text, or a character that is not a digit. */
  predicate EndsNumber(rest: string) { rest == [] || !IsDigit(rest[0]) }

  lemma {:induction false} DigitRunOf(digits: string, rest: string)
    requires AllDigits(digits) && EndsNumber(rest)
    ensures DigitRun(digits + rest) == |digits|
  {
    if digits == [] {
      assert digits + rest == rest;
    } else {
      assert (digits + rest)[0] == digits[0];
      assert (digits + rest)[1..] == digits[1..] + rest;
      DigitRunOf(digits[1..], rest);
    }
  }

  lemma ReadNatOf(n: nat, rest: string)
    requires EndsNumber(rest)
    ensures ReadNat(NatToDigits(n) + rest) == Some((n, rest))
  {
    var digits := NatToDigits(n);
    DigitRunOf(digits, rest);
    assert (digits + rest)[..|digits|] == digits;
    assert (digits + rest)[|digits|..] == rest;
  }

  /** Reading the text of an integer gives the integer back. */
  lemma ReadIntText(n: int, rest: string)
    requires EndsNumber(rest)
    ensures ReadInt(IntText(n) + rest) == Some((n, rest))
  {
    if n < 0 {
      ReadNegative(n, rest);
    } else {
      var digits := NatToDigits(n);
      assert IntText(n) == digits;
      ReadNatOf(n, rest);
      assert (digits + rest)[0] == digits[0];
    }
  }

  lemma ReadNegative(n: int, rest: string)
    requires n < 0 && EndsNumber(rest)
    ensures ReadInt(IntText(n) + rest) == Some((n, rest))
  {
    var m: nat := -n;
    var digits := NatToDigits(m);
    assert IntText(n) + rest == ['-'] + (digits + rest);
    DropFirst('-', digits + rest);
    ReadNatOf(m, rest);
    ReadMinus(IntText(n) + rest, m, rest);
  }

  lemma DropFirst(c: char, x: string)
    ensures [c] + x != [] && ([c] + x)[0] == c && ([c] + x)[1..] == x
  {
  }

  lemma ReadMinus(s: string, m: nat, rest: string)
    requires s != [] && s[0] == '-' && ReadNat(s[1..]) == Some((m, rest))
    ensures ReadInt(s) == Some((-(m as int), rest))
  {
  }

  // ---------------------------------------------------------------------------
  // String literals
  // ---------------------------------------------------------------------------

  function HexValue(c: char): Option<nat>
  {
    if '0' <= c <= '9' then Some(c as int - '0' as int)
    else if 'a' <= c <= 'f' then Some(c as int - 'a' as int + 10)
    else if 'A' <= c <= 'F' then Some(c as int - 'A' as int + 10)
    else None
  }

  /** The 16-bit code unit four hex digits denote. */
  function Hex4Value(h: string): (r: Option<nat>)
    requires |h| == 4
    ensures r.Some? ==> r.value < 0x10000
  {
    match (HexValue(h[0]), HexValue(h[1]), HexValue(h[2]), HexValue(h[3]))
    case (Some(a), Some(b), Some(c), Some(d)) =>
      if a < 16 && b < 16 && c < 16 && d < 16 then Some(a * 0x1000 + b * 0x100 + c * 0x10 + d) else None
    case _ => None
  }

  /** The character a one-letter escape such as \n stands for. */
  function ShortEscape(c: char): Option<char>
  {
    if c == '"' then Some('"')
    else if c == '\\' then Some('\\')
    else if c == '/' then Some('/')
    else if c == 'b' then Some('\U{8}')
    else if c == 'f' then Some('\U{C}')
    else if c == 'n' then Some('\n')
    else if c == 'r' then Some('\r')
    else if c == 't' then Some('\t')
    else None
  }

  function Prepend(c: char, r: Option<(string, string)>): Option<(string, string)>
  {
    match r
    case None => None
    case Some((chars, rest)) => Some(([c] + chars, rest))
  }

  predicate IsHighSurrogate(u: nat) { 0xD800 <= u < 0xDC00 }
  predicate IsLowSurrogate(u: nat) { 0xDC00 <= u < 0xE000 }

  /** The character a surrogate pair stands for. */
  function Combine(high: nat, low: nat): (c: char)
    requires IsHighSurrogate(high) && IsLowSurrogate(low)
  {
    (0x10000 + (high - 0xD800) * 0x400 + (low - 0xDC00)) as char
  }

  /**
   * The characters of a string literal whose opening quote has been read, and the text
   * after its closing quote; None for an unescaped control character, a malformed
   * escape, a lone surrogate or a missing closing quote.
   */
  function ReadStringBody(s: string): (r: Option<(string, string)>)
    ensures r.Some? ==> |r.value.1| < |s|
    decreases |s|
  {
    if s == [] then None
    else if s[0] == '"' then Some(([], s[1..]))
    else if s[0] < ' ' then None
    else if s[0] != '\\' then Prepend(s[0], ReadStringBody(s[1..]))
    else if |s| < 2 then None
    else if ShortEscape(s[1]).Some? then Prepend(ShortEscape(s[1]).value, ReadStringBody(s[2..]))
    else if s[1] != 'u' || |s| < 6 || Hex4Value(s[2..6]).None? then None
    else
      var u := Hex4Value(s[2..6]).value;
      if IsHighSurrogate(u) then
        if |s| >= 12 && s[6] == '\\' && s[7] == 'u' && Hex4Value(s[8..12]).Some?
           && IsLowSurrogate(Hex4Value(s[8..12]).value)
        then Prepend(Combine(u, Hex4Value(s[8..12]).value), ReadStringBody(s[12..]))
        else None
      else if IsLowSurrogate(u) then None
      else Prepend(u as char, ReadStringBody(s[6..]))
  }

  lemma HexDigitRoundTrip(d: nat)
    requires d < 16
    ensures HexValue(HexDigit(d)) == Some(d)
  {
  }

  lemma Hex4Digits(n: nat)
    requires n < 0x10000
    ensures n / 0x1000 < 16
    ensures n == (n / 0x1000) * 0x1000 + (n / 0x100 % 0x10) * 0x100 + (n / 0x10 % 0x10) * 0x10 + n % 0x10
  {
    var n1 := n / 0x10;
    var n2 := n1 / 0x10;
    var n3 := n2 / 0x10;
    assert n == n1 * 0x10 + n % 0x10;
    assert n1 == n2 * 0x10 + n1 % 0x10;
    assert n2 == n3 * 0x10 + n2 % 0x10;
    assert n / 0x100 == n2;
    assert n / 0x1000 == n3;
  }

  lemma Hex4RoundTrip(n: nat)
    requires n < 0x10000
    ensures Hex4Value(Hex4(n)) == Some(n)
  {
    Hex4Digits(n);
    HexDigitRoundTrip(n / 0x1000);
    HexDigitRoundTrip(n / 0x100 % 0x10);
    HexDigitRoundTrip(n / 0x10 % 0x10);
    HexDigitRoundTrip(n % 0x10);
  }

  lemma ReadBmpEscape(c: char, rest: string)
    requires !IsPrintable(c) && c as int < 0x10000
    requires c != '\n' && c != '\r' && c != '\t' && c != '\U{8}' && c != '\U{C}'
    ensures ReadStringBody(UnicodeEscape(c) + rest) == Prepend(c, ReadStringBody(rest))
  {
    var n := c as int;
    var s := UnicodeEscape(c) + rest;
    assert s == "\\u" + Hex4(n) + rest;
    assert s[2..6] == Hex4(n);
    Hex4RoundTrip(n);
    assert s[6..] == rest;
  }

  lemma ReadSurrogatePair(c: char, rest: string)
    requires c as int >= 0x10000
    ensures ReadStringBody(UnicodeEscape(c) + rest) == Prepend(c, ReadStringBody(rest))
  {
    var v := c as int - 0x10000;
    var high, low := 0xD800 + v / 0x400, 0xDC00 + v % 0x400;
    SurrogateHalves(c);
    ReadPairOf(high, low, rest);
  }

  /** The two halves of the surrogate pair of a character above U+FFFF, and their recombination. */
  lemma SurrogateHalves(c: char)
    requires c as int >= 0x10000
    ensures var v := c as int - 0x10000;
      && IsHighSurrogate(0xD800 + v / 0x400) && IsLowSurrogate(0xDC00 + v % 0x400)
      && Combine(0xD800 + v / 0x400, 0xDC00 + v % 0x400) == c
  {
  }

  lemma ReadPairOf(high: nat, low: nat, rest: string)
    requires IsHighSurrogate(high) && IsLowSurrogate(low)
    ensures ReadStringBody("\\u" + Hex4(high) + "\\u" + Hex4(low) + rest)
            == Prepend(Combine(high, low), ReadStringBody(rest))
  {
    var s := "\\u" + Hex4(high) + "\\u" + Hex4(low) + rest;
    assert s[2..6] == Hex4(high);
    assert s[8..12] == Hex4(low);
    assert s[12..] == rest;
    Hex4RoundTrip(high);
    Hex4RoundTrip(low);
  }

  lemma ReadEscapeChar(c: char, rest: string)
    ensures ReadStringBody(EscapeChar(c) + rest) == Prepend(c, ReadStringBody(rest))
  {
    var s := EscapeChar(c) + rest;
    if c == '"' || c == '\\' || c == '\n' || c == '\r' || c == '\t' || c == '\U{8}' || c == '\U{C}' {
      assert s[2..] == rest;
    } else if IsPrintable(c) {
      assert s[1..] == rest;
    } else if c as int < 0x10000 {
      ReadBmpEscape(c, rest);
    } else {
      ReadSurrogatePair(c, rest);
    }
  }

  /** Reading what Escape wrote, up to the closing quote, gives the characters of the string back. */
  lemma {:induction false} ReadEscaped(str: string, rest: string)
    ensures ReadStringBody(Escape(str) + "\"" + rest) == Some((str, rest))
  {
    if str == [] {
      assert Escape(str) + "\"" + rest == "\"" + rest;
      assert ("\"" + rest)[1..] == rest;
    } else {
      var c, more := str[0], str[1..];
      var tail := Escape(more) + "\"" + rest;
      assert Escape(str) == EscapeChar(c) + Escape(more);
      assert Escape(str) + "\"" + rest == EscapeChar(c) + tail;
      ReadEscapeChar(c, tail);
      ReadEscaped(more, rest);
      assert [c] + more == str;
    }
  }

  // ---------------------------------------------------------------------------
  // Values
  // ---------------------------------------------------------------------------

  /** One value after optional whitespace, and the text after it. */
  function ReadValue(s: string): (r: Option<(Json, string)>)
    ensures r.Some? ==> |r.value.1| < |s|
    decreases |s|, 0
  {
    var t := SkipWhitespace(s);
    if t == [] then None
    else if t[0] == '"' then
      match ReadStringBody(t[1..])
      case None => None
      case Some((str, rest)) => Some((JString(str), rest))
    else if t[0] == '[' then
      var u := SkipWhitespace(t[1..]);
      if u != [] && u[0] == ']' then Some((JArray([]), u[1..]))
      else
        match ReadItems(t[1..])
        case None => None
        case Some((items, rest)) => Some((JArray(items), rest))
    else if t[0] == '{' then
      var u := SkipWhitespace(t[1..]);
      if u != [] && u[0] == '}' then Some((JObject([]), u[1..]))
      else
        match ReadMembers(t[1..])
        case None => None
        case Some((members, rest)) => Some((JObject(members), rest))
    else
      match ReadInt(t)
      case None => None
      case Some((n, rest)) => Some((JInt(n), rest))
  }

  /** The items of a non-empty array after its '[': values separated by ',', up to the closing ']'. */
  function ReadItems(s: string): (r: Option<(seq<Json>, string)>)
    ensures r.Some? ==> |r.value.1| < |s|
    decreases |s|, 1
  {
    match ReadValue(s)
    case None => None
    case Some((item, rest)) =>
      var t := SkipWhitespace(rest);
      if t == [] then None
      else if t[0] == ']' then Some(([item], t[1..]))
      else if t[0] == ',' then
        match ReadItems(t[1..])
        case None => None
        case Some((items, rest')) => Some(([item] + items, rest'))
      else None
  }

  /** One member of an object: a string literal key, ':', a value. */
  function ReadMember(s: string): (r: Option<((string, Json), string)>)
    ensures r.Some? ==> |r.value.1| < |s|
    decreases |s|, 1
  {
    var t := SkipWhitespace(s);
    if t == [] || t[0] != '"' then None
    else
      match ReadStringBody(t[1..])
      case None => None
      case Some((key, rest)) =>
        var u := SkipWhitespace(rest);
        if u == [] || u[0] != ':' then None
        else
          match ReadValue(u[1..])
          case None => None
          case Some((value, rest')) => Some(((key, value), rest'))
  }

  /** The members of a non-empty object after its '{': members separated by ',', up to the closing '}'. */
  function ReadMembers(s: string): (r: Option<(seq<(string, Json)>, string)>)
    ensures r.Some? ==> |r.value.1| < |s|
    decreases |s|, 2
  {
    match ReadMember(s)
    case None => None
    case Some((member, rest)) =>
      var t := SkipWhitespace(rest);
      if t == [] then None
      else if t[0] == '}' then Some(([member], t[1..]))
      else if t[0] == ',' then
        match ReadMembers(t[1..])
        case None => None
        case Some((members, rest')) => Some(([member] + members, rest'))
      else None
  }

  /** json.load of a whole text: one value, with nothing but whitespace around it. */
  function Parse(text: string): Option<Json>
  {
    match ReadValue(text)
    case None => None
    case Some((j, rest)) => if SkipWhitespace(rest) == [] then Some(j) else None
  }

  // ---------------------------------------------------------------------------
  // Reading what Dumps wrote
  // ---------------------------------------------------------------------------

  lemma SkipNothing(x: string)
    requires x != [] && !IsWhitespace(x[0])
    ensures SkipWhitespace(x) == x
  {
  }

  lemma ReadValueAfterWhitespace(w: string, x: string)
    requires AllWhitespace(w)
    ensures ReadValue(w + x) == ReadValue(x)
  {
    SkipWhitespacePrefix(w, x);
  }

  lemma ReadItemsAfterWhitespace(w: string, x: string)
    requires AllWhitespace(w)
    ensures ReadItems(w + x) == ReadItems(x)
  {
    ReadValueAfterWhitespace(w, x);
  }

  lemma ReadMembersAfterWhitespace(w: string, x: string)
    requires AllWhitespace(w)
    ensures ReadMembers(w + x) == ReadMembers(x)
  {
    SkipWhitespacePrefix(w, x);
    assert ReadMember(w + x) == ReadMember(x);
  }

  /** What closes a block at the given level: a line break, its indentation, the bracket. */
  function Closing(level: nat, close: char, rest: string): string
  {
    NewlineIndent(level) + [close] + rest
  }

  lemma SkipToClose(level: nat, close: char, rest: string)
    requires !IsWhitespace(close)
    ensures SkipWhitespace(Closing(level, close, rest)) == [close] + rest
  {
    SpacesAreWhitespace(level);
    assert Closing(level, close, rest) == NewlineIndent(level) + ([close] + rest);
    SkipWhitespacePrefix(NewlineIndent(level), [close] + rest);
  }

  lemma JoinFirst(parts: seq<string>, sep: string)
    requires |parts| > 0 && |parts[0]| > 0
    ensures |Join(parts, sep)| > 0 && Join(parts, sep)[0] == parts[0][0]
  {
  }

  /** The texts of an array's items, one level deeper. */
  function ItemTexts(items: seq<Json>, level: nat): (r: seq<string>)
    ensures |r| == |items| && forall i :: 0 <= i < |items| ==> r[i] == Encode(items[i], level + 1)
  {
    seq(|items|, i requires 0 <= i < |items| => Encode(items[i], level + 1))
  }

  /** The texts of an object's members, one level deeper. */
  function MemberTexts(members: seq<(string, Json)>, level: nat): (r: seq<string>)
    ensures |r| == |members|
    ensures forall i :: 0 <= i < |members| ==> r[i] == MemberText(members[i].0, Encode(members[i].1, level + 1))
  {
    seq(|members|, i requires 0 <= i < |members| => MemberText(members[i].0, Encode(members[i].1, level + 1)))
  }

  /** The text of the first member starts with the quote of its key. */
  lemma MemberTextsStart(members: seq<(string, Json)>, level: nat)
    requires |members| > 0
    ensures |MemberTexts(members, level)[0]| > 0 && MemberTexts(members, level)[0][0] == '"'
  {
    var key := members[0].0;
    assert MemberText(key, Encode(members[0].1, level + 1))[0] == Quote(key)[0];
  }

  /** What separates consecutive items or members: ',' and a line break at the next level. */
  function Separator(level: nat): string { "," + NewlineIndent(level + 1) }

  lemma SeparatorRest(level: nat, more: string)
    ensures Separator(level) + more != [] && (Separator(level) + more)[0] == ','
    ensures (Separator(level) + more)[1..] == NewlineIndent(level + 1) + more
  {
    var n := NewlineIndent(level + 1);
    assert Separator(level) == [','] + n;
    assert Separator(level) + more == [','] + (n + more);
  }

  lemma ClosingStart(level: nat, close: char, rest: string)
    ensures Closing(level, close, rest) != [] && Closing(level, close, rest)[0] == '\n'
  {
    assert Closing(level, close, rest) == ['\n'] + (Spaces(level) + [close] + rest);
  }

  lemma EncodeArray(items: seq<Json>, level: nat, rest: string)
    requires |items| > 0
    ensures Encode(JArray(items), level) + rest
            == "[" + (NewlineIndent(level + 1) + (Join(ItemTexts(items, level), Separator(level)) + Closing(level, ']', rest)))
  {
    EncodeArrayBlock(items, level);
    BlockRest('[', ']', ItemTexts(items, level), level, rest);
  }

  lemma EncodeArrayBlock(items: seq<Json>, level: nat)
    requires |items| > 0
    ensures Encode(JArray(items), level) == Block('[', ']', ItemTexts(items, level), level)
  {
    var parts := seq(|items|, i requires 0 <= i < |items| => Encode(items[i], level + 1));
    assert parts == ItemTexts(items, level);
  }

  lemma BlockRest(open: char, close: char, parts: seq<string>, level: nat, rest: string)
    requires IsPrintable(open) && IsPrintable(close)
    ensures Block(open, close, parts, level) + rest
            == [open] + (NewlineIndent(level + 1) + (Join(parts, Separator(level)) + Closing(level, close, rest)))
  {
  }

  lemma EncodeObject(members: seq<(string, Json)>, level: nat, rest: string)
    requires |members| > 0
    ensures Encode(JObject(members), level) + rest
            == "{" + (NewlineIndent(level + 1) + (Join(MemberTexts(members, level), Separator(level)) + Closing(level, '}', rest)))
  {
    EncodeObjectBlock(members, level);
    BlockRest('{', '}', MemberTexts(members, level), level, rest);
  }

  lemma EncodeObjectBlock(members: seq<(string, Json)>, level: nat)
    requires |members| > 0
    ensures Encode(JObject(members), level) == Block('{', '}', MemberTexts(members, level), level)
  {
    var parts := seq(|members|, i requires 0 <= i < |members| =>
                       MemberText(members[i].0, Encode(members[i].1, level + 1)));
    assert parts == MemberTexts(members, level);
  }

  lemma JoinMore(parts: seq<string>, sep: string, tail: string)
    requires |parts| > 1
    ensures Join(parts, sep) + tail == parts[0] + (sep + (Join(parts[1..], sep) + tail))
  {
  }

  // One step of the reader on an abstract text, so that the round trip below never
  // unfolds the reader on the concrete text of a value.

  lemma ReadValueString(s: string, str: string, rest: string)
    requires s != [] && s[0] == '"' && ReadStringBody(s[1..]) == Some((str, rest))
    ensures ReadValue(s) == Some((JString(str), rest))
  {
  }

  lemma ReadValueArray(s: string, items: seq<Json>, rest: string)
    requires s != [] && s[0] == '[' && ReadItems(s[1..]) == Some((items, rest))
    requires SkipWhitespace(s[1..]) != [] && SkipWhitespace(s[1..])[0] != ']'
    ensures ReadValue(s) == Some((JArray(items), rest))
  {
  }

  lemma ReadValueObject(s: string, members: seq<(string, Json)>, rest: string)
    requires s != [] && s[0] == '{' && ReadMembers(s[1..]) == Some((members, rest))
    requires SkipWhitespace(s[1..]) != [] && SkipWhitespace(s[1..])[0] != '}'
    ensures ReadValue(s) == Some((JObject(members), rest))
  {
  }

  lemma ReadItemsLast(s: string, item: Json, after: string, rest: string)
    requires ReadValue(s) == Some((item, after)) && SkipWhitespace(after) == "]" + rest
    ensures ReadItems(s) == Some(([item], rest))
  {
    assert ("]" + rest)[1..] == rest;
  }

  lemma ReadItemsMore(s: string, item: Json, after: string, items: seq<Json>, rest: string)
    requires ReadValue(s) == Some((item, after)) && after != [] && after[0] == ','
    requires ReadItems(after[1..]) == Some((items, rest))
    ensures ReadItems(s) == Some(([item] + items, rest))
  {
    SkipNothing(after);
  }

  lemma ReadMembersLast(s: string, member: (string, Json), after: string, rest: string)
    requires ReadMember(s) == Some((member, after)) && SkipWhitespace(after) == "}" + rest
    ensures ReadMembers(s) == Some(([member], rest))
  {
    assert ("}" + rest)[1..] == rest;
  }

  lemma ReadMembersMore(s: string, member: (string, Json), after: string, members: seq<(string, Json)>, rest: string)
    requires ReadMember(s) == Some((member, after)) && after != [] && after[0] == ','
    requires ReadMembers(after[1..]) == Some((members, rest))
    ensures ReadMembers(s) == Some(([member] + members, rest))
  {
    SkipNothing(after);
  }

  lemma ReadMemberOf(s: string, key: string, after: string, value: Json, rest: string)
    requires s != [] && s[0] == '"' && ReadStringBody(s[1..]) == Some((key, after))
    requires after != [] && after[0] == ':' && ReadValue(after[1..]) == Some((value, rest))
    ensures ReadMember(s) == Some(((key, value), rest))
  {
    SkipNothing(s);
    SkipNothing(after);
  }

  /** Reading the text of a value gives the value back and stops right after it. */
  lemma ReadEncode(j: Json, level: nat, rest: string)
    requires EndsNumber(rest)
    ensures ReadValue(Encode(j, level) + rest) == Some((j, rest))
    decreases j, 2, 0
  {
    match j
    case JInt(n) => ReadIntValue(n, rest);
    case JString(str) => ReadStringValue(str, rest);
    case JArray(items) =>
      if |items| == 0 {
        ReadEmpty(rest);
      } else {
        ReadArray(j, level, rest);
      }
    case JObject(members) =>
      if |members| == 0 {
        ReadEmpty(rest);
      } else {
        ReadObject(j, level, rest);
      }
  }

  lemma ReadIntValue(n: int, rest: string)
    requires EndsNumber(rest)
    ensures ReadValue(IntText(n) + rest) == Some((JInt(n), rest))
  {
    ReadIntText(n, rest);
    SkipNothing(IntText(n) + rest);
  }

  lemma ReadStringValue(str: string, rest: string)
    ensures ReadValue(Quote(str) + rest) == Some((JString(str), rest))
  {
    var body := Escape(str) + "\"" + rest;
    assert Quote(str) + rest == ['"'] + body;
    DropFirst('"', body);
    ReadEscaped(str, rest);
    ReadValueString(['"'] + body, str, rest);
  }

  lemma ReadEmpty(rest: string)
    ensures ReadValue("[]" + rest) == Some((JArray([]), rest))
    ensures ReadValue("{}" + rest) == Some((JObject([]), rest))
  {
    assert ("[]" + rest)[1..] == "]" + rest;
    assert ("{}" + rest)[1..] == "}" + rest;
  }

  /** After an opening bracket, the whitespace is skipped and the first part begins. */
  lemma OpenBlock(level: nat, parts: seq<string>, tail: string)
    requires |parts| > 0 && |parts[0]| > 0 && StartsValue(parts[0][0])
    ensures SkipWhitespace(NewlineIndent(level + 1) + (Join(parts, Separator(level)) + tail))
            == Join(parts, Separator(level)) + tail
  {
    var inner := Join(parts, Separator(level)) + tail;
    SpacesAreWhitespace(level + 1);
    SkipWhitespacePrefix(NewlineIndent(level + 1), inner);
    JoinFirst(parts, Separator(level));
    SkipNothing(inner);
  }

  lemma ReadArray(j: Json, level: nat, rest: string)
    requires j.JArray? && |j.items| > 0
    ensures ReadValue(Encode(j, level) + rest) == Some((j, rest))
    decreases j, 1, 0
  {
    var parts := ItemTexts(j.items, level);
    var inner := Join(parts, Separator(level)) + Closing(level, ']', rest);
    var s := Encode(j, level) + rest;
    EncodeArray(j.items, level, rest);
    assert s[1..] == NewlineIndent(level + 1) + inner;
    OpenBlock(level, parts, Closing(level, ']', rest));
    SpacesAreWhitespace(level + 1);
    ReadItemsAfterWhitespace(NewlineIndent(level + 1), inner);
    assert parts[0..] == parts;
    ReadItemsText(j, 0, level, rest);
    assert j.items[0..] == j.items;
    ReadValueArray(s, j.items, rest);
  }

  /** Reading the items from the k-th on gives them back, up to the closing ']'. */
  lemma ReadItemsText(parent: Json, k: nat, level: nat, rest: string)
    requires parent.JArray? && k < |parent.items|
    ensures ReadItems(Join(ItemTexts(parent.items, level)[k..], Separator(level)) + Closing(level, ']', rest))
            == Some((parent.items[k..], rest))
    decreases parent, 0, |parent.items| - k
  {
    var parts := ItemTexts(parent.items, level)[k..];
    var item := parent.items[k];
    var tail := Closing(level, ']', rest);
    if k + 1 == |parent.items| {
      ClosingStart(level, ']', rest);
      ReadEncode(item, level + 1, tail);
      ReadLastItem(parent, k, level, rest);
    } else {
      ItemsAt(parent.items, level, k);
      var more := Join(parts[1..], Separator(level)) + tail;
      SeparatorRest(level, more);
      ReadEncode(item, level + 1, Separator(level) + more);
      ReadItemsText(parent, k + 1, level, rest);
      ReadItemsStep(parts, level, tail, item, parent.items[k + 1..], rest);
    }
  }

  lemma ReadLastItem(parent: Json, k: nat, level: nat, rest: string)
    requires parent.JArray? && k + 1 == |parent.items|
    requires ReadValue(Encode(parent.items[k], level + 1) + Closing(level, ']', rest))
             == Some((parent.items[k], Closing(level, ']', rest)))
    ensures ReadItems(Join(ItemTexts(parent.items, level)[k..], Separator(level)) + Closing(level, ']', rest))
            == Some((parent.items[k..], rest))
  {
    var parts := ItemTexts(parent.items, level)[k..];
    var item := parent.items[k];
    var tail := Closing(level, ']', rest);
    SkipToClose(level, ']', rest);
    assert Join(parts, Separator(level)) == Encode(item, level + 1);
    ReadItemsLast(Encode(item, level + 1) + tail, item, tail, rest);
    assert parent.items[k..] == [item];
  }

  lemma ItemsAt(items: seq<Json>, level: nat, k: nat)
    requires k + 1 < |items|
    ensures ItemTexts(items, level)[k..][0] == Encode(items[k], level + 1)
    ensures ItemTexts(items, level)[k..][1..] == ItemTexts(items, level)[k + 1..]
    ensures items[k..] == [items[k]] + items[k + 1..]
  {
  }

  /** The items of a block whose first part reads as one item and whose later parts read as the others. */
  lemma ReadItemsStep(parts: seq<string>, level: nat, tail: string, item: Json, items: seq<Json>, rest: string)
    requires |parts| > 1
    requires
      var more := Join(parts[1..], Separator(level)) + tail;
      && ReadValue(parts[0] + (Separator(level) + more)) == Some((item, Separator(level) + more))
      && ReadItems(more) == Some((items, rest))
    ensures ReadItems(Join(parts, Separator(level)) + tail) == Some(([item] + items, rest))
  {
    var more := Join(parts[1..], Separator(level)) + tail;
    var after := Separator(level) + more;
    JoinMore(parts, Separator(level), tail);
    SeparatorRest(level, more);
    SpacesAreWhitespace(level + 1);
    ReadItemsAfterWhitespace(NewlineIndent(level + 1), more);
    ReadItemsMore(parts[0] + after, item, after, items, rest);
  }

  lemma ReadObject(j: Json, level: nat, rest: string)
    requires j.JObject? && |j.members| > 0
    ensures ReadValue(Encode(j, level) + rest) == Some((j, rest))
    decreases j, 1, 0
  {
    var parts := MemberTexts(j.members, level);
    var inner := Join(parts, Separator(level)) + Closing(level, '}', rest);
    var s := Encode(j, level) + rest;
    EncodeObject(j.members, level, rest);
    assert s[1..] == NewlineIndent(level + 1) + inner;
    MemberTextsStart(j.members, level);
    OpenBlock(level, parts, Closing(level, '}', rest));
    SpacesAreWhitespace(level + 1);
    ReadMembersAfterWhitespace(NewlineIndent(level + 1), inner);
    assert parts[0..] == parts;
    ReadMembersText(j, 0, level, rest);
    assert j.members[0..] == j.members;
    ReadValueObject(s, j.members, rest);
  }

  /** Reading the members from the k-th on gives them back, up to the closing '}'. */
  lemma ReadMembersText(parent: Json, k: nat, level: nat, rest: string)
    requires parent.JObject? && k < |parent.members|
    ensures ReadMembers(Join(MemberTexts(parent.members, level)[k..], Separator(level)) + Closing(level, '}', rest))
            == Some((parent.members[k..], rest))
    decreases parent, 0, |parent.members| - k
  {
    var parts := MemberTexts(parent.members, level)[k..];
    var tail := Closing(level, '}', rest);
    if k + 1 == |parent.members| {
      ClosingStart(level, '}', rest);
      ReadMemberText(parent, k, level, tail);
      ReadLastMember(parent, k, level, rest);
    } else {
      MembersAt(parent.members, level, k);
      var more := Join(parts[1..], Separator(level)) + tail;
      SeparatorRest(level, more);
      ReadMemberText(parent, k, level, Separator(level) + more);
      ReadMembersText(parent, k + 1, level, rest);
      ReadMembersStep(parts, level, tail, parent.members[k], parent.members[k + 1..], rest);
    }
  }

  lemma ReadLastMember(parent: Json, k: nat, level: nat, rest: string)
    requires parent.JObject? && k + 1 == |parent.members|
    requires ReadMember(MemberTexts(parent.members, level)[k] + Closing(level, '}', rest))
             == Some((parent.members[k], Closing(level, '}', rest)))
    ensures ReadMembers(Join(MemberTexts(parent.members, level)[k..], Separator(level)) + Closing(level, '}', rest))
            == Some((parent.members[k..], rest))
  {
    var parts := MemberTexts(parent.members, level)[k..];
    var tail := Closing(level, '}', rest);
    SkipToClose(level, '}', rest);
    assert Join(parts, Separator(level)) == parts[0];
    ReadMembersLast(parts[0] + tail, parent.members[k], tail, rest);
    assert parent.members[k..] == [parent.members[k]];
  }

  lemma MembersAt(members: seq<(string, Json)>, level: nat, k: nat)
    requires k + 1 < |members|
    ensures MemberTexts(members, level)[k..][0] == MemberTexts(members, level)[k]
    ensures MemberTexts(members, level)[k..][1..] == MemberTexts(members, level)[k + 1..]
    ensures members[k..] == [members[k]] + members[k + 1..]
  {
  }

  /** The members of a block whose first part reads as one member and whose later parts read as the others. */
  lemma ReadMembersStep(parts: seq<string>, level: nat, tail: string, member: (string, Json), members: seq<(string, Json)>, rest: string)
    requires |parts| > 1
    requires
      var more := Join(parts[1..], Separator(level)) + tail;
      && ReadMember(parts[0] + (Separator(level) + more)) == Some((member, Separator(level) + more))
      && ReadMembers(more) == Some((members, rest))
    ensures ReadMembers(Join(parts, Separator(level)) + tail) == Some(([member] + members, rest))
  {
    var more := Join(parts[1..], Separator(level)) + tail;
    var after := Separator(level) + more;
    JoinMore(parts, Separator(level), tail);
    SeparatorRest(level, more);
    SpacesAreWhitespace(level + 1);
    ReadMembersAfterWhitespace(NewlineIndent(level + 1), more);
    ReadMembersMore(parts[0] + after, member, after, members, rest);
  }

  lemma MemberTextRest(key: string, value: string, rest: string)
    ensures MemberText(key, value) + rest == "\"" + (Escape(key) + "\"" + (": " + (value + rest)))
  {
  }

  /** Reading one member's text gives the key and the value back. */
  lemma ReadMemberText(parent: Json, k: nat, level: nat, rest: string)
    requires parent.JObject? && k < |parent.members| && EndsNumber(rest)
    ensures ReadMember(MemberTexts(parent.members, level)[k] + rest) == Some((parent.members[k], rest))
    decreases parent, 0, 0
  {
    var key, value := parent.members[k].0, parent.members[k].1;
    ReadEncode(value, level + 1, rest);
    ReadMemberOfText(key, Encode(value, level + 1), value, rest);
  }

  /** A member's text reads back as its key and the value its value text reads as. */
  lemma ReadMemberOfText(key: string, valueText: string, value: Json, rest: string)
    requires ReadValue(valueText + rest) == Some((value, rest))
    ensures ReadMember(MemberText(key, valueText) + rest) == Some(((key, value), rest))
  {
    var after := ": " + (valueText + rest);
    var s := MemberText(key, valueText) + rest;
    MemberTextRest(key, valueText, rest);
    DropFirst('"', Escape(key) + "\"" + after);
    ReadEscaped(key, after);
    DropFirst(':', " " + (valueText + rest));
    ReadValueAfterWhitespace(" ", valueText + rest);
    ReadMemberOf(s, key, after, value, rest);
  }

  /** json.load(json.dumps(j, indent=4)) == j. */
  lemma ParseDumps(j: Json)
    ensures Parse(Dumps(j)) == Some(j)
  {
    ReadEncode(j, 0, []);
    assert Dumps(j) + [] == Dumps(j);
  }
}
