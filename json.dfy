/**
 * JSON values and their text as `json.dumps(value, indent=4)` writes it
 * (main.py:59): four spaces of indentation per level, "," between items and
 * ": " between key and value, keys in insertion order, and, since `ensure_ascii`
 * is on by default, every character outside printable ASCII written as a \uXXXX
 * escape in lower-case hex, with a surrogate pair above U+FFFF.
 */
module Json {
  import opened Digits

  /** The JSON values the serializer builds: integers, strings, arrays and objects whose members keep their order. */
  datatype Json =
    | JInt(n: int)
    | JString(s: string)
    | JArray(items: seq<Json>)
    | JObject(members: seq<(string, Json)>)

  /** Text made only of printable ASCII characters and line breaks. */
  predicate IsAsciiText(s: string) { forall i :: 0 <= i < |s| ==> s[i] == '\n' || ' ' <= s[i] <= '~' }

  predicate IsPrintable(c: char) { ' ' <= c <= '~' }

  /** Text made only of printable ASCII characters. */
  predicate IsPrintableText(s: string) { forall i :: 0 <= i < |s| ==> IsPrintable(s[i]) }

  lemma AsciiAppend(a: string, b: string)
    requires IsAsciiText(a) && IsAsciiText(b)
    ensures IsAsciiText(a + b)
  {
  }

  // ---------------------------------------------------------------------------
  // Numbers
  // ---------------------------------------------------------------------------

  /** str(n) for an integer: its decimal numeral, with '-' in front of a negative one. */
  function IntText(n: int): (s: string)
    ensures IsPrintableText(s) && |s| > 0 && (s[0] == '-' || IsDigit(s[0]))
    ensures n >= 0 ==> AllDigits(s) && DigitsValue(s) == n
    ensures n < 0 ==> s[0] == '-' && AllDigits(s[1..]) && DigitsValue(s[1..]) == -n
  {
    if n < 0 then "-" + NatToDigits(-n) else NatToDigits(n)
  }

  // ---------------------------------------------------------------------------
  // Strings, ensure_ascii
  // ---------------------------------------------------------------------------

  function HexDigit(d: nat): (c: char)
    requires d < 16
    ensures IsPrintable(c)
  {
    if d < 10 then ('0' as int + d) as char else ('a' as int + (d - 10)) as char
  }

  /** The four lower-case hex digits of a 16-bit code unit. */
  function Hex4(n: nat): (s: string)
    requires n < 0x10000
    ensures |s| == 4 && IsPrintableText(s)
  {
    [HexDigit(n / 0x1000), HexDigit(n / 0x100 % 0x10), HexDigit(n / 0x10 % 0x10), HexDigit(n % 0x10)]
  }

  /** The escape of one character outside printable ASCII: one \uXXXX, or a surrogate pair above U+FFFF. */
  function UnicodeEscape(c: char): (s: string)
    ensures IsPrintableText(s)
  {
    var n := c as int;
    if n < 0x10000 then "\\u" + Hex4(n)
    else
      var v := n - 0x10000;
      "\\u" + Hex4(0xD800 + v / 0x400) + "\\u" + Hex4(0xDC00 + v % 0x400)
  }

  /** How one character of a string appears between the quotes. */
  function EscapeChar(c: char): (s: string)
    ensures |s| > 0 && IsPrintableText(s)
    ensures IsPrintable(c) && c != '"' && c != '\\' ==> s == [c]
    ensures !IsPrintable(c) || c == '"' || c == '\\' ==> |s| >= 2 && s[0] == '\\'
  {
    if c == '"' then "\\\""
    else if c == '\\' then "\\\\"
    else if c == '\n' then "\\n"
    else if c == '\r' then "\\r"
    else if c == '\t' then "\\t"
    else if c == '\U{8}' then "\\b"
    else if c == '\U{C}' then "\\f"
    else if IsPrintable(c) then [c]
    else UnicodeEscape(c)
  }

  /** The characters of a string as they appear between the quotes, one escape per character. */
  function Escape(s: string): (r: string)
    ensures IsPrintableText(r) && |r| >= |s|
  {
    if s == [] then [] else EscapeChar(s[0]) + Escape(s[1..])
  }

  /** A string literal: the escaped characters between double quotes. */
  function Quote(s: string): (r: string)
    ensures IsPrintableText(r) && |r| >= |s| + 2
  {
    "\"" + Escape(s) + "\""
  }

  // ---------------------------------------------------------------------------
  // Layout, indent=4
  // ---------------------------------------------------------------------------

  function Spaces(level: nat): (s: string)
    ensures IsAsciiText(s)
  {
    if level == 0 then "" else "    " + Spaces(level - 1)
  }

  /** A line break followed by the indentation of the given nesting level. */
  function NewlineIndent(level: nat): (s: string)
    ensures IsAsciiText(s)
  {
    "\n" + Spaces(level)
  }

  /** The parts, in order, with sep between consecutive parts. */
  function Join(parts: seq<string>, sep: string): (s: string)
    ensures IsAsciiText(sep) && (forall i :: 0 <= i < |parts| ==> IsAsciiText(parts[i])) ==> IsAsciiText(s)
  {
    if |parts| == 0 then ""
    else if |parts| == 1 then parts[0]
    else parts[0] + sep + Join(parts[1..], sep)
  }

  /**
   * A non-empty array or object at the given level: the opening bracket, each part on a
   * line of its own one level deeper, separated by ",", and the closing bracket on a line
   * at the level itself.
   */
  function Block(open: char, close: char, parts: seq<string>, level: nat): (s: string)
    requires IsPrintable(open) && IsPrintable(close)
    ensures (forall i :: 0 <= i < |parts| ==> IsAsciiText(parts[i])) ==> IsAsciiText(s)
  {
    [open] + NewlineIndent(level + 1) + Join(parts, "," + NewlineIndent(level + 1)) + NewlineIndent(level) + [close]
  }

  /** The text of one object member: the quoted key, ": ", the value's text. */
  function MemberText(key: string, value: string): (s: string)
    ensures IsAsciiText(value) ==> IsAsciiText(s)
  {
    Quote(key) + ": " + value
  }

  /** The characters a JSON value's text can start with. */
  predicate StartsValue(c: char) { c == '"' || c == '[' || c == '{' || c == '-' || IsDigit(c) }

  /** The text of j nested at the given level. */
  function Encode(j: Json, level: nat): (s: string)
    ensures IsAsciiText(s) && |s| > 0 && StartsValue(s[0])
    decreases j
  {
    match j
    case JInt(n) => IntText(n)
    case JString(str) => Quote(str)
    case JArray(items) =>
      if |items| == 0 then "[]"
      else Block('[', ']', seq(|items|, i requires 0 <= i < |items| => Encode(items[i], level + 1)), level)
    case JObject(members) =>
      if |members| == 0 then "{}"
      else Block('{', '}', seq(|members|, i requires 0 <= i < |members| =>
                                MemberText(members[i].0, Encode(members[i].1, level + 1))), level)
  }

  /** json.dumps(j, indent=4): the text is printable ASCII and line breaks only. */
  function Dumps(j: Json): (s: string)
    ensures IsAsciiText(s)
  {
    Encode(j, 0)
  }
}
