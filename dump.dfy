/** A serializer standing in for `json.dumps(value, indent=4, separators=('', ' = '))`:
    four-space indentation, nothing between items, `" = "` between a key and its value, and
    string literals escaped as `ensure_ascii` does. Only the layout and escaping that the
    later text passes depend on are modelled; byte equality with Python is not claimed. */
module JsonDump {
  import opened Outcomes
  import opened JsonValues

  function HexDigit(d: nat): (c: char)
    requires d < 16
    ensures '0' <= c <= 'f'
  {
    "0123456789abcdef"[d]
  }

  /** Four lower-case hexadecimal digits, as `'\\u{0:04x}'.format(n)` writes them. */
  function Hex4(n: nat): (r: string)
    requires n < 0x10000
    ensures |r| == 4 && forall i :: 0 <= i < 4 ==> '0' <= r[i] <= 'f'
  {
    [HexDigit(n / 16 / 16 / 16), HexDigit(n / 16 / 16 % 16), HexDigit(n / 16 % 16), HexDigit(n % 16)]
  }

  /** A backslash, `u` and four digits, for a character of the basic plane. */
  function UnicodeEscape(n: nat): (r: string)
    requires n < 0x10000
    ensures |r| == 6 && forall i :: 0 <= i < 6 ==> ' ' <= r[i] <= '~'
  {
    "\\u" + Hex4(n)
  }

  predicate IsSurrogate(n: int)
  {
    0xD800 <= n < 0xE000
  }

  /** How one character is written inside a string literal. Printable ASCII other than the
      quote and the backslash stands for itself; everything else is a backslash escape, and a
      character outside the basic plane becomes a surrogate pair (the additions below equal the
      bitwise `0xd800 | ((n >> 10) & 0x3ff)` and `0xdc00 | (n & 0x3ff)` on this range). */
  function EscapeChar(c: char): (r: string)
    ensures |r| >= 1
    ensures forall i :: 0 <= i < |r| ==> ' ' <= r[i] <= '~'
  {
    var n := c as int;
    if c == '"' then "\\\""
    else if c == '\\' then "\\\\"
    else if c == '\n' then "\\n"
    else if c == '\r' then "\\r"
    else if c == '\t' then "\\t"
    else if n == 8 then "\\b"
    else if n == 12 then "\\f"
    else if 0x20 <= n < 0x7F then [c]
    else if n < 0x10000 then UnicodeEscape(n)
    else
      var m := n - 0x10000;
      UnicodeEscape(0xD800 + m / 1024) + UnicodeEscape(0xDC00 + m % 1024)
  }

  function Escape(s: string): (r: string)
    ensures forall i :: 0 <= i < |r| ==> ' ' <= r[i] <= '~'
  {
    if s == [] then [] else EscapeChar(s[0]) + Escape(s[1..])
  }

  /** A string literal. */
  function Quote(s: string): string
  {
    "\"" + Escape(s) + "\""
  }

  function HexValue(c: char): (r: Option<nat>)
    ensures r.Some? ==> r.value < 16
  {
    if '0' <= c <= '9' then Some(c as int - '0' as int)
    else if 'a' <= c <= 'f' then Some(c as int - 'a' as int + 10)
    else if 'A' <= c <= 'F' then Some(c as int - 'A' as int + 10)
    else None
  }

  function Hex4Value(t: string): (r: Option<nat>)
    requires |t| == 4
    ensures r.Some? ==> r.value < 0x10000
  {
    var a, b, c, d := HexValue(t[0]), HexValue(t[1]), HexValue(t[2]), HexValue(t[3]);
    if a.Some? && b.Some? && c.Some? && d.Some? then Some(((a.value * 16 + b.value) * 16 + c.value) * 16 + d.value)
    else None
  }

  /** Reads the first character of an escaped text: the character and how many text characters
      it took. */
  function DecodeOne(t: string): (r: Option<(char, nat)>)
    ensures r.Some? ==> 0 < r.value.1 <= |t|
  {
    if |t| == 0 then None
    else if t[0] != '\\' then
      if ' ' <= t[0] <= '~' && t[0] != '"' then Some((t[0], 1)) else None
    else if |t| < 2 then None
    else if t[1] == '"' then Some(('"', 2))
    else if t[1] == '\\' then Some(('\\', 2))
    else if t[1] == 'n' then Some(('\n', 2))
    else if t[1] == 'r' then Some(('\r', 2))
    else if t[1] == 't' then Some(('\t', 2))
    else if t[1] == 'b' then Some((8 as char, 2))
    else if t[1] == 'f' then Some((12 as char, 2))
    else if t[1] != 'u' || |t| < 6 then None
    else
      var h := Hex4Value(t[2..6]);
      if h.None? then None
      else if !IsSurrogate(h.value) then Some((h.value as char, 6))
      else if h.value < 0xDC00 && |t| >= 12 && t[6] == '\\' && t[7] == 'u' then
        var l := Hex4Value(t[8..12]);
        if l.Some? && 0xDC00 <= l.value < 0xE000 then
          Some(((0x10000 + (h.value - 0xD800) * 1024 + (l.value - 0xDC00)) as char, 12))
        else None
      else None
  }

  /** Reads a whole escaped text back. */
  function Unescape(t: string): Option<string>
    decreases |t|
  {
    if t == [] then Some([])
    else
      var d := DecodeOne(t);
      if d.None? then None
      else
        var rest := Unescape(t[d.value.1..]);
        if rest.None? then None else Some([d.value.0] + rest.value)
  }

  /** Reads a string literal back. */
  function Unquote(q: string): Option<string>
  {
    if |q| >= 2 && q[0] == '"' && q[|q| - 1] == '"' then Unescape(q[1..|q| - 1]) else None
  }

  lemma HexDigitValue(d: nat)
    requires d < 16
    ensures HexValue(HexDigit(d)) == Some(d)
  {
  }

  /** Four digits read back as the number they spell. */
  lemma Hex4ValueOf(t: string, a: nat, b: nat, c: nat, d: nat)
    requires |t| == 4
    requires HexValue(t[0]) == Some(a) && HexValue(t[1]) == Some(b)
    requires HexValue(t[2]) == Some(c) && HexValue(t[3]) == Some(d)
    ensures Hex4Value(t) == Some(((a * 16 + b) * 16 + c) * 16 + d)
  {
  }

  /** The digits of `Hex4(n)` read back one by one. */
  lemma Hex4Digits(n: nat)
    requires n < 0x10000
    ensures HexValue(Hex4(n)[0]) == Some(n / 16 / 16 / 16)
    ensures HexValue(Hex4(n)[1]) == Some(n / 16 / 16 % 16)
    ensures HexValue(Hex4(n)[2]) == Some(n / 16 % 16)
    ensures HexValue(Hex4(n)[3]) == Some(n % 16)
  {
    HexDigitValue(n / 16 / 16 / 16);
    HexDigitValue(n / 16 / 16 % 16);
    HexDigitValue(n / 16 % 16);
    HexDigitValue(n % 16);
  }

  lemma Hex4RoundTrip(n: nat)
    requires n < 0x10000
    ensures Hex4Value(Hex4(n)) == Some(n)
  {
    var q1 := n / 16;
    var q2 := q1 / 16;
    var q3 := q2 / 16;
    Hex4Digits(n);
    Hex4ValueOf(Hex4(n), q3, q2 % 16, q1 % 16, n % 16);
    assert n == q1 * 16 + n % 16 && q1 == q2 * 16 + q1 % 16 && q2 == q3 * 16 + q2 % 16;
  }

  /** A `\\u` escape of the basic plane reads back as its character. */
  lemma DecodeUnicodeEscape(c: char, rest: string)
    requires c as int < 0x10000
    ensures DecodeOne(UnicodeEscape(c as int) + rest) == Some((c, 6))
  {
    var n := c as int;
    var t := UnicodeEscape(n) + rest;
    assert t[2..6] == Hex4(n);
    Hex4RoundTrip(n);
  }

  /** Where the two escapes of a pair sit in the text that continues after them. */
  lemma PairSlices(a: nat, b: nat, rest: string)
    requires a < 0x10000 && b < 0x10000
    ensures var t := UnicodeEscape(a) + UnicodeEscape(b) + rest;
      && |t| >= 12 && t[0] == '\\' && t[1] == 'u' && t[6] == '\\' && t[7] == 'u'
      && t[2..6] == Hex4(a) && t[8..12] == Hex4(b)
  {
    var t := UnicodeEscape(a) + UnicodeEscape(b) + rest;
    assert t[..6] == UnicodeEscape(a);
    assert t[6..12] == UnicodeEscape(b);
  }

  /** The high half of a surrogate pair precedes the low half's range, and together they give
      back the character. */
  lemma SurrogateHalves(n: nat)
    requires 0x10000 <= n < 0x110000
    ensures 0xD800 <= 0xD800 + (n - 0x10000) / 1024 < 0xDC00 <= 0xDC00 + (n - 0x10000) % 1024 < 0xE000
    ensures 0x10000 + (n - 0x10000) / 1024 * 1024 + (n - 0x10000) % 1024 == n
  {
  }

  /** A surrogate pair reads back as the character it stands for. */
  lemma DecodeSurrogatePair(a: nat, b: nat, rest: string)
    requires 0xD800 <= a < 0xDC00 <= b < 0xE000
    ensures DecodeOne(UnicodeEscape(a) + UnicodeEscape(b) + rest)
      == Some(((0x10000 + (a - 0xD800) * 1024 + (b - 0xDC00)) as char, 12))
  {
    PairSlices(a, b, rest);
    Hex4RoundTrip(a);
    Hex4RoundTrip(b);
  }

  /** Each escape reads back as the character it stands for, whatever follows it. */
  lemma DecodeEscapeChar(c: char, rest: string)
    ensures DecodeOne(EscapeChar(c) + rest) == Some((c, |EscapeChar(c)|))
  {
    var n := c as int;
    if c == '"' || c == '\\' || c == '\n' || c == '\r' || c == '\t' || n == 8 || n == 12 {
    } else if 0x20 <= n < 0x7F {
    } else if n < 0x10000 {
      DecodeUnicodeEscape(c, rest);
    } else {
      var m := n - 0x10000;
      SurrogateHalves(n);
      DecodeSurrogatePair(0xD800 + m / 1024, 0xDC00 + m % 1024, rest);
    }
  }

  /** Escaping is undone by reading the text back. */
  lemma {:induction false} UnescapeEscape(s: string)
    ensures Unescape(Escape(s)) == Some(s)
  {
    if s != [] {
      var e := EscapeChar(s[0]);
      DecodeEscapeChar(s[0], Escape(s[1..]));
      assert (e + Escape(s[1..]))[|e|..] == Escape(s[1..]);
      UnescapeEscape(s[1..]);
      assert s == [s[0]] + s[1..];
    }
  }

  /** A string literal reads back as the string, and never spans two lines. */
  lemma QuoteRoundTrip(s: string)
    ensures Unquote(Quote(s)) == Some(s)
    ensures '\n' !in Quote(s)
  {
    var q := Quote(s);
    assert q[1..|q| - 1] == Escape(s);
    UnescapeEscape(s);
  }

  function Indent(level: nat): (r: string)
    ensures |r| == 4 * level && forall i :: 0 <= i < |r| ==> r[i] == ' '
  {
    seq(4 * level, _ => ' ')
  }

  function Concat(parts: seq<string>): string
  {
    if parts == [] then [] else parts[0] + Concat(parts[1..])
  }

  /** The text of a value nested `level` deep. A list puts each item on its own line, a
      dictionary puts each `"key" = value` entry on its own line, and the closing bracket goes
      on a line of its own at the enclosing indentation; empty containers stay on one line. */
  function Dump(j: Json, level: nat): string
    decreases j
  {
    match j
    case JNull => "null"
    case JBool(b) => if b then "true" else "false"
    case JInt(i) => IntToString(i)
    case JStr(s) => Quote(s)
    case JArr(items) =>
      if |items| == 0 then "[]"
      else
        "[" + Concat(seq(|items|, k requires 0 <= k < |items| =>
                 "\n" + Indent(level + 1) + Dump(items[k], level + 1)))
        + "\n" + Indent(level) + "]"
    case JObj(fields) =>
      if |fields| == 0 then "{}"
      else
        "{" + Concat(seq(|fields|, k requires 0 <= k < |fields| =>
                 "\n" + Indent(level + 1) + Quote(fields[k].0) + " = " + Dump(fields[k].1, level + 1)))
        + "\n" + Indent(level) + "}"
  }

  /** `json.dumps(j, indent=4, separators=('', ' = '))`. */
  function Dumps(j: Json): string
  {
    Dump(j, 0)
  }
}
