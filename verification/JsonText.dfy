/**
`json.dumps` of strings (ASCII output) and the target text of an authority triple
(src/stackowl/authz/standing_authority.py:93-103; string escapes of section 7 of RFC 8259).
Dafny's characters are Unicode scalar values, so there are no lone surrogates.
*/
module JsonText {
  import Payload

  function HexDigit(n: nat): char
    requires n < 16
  {
    "0123456789abcdef"[n]
  }

  function HexDigitValue(c: char): int {
    if c <= '9' then c as int - '0' as int else c as int - 'a' as int + 10
  }

  function Hex4(n: nat): (s: string)
    requires n < 0x10000
    ensures |s| == 4
  {
    var q := n / 16;
    var r := q / 16;
    [HexDigit(r / 16), HexDigit(r % 16), HexDigit(q % 16), HexDigit(n % 16)]
  }

  function Hex4Value(s: string): int
    requires |s| == 4
  {
    4096 * HexDigitValue(s[0]) + 256 * HexDigitValue(s[1]) + 16 * HexDigitValue(s[2]) + HexDigitValue(s[3])
  }

  lemma HexDigitRoundTrip(n: nat)
    requires n < 16
    ensures HexDigitValue(HexDigit(n)) == n
  {
  }

  lemma Hex4RoundTrip(n: nat)
    requires n < 0x10000
    ensures Hex4Value(Hex4(n)) == n
  {
    hide HexDigit, HexDigitValue;
    var q := n / 16;
    var r := q / 16;
    HexDigitRoundTrip(r / 16);
    HexDigitRoundTrip(r % 16);
    HexDigitRoundTrip(q % 16);
    HexDigitRoundTrip(n % 16);
    assert r == 16 * (r / 16) + r % 16 && q == 16 * r + q % 16 && n == 16 * q + n % 16;
  }

  function UnicodeEscape(n: nat): (s: string)
    requires n < 0x10000
    ensures |s| == 6 && s[0] == '\\' && s[1] == 'u' && s[2..6] == Hex4(n)
  {
    "\\u" + Hex4(n)
  }

  function EscapeChar(c: char): (s: string)
    ensures |s| > 0 && s[0] != '"'
  {
    if c == '"' then "\\\""
    else if c == '\\' then "\\\\"
    else if c == '\n' then "\\n"
    else if c == '\r' then "\\r"
    else if c == '\t' then "\\t"
    else if c == '\U{0c}' then "\\f"
    else if c == '\U{08}' then "\\b"
    else if ' ' <= c <= '~' then [c]
    else if c as int < 0x10000 then UnicodeEscape(c as int)
    else
      var n := c as int - 0x10000;
      UnicodeEscape(0xd800 + n / 1024) + UnicodeEscape(0xdc00 + n % 1024)
  }

  /** Reads one character back off the front: its code and how many characters of text it took. */
  function ReadChar(t: string): (int, nat) {
    if |t| < 2 || t[0] != '\\' then (if t == "" then 0 else t[0] as int, 1)
    else if t[1] == 'n' then ('\n' as int, 2)
    else if t[1] == 'r' then ('\r' as int, 2)
    else if t[1] == 't' then ('\t' as int, 2)
    else if t[1] == 'f' then (0x0c, 2)
    else if t[1] == 'b' then (0x08, 2)
    else if t[1] != 'u' || |t| < 6 then (t[1] as int, 2)
    else
      var high := Hex4Value(t[2..6]);
      if 0xd800 <= high < 0xdc00 && |t| >= 12
      then (0x10000 + 1024 * (high - 0xd800) + Hex4Value(t[8..12]) - 0xdc00, 12)
      else (high, 6)
  }

  /** A two-part escape: the text of the two halves, wherever it stands. */
  lemma ReadSurrogates(high: nat, low: nat, rest: string)
    requires 0xd800 <= high < 0xdc00 <= low < 0xe000
    ensures ReadChar(UnicodeEscape(high) + UnicodeEscape(low) + rest)
            == (0x10000 + 1024 * (high - 0xd800) + low - 0xdc00, 12)
  {
    hide Hex4, Hex4Value;
    var t := UnicodeEscape(high) + UnicodeEscape(low) + rest;
    assert t[2..6] == UnicodeEscape(high)[2..6] && t[8..12] == UnicodeEscape(low)[2..6];
    Hex4RoundTrip(high);
    Hex4RoundTrip(low);
  }

  lemma ReadUnicodeEscape(n: nat, rest: string)
    requires n < 0xd800 || 0xe000 <= n < 0x10000
    ensures ReadChar(UnicodeEscape(n) + rest) == (n, 6)
  {
    hide Hex4, Hex4Value;
    var t := UnicodeEscape(n) + rest;
    assert t[2..6] == UnicodeEscape(n)[2..6];
    Hex4RoundTrip(n);
  }

  lemma ReadCharRoundTrip(c: char, rest: string)
    ensures ReadChar(EscapeChar(c) + rest) == (c as int, |EscapeChar(c)|)
  {
    hide Hex4, Hex4Value, UnicodeEscape;
    if ' ' <= c <= '~' || c == '\n' || c == '\r' || c == '\t' || c == '\U{0c}' || c == '\U{08}' {
    } else if c as int < 0x10000 {
      ReadUnicodeEscape(c as int, rest);
    } else {
      var n := c as int - 0x10000;
      ReadSurrogates(0xd800 + n / 1024, 0xdc00 + n % 1024, rest);
    }
  }

  /** No character's escape is a prefix of another's. */
  lemma EscapeCharCancels(c: char, d: char, x: string, y: string)
    requires EscapeChar(c) + x == EscapeChar(d) + y
    ensures c == d && x == y
  {
    hide EscapeChar, ReadChar;
    ReadCharRoundTrip(c, x);
    ReadCharRoundTrip(d, y);
    Payload.SplitAt(EscapeChar(c), EscapeChar(d), x, y);
  }

  function Escape(s: string): string {
    if s == "" then "" else EscapeChar(s[0]) + Escape(s[1..])
  }

  function Quote(s: string): string {
    "\"" + Escape(s) + "\""
  }

  /** Printable ASCII without quotes and backslashes. */
  predicate IsPlain(s: string) {
    forall i :: 0 <= i < |s| ==> ' ' <= s[i] <= '~' && s[i] != '"' && s[i] != '\\'
  }

  /** Plain text is quoted as it stands. */
  lemma {:induction false} PlainQuote(s: string)
    requires IsPlain(s)
    ensures Quote(s) == "\"" + s + "\""
    decreases |s|
  {
    if s != "" {
      PlainQuote(s[1..]);
      PlainEscape(s[1..]);
      assert EscapeChar(s[0]) == [s[0]] && s == [s[0]] + s[1..];
    }
  }

  lemma PlainEscape(s: string)
    requires Quote(s) == "\"" + s + "\""
    ensures Escape(s) == s
  {
    hide Escape;
    assert Quote(s)[1..|Quote(s)| - 1] == Escape(s);
    assert ("\"" + s + "\"")[1..|s| + 1] == s;
  }

  lemma {:induction false} EscapeEndsAtQuote(s: string, t: string, x: string, y: string)
    requires Escape(s) + ("\"" + x) == Escape(t) + ("\"" + y)
    ensures s == t && x == y
  {
    hide EscapeChar;
    var u := Escape(s) + ("\"" + x);
    assert if s == "" then u[0] == '"' else u[0] == EscapeChar(s[0])[0];
    assert if t == "" then u[0] == '"' else u[0] == EscapeChar(t[0])[0];
    if s == "" {
      assert u == "\"" + x == "\"" + y;
      Payload.SplitAt("\"", "\"", x, y);
    } else {
      assert u == EscapeChar(s[0]) + (Escape(s[1..]) + ("\"" + x));
      assert u == EscapeChar(t[0]) + (Escape(t[1..]) + ("\"" + y));
      EscapeCharCancels(s[0], t[0], Escape(s[1..]) + ("\"" + x), Escape(t[1..]) + ("\"" + y));
      EscapeEndsAtQuote(s[1..], t[1..], x, y);
    }
  }

  /** A quoted string can be read off the front of any text in only one way. */
  lemma QuoteCancels(s: string, t: string, x: string, y: string)
    requires Quote(s) + x == Quote(t) + y
    ensures s == t && x == y
  {
    hide Escape;
    assert Quote(s) + x == "\"" + (Escape(s) + ("\"" + x));
    assert Quote(t) + y == "\"" + (Escape(t) + ("\"" + y));
    Payload.SplitAt("\"", "\"", Escape(s) + ("\"" + x), Escape(t) + ("\"" + y));
    EscapeEndsAtQuote(s, t, x, y);
  }

  function Array3(a: string, b: string, c: string): string {
    "[" + Quote(a) + "," + Quote(b) + "," + Quote(c) + "]"
  }

  /** Two JSON arrays of three strings with the same text hold the same strings. */
  lemma Array3Injective(a: string, b: string, c: string, a': string, b': string, c': string)
    requires Array3(a, b, c) == Array3(a', b', c')
    ensures a == a' && b == b' && c == c'
  {
    hide Quote;
    var x, x' := "," + (Quote(b) + ("," + (Quote(c) + "]"))), "," + (Quote(b') + ("," + (Quote(c') + "]")));
    assert Array3(a, b, c) == "[" + (Quote(a) + x) && Array3(a', b', c') == "[" + (Quote(a') + x');
    Payload.SplitAt("[", "[", Quote(a) + x, Quote(a') + x');
    QuoteCancels(a, a', x, x');
    Payload.SplitAt(",", ",", Quote(b) + ("," + (Quote(c) + "]")), Quote(b') + ("," + (Quote(c') + "]")));
    QuoteCancels(b, b', "," + (Quote(c) + "]"), "," + (Quote(c') + "]"));
    Payload.SplitAt(",", ",", Quote(c) + "]", Quote(c') + "]");
    QuoteCancels(c, c', "]", "]");
  }
}
