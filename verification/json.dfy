/** The part of Python's `json` module the modelled code relies on:
    scalar values with Python truthiness, and `json.dumps` (default
    arguments: `ensure_ascii=True`, separators `", "` and `": "`) for
    strings, lists of strings and flat objects. A decoder for the
    string syntax is given as the reference the encoder is checked
    against. */
module Json {
  import opened Wrappers
  import opened Text

  /** A JSON scalar as `json.loads` returns it (`None`, `bool`, `int`, `str`). */
  datatype Value = VNone | VBool(b: bool) | VInt(i: int) | VStr(s: string)

  /** Python truthiness of a scalar. */
  predicate Truthy(v: Value) {
    match v
    case VNone => false
    case VBool(b) => b
    case VInt(i) => i != 0
    case VStr(s) => |s| > 0
  }

  /** The number a scalar stands for in Python arithmetic and comparison:
      `bool` is a subclass of `int`. */
  function NumberOf(v: Value): Option<int> {
    match v
    case VBool(b) => Some(if b then 1 else 0)
    case VInt(i) => Some(i)
    case _ => None
  }

  /** Python's `==` on scalars, which is also how a dict compares keys:
      `True == 1` and `False == 0`, while values of other kinds are equal
      only when identical. */
  predicate PyEq(a: Value, b: Value) {
    if NumberOf(a).Some? && NumberOf(b).Some? then NumberOf(a).value == NumberOf(b).value else a == b
  }

  /** `PyEq` is an equivalence, as dict keys require. */
  lemma PyEqEquivalence(a: Value, b: Value, c: Value)
    ensures PyEq(a, a)
    ensures PyEq(a, b) <==> PyEq(b, a)
    ensures PyEq(a, b) && PyEq(b, c) ==> PyEq(a, c)
  {
  }

  /** The two identifications Python makes between distinct scalars. */
  lemma PyEqBoolInt()
    ensures PyEq(VBool(true), VInt(1)) && PyEq(VBool(false), VInt(0))
    ensures !PyEq(VBool(true), VInt(2)) && !PyEq(VStr("1"), VInt(1))
  {
  }

  /** Python's `str(v)` of a scalar. */
  function ToStr(v: Value): string {
    match v
    case VNone => "None"
    case VBool(b) => if b then "True" else "False"
    case VInt(i) => IntToString(i)
    case VStr(s) => s
  }

  // ---------------------------------------------------------------------
  // Encoding
  // ---------------------------------------------------------------------

  /** Four lower-case hexadecimal digits of `x`, as `'{0:04x}'.format(x)`. */
  function Hex4(x: nat): (h: string)
    requires x < 0x10000
    ensures |h| == 4
  {
    var x1 := x / 16;
    var x2 := x1 / 16;
    [HexDigit(x2 / 16), HexDigit(x2 % 16), HexDigit(x1 % 16), HexDigit(x % 16)]
  }

  /** How `json.dumps` writes one character inside a string literal:
      the short escapes, printable ASCII as itself, everything else as
      `\uXXXX` (a UTF-16 surrogate pair above U+FFFF). */
  function EscapeChar(c: char): (e: string)
    ensures |e| > 0
  {
    if c == '"' then "\\\""
    else if c == '\\' then "\\\\"
    else if c == '\n' then "\\n"
    else if c == '\r' then "\\r"
    else if c == '\t' then "\\t"
    else if c == '\U{8}' then "\\b"
    else if c == '\U{c}' then "\\f"
    else if ' ' <= c <= '~' then [c]
    else if (c as int) < 0x10000 then "\\u" + Hex4(c as int)
    else AstralEscape(c)
  }

  /** A character above U+FFFF as two `\uXXXX` escapes of its UTF-16
      surrogate pair. */
  function AstralEscape(c: char): string
    requires (c as int) >= 0x10000
  {
    var n := c as int - 0x10000;
    "\\u" + Hex4(0xD800 + n / 0x400) + "\\u" + Hex4(0xDC00 + n % 0x400)
  }

  /** The body of the string literal (without its quotes). */
  function EscapeString(s: string): string {
    if |s| == 0 then "" else EscapeChar(s[0]) + EscapeString(s[1..])
  }

  /** `json.dumps(s)` for a string. */
  function DumpsString(s: string): string {
    "\"" + EscapeString(s) + "\""
  }

  /** `json.dumps` of a list whose elements are already encoded. */
  function DumpsList(items: seq<string>): string {
    "[" + Join(items, ", ") + "]"
  }

  /** `json.dumps` of an object whose keys are given in insertion order and
      whose values are already encoded. */
  function DumpsObject(fields: seq<(string, string)>): string {
    "{" + Join(FieldTexts(fields), ", ") + "}"
  }

  function FieldTexts(fields: seq<(string, string)>): (r: seq<string>)
    ensures |r| == |fields|
  {
    if |fields| == 0 then [] else [DumpsString(fields[0].0) + ": " + fields[0].1] + FieldTexts(fields[1..])
  }

  /** `json.dumps(list_of_strings)`. */
  function DumpsStrings(ss: seq<string>): string {
    DumpsList(EncodeAll(ss))
  }

  function EncodeAll(ss: seq<string>): (r: seq<string>)
    ensures |r| == |ss|
  {
    if |ss| == 0 then [] else [DumpsString(ss[0])] + EncodeAll(ss[1..])
  }

  predicate PrintableAscii(s: string) {
    forall i :: 0 <= i < |s| ==> ' ' <= s[i] <= '~'
  }

  /** With `ensure_ascii`, the encoded text is printable ASCII whatever the input. */
  lemma {:induction false} EscapeStringIsAscii(s: string)
    ensures PrintableAscii(EscapeString(s))
    decreases |s|
  {
    if |s| > 0 {
      EscapeStringIsAscii(s[1..]);
      EscapeCharIsAscii(s[0]);
      PrintableConcat(EscapeChar(s[0]), EscapeString(s[1..]));
    }
  }

  lemma Hex4IsAscii(x: nat)
    requires x < 0x10000
    ensures PrintableAscii(Hex4(x))
  {
  }

  /** A `\\uXXXX` escape is printable ASCII. */
  lemma UEscapeIsAscii(x: nat)
    requires x < 0x10000
    ensures PrintableAscii("\\u" + Hex4(x))
  {
    Hex4IsAscii(x);
    PrintableConcat("\\u", Hex4(x));
  }

  lemma EscapeCharIsAscii(c: char)
    ensures PrintableAscii(EscapeChar(c))
  {
    if (c as int) >= 0x10000 {
      var n := c as int - 0x10000;
      var p := "\\u" + Hex4(0xD800 + n / 0x400);
      var q := "\\u" + Hex4(0xDC00 + n % 0x400);
      UEscapeIsAscii(0xD800 + n / 0x400);
      UEscapeIsAscii(0xDC00 + n % 0x400);
      AstralEscapeHalves(c, p, q);
      PrintableConcat(p, q);
    } else if (c as int) >= 0x7F || c < ' ' {
      UEscapeIsAscii(c as int);
    }
  }

  lemma PrintableConcat(a: string, b: string)
    requires PrintableAscii(a) && PrintableAscii(b)
    ensures PrintableAscii(a + b)
  {
    forall i | 0 <= i < |a + b| ensures ' ' <= (a + b)[i] <= '~' {
      if i >= |a| { assert (a + b)[i] == b[i - |a|]; }
    }
  }

  // ---------------------------------------------------------------------
  // Decoding (the reference for the encoder)
  // ---------------------------------------------------------------------

  function HexValue(c: char): nat {
    if '0' <= c <= '9' then (c as int) - 48
    else if 'a' <= c <= 'f' then (c as int) - 87
    else if 'A' <= c <= 'F' then (c as int) - 55
    else 0
  }

  predicate IsHex(c: char) {
    '0' <= c <= '9' || 'a' <= c <= 'f' || 'A' <= c <= 'F'
  }

  /** `e[i..i+4]` are four hexadecimal digits. */
  predicate Hex4At(e: string, i: nat) {
    i + 4 <= |e| && IsHex(e[i]) && IsHex(e[i + 1]) && IsHex(e[i + 2]) && IsHex(e[i + 3])
  }

  function Hex4Value(e: string, i: nat): nat
    requires Hex4At(e, i)
  {
    ((HexValue(e[i]) * 16 + HexValue(e[i + 1])) * 16 + HexValue(e[i + 2])) * 16 + HexValue(e[i + 3])
  }

  predicate IsScalar(v: int) {
    0 <= v < 0xD800 || 0xE000 <= v < 0x110000
  }

  /** Decodes the body of a JSON string literal; `None` for an unescaped
      quote, a malformed escape or a lone surrogate. */
  function Unescape(e: string): Option<string>
    decreases |e|
  {
    if |e| == 0 then Some("")
    else if e[0] == '"' then None
    else if e[0] != '\\' then Prepend(e[0], Unescape(e[1..]))
    else if |e| < 2 then None
    else if e[1] == '"' then Prepend('"', Unescape(e[2..]))
    else if e[1] == '\\' then Prepend('\\', Unescape(e[2..]))
    else if e[1] == '/' then Prepend('/', Unescape(e[2..]))
    else if e[1] == 'n' then Prepend('\n', Unescape(e[2..]))
    else if e[1] == 'r' then Prepend('\r', Unescape(e[2..]))
    else if e[1] == 't' then Prepend('\t', Unescape(e[2..]))
    else if e[1] == 'b' then Prepend('\U{8}', Unescape(e[2..]))
    else if e[1] == 'f' then Prepend('\U{c}', Unescape(e[2..]))
    else if e[1] != 'u' || !Hex4At(e, 2) then None
    else
      var hi := Hex4Value(e, 2);
      if 0xD800 <= hi < 0xDC00 then
        if |e| >= 8 && e[6] == '\\' && e[7] == 'u' && Hex4At(e, 8)
           && 0xDC00 <= Hex4Value(e, 8) < 0xE000 then
          var v := 0x10000 + (hi - 0xD800) * 0x400 + (Hex4Value(e, 8) - 0xDC00);
          Prepend(v as char, Unescape(e[12..]))
        else None
      else if IsScalar(hi) then Prepend(hi as char, Unescape(e[6..]))
      else None
  }

  lemma HexRoundTrip(d: nat)
    requires d < 16
    ensures IsHex(HexDigit(d)) && HexValue(HexDigit(d)) == d
  {
  }

  lemma Hex4RoundTrip(x: nat, e: string, i: nat)
    requires x < 0x10000
    requires i + 4 <= |e| && e[i..i + 4] == Hex4(x)
    ensures Hex4At(e, i) && Hex4Value(e, i) == x
  {
    var h := Hex4(x);
    assert e[i] == h[0] && e[i + 1] == h[1] && e[i + 2] == h[2] && e[i + 3] == h[3];
    var x1 := x / 16;
    var x2 := x1 / 16;
    HexRoundTrip(x2 / 16);
    HexRoundTrip(x2 % 16);
    HexRoundTrip(x1 % 16);
    HexRoundTrip(x % 16);
    assert x == x1 * 16 + x % 16;
    assert x1 == x2 * 16 + x1 % 16;
    assert x2 == (x2 / 16) * 16 + x2 % 16;
  }

  /** Decoding one encoded character yields that character. */
  lemma UnescapeEscapeChar(c: char, rest: string)
    ensures Unescape(EscapeChar(c) + rest) == Prepend(c, Unescape(rest))
  {
    if c == '"' || c == '\\' || c == '\n' || c == '\r' || c == '\t' || c == '\U{8}' || c == '\U{c}' {
      var e := EscapeChar(c) + rest;
      assert e[2..] == rest;
    } else if ' ' <= c <= '~' {
      var e := EscapeChar(c) + rest;
      assert e[1..] == rest;
    } else if (c as int) < 0x10000 {
      UnescapeBmp(c, rest);
    } else {
      UnescapeAstral(c, rest);
    }
  }

  lemma UnescapeBmp(c: char, rest: string)
    requires (c as int) < 0x10000
    ensures Unescape("\\u" + Hex4(c as int) + rest) == Prepend(c, Unescape(rest))
  {
    var e := "\\u" + Hex4(c as int) + rest;
    assert e[2..6] == Hex4(c as int);
    Hex4RoundTrip(c as int, e, 2);
    assert e[6..] == rest;
  }

  lemma UnescapeAstral(c: char, rest: string)
    requires (c as int) >= 0x10000
    ensures Unescape(AstralEscape(c) + rest) == Prepend(c, Unescape(rest))
  {
    var n := c as int - 0x10000;
    var hi, lo := SurrogatePair(n);
    var p := "\\u" + Hex4(hi);
    var q := "\\u" + Hex4(lo);
    var e := p + q + rest;
    AstralEscapeHalves(c, p, q);
    AstralLayout(p, q, rest, hi, lo);
    UnescapePair(e, c);
  }

  lemma AstralEscapeHalves(c: char, p: string, q: string)
    requires (c as int) >= 0x10000
    requires p == "\\u" + Hex4(0xD800 + (c as int - 0x10000) / 0x400)
    requires q == "\\u" + Hex4(0xDC00 + (c as int - 0x10000) % 0x400)
    ensures AstralEscape(c) == p + q
  {
    var h1, h2 := Hex4(0xD800 + (c as int - 0x10000) / 0x400), Hex4(0xDC00 + (c as int - 0x10000) % 0x400);
    assert AstralEscape(c) == "\\u" + h1 + "\\u" + h2;
  }

  /** The surrogates of `n + 0x10000`, with the value they recombine to. */
  lemma SurrogatePair(n: int) returns (hi: nat, lo: nat)
    requires 0 <= n < 0x100000
    ensures hi == 0xD800 + n / 0x400 && lo == 0xDC00 + n % 0x400
    ensures 0xD800 <= hi < 0xDC00 && 0xDC00 <= lo < 0xE000
    ensures 0x10000 + (hi - 0xD800) * 0x400 + (lo - 0xDC00) == n + 0x10000
  {
    hi := 0xD800 + n / 0x400;
    lo := 0xDC00 + n % 0x400;
  }

  /** Where the two escapes of a surrogate pair sit in the encoded text. */
  lemma AstralLayout(p: string, q: string, rest: string, hi: nat, lo: nat)
    requires hi < 0x10000 && lo < 0x10000
    requires p == "\\u" + Hex4(hi) && q == "\\u" + Hex4(lo)
    ensures var e := p + q + rest;
      && |e| >= 12 && e[0] == '\\' && e[1] == 'u' && e[6] == '\\' && e[7] == 'u'
      && Hex4At(e, 2) && Hex4At(e, 8) && Hex4Value(e, 2) == hi && Hex4Value(e, 8) == lo
      && e[12..] == rest
  {
    var e := p + q + rest;
    assert e[2..6] == Hex4(hi);
    assert e[8..12] == Hex4(lo);
    Hex4RoundTrip(hi, e, 2);
    Hex4RoundTrip(lo, e, 8);
    assert e[12..] == rest;
  }

  /** One unfolding of `Unescape` on a surrogate pair. */
  lemma UnescapePair(e: string, c: char)
    requires |e| >= 12 && e[0] == '\\' && e[1] == 'u' && e[6] == '\\' && e[7] == 'u'
    requires Hex4At(e, 2) && Hex4At(e, 8)
    requires 0xD800 <= Hex4Value(e, 2) < 0xDC00 && 0xDC00 <= Hex4Value(e, 8) < 0xE000
    requires c as int == 0x10000 + (Hex4Value(e, 2) - 0xD800) * 0x400 + (Hex4Value(e, 8) - 0xDC00)
    ensures Unescape(e) == Prepend(c, Unescape(e[12..]))
  {
  }

  /** Round trip: decoding what `json.dumps` wrote for a string gives the
      string back, so the encoding is injective. */
  lemma {:induction false} UnescapeEscapeString(s: string)
    ensures Unescape(EscapeString(s)) == Some(s)
    decreases |s|
  {
    if |s| > 0 {
      UnescapeEscapeString(s[1..]);
      UnescapeEscapeChar(s[0], EscapeString(s[1..]));
      assert [s[0]] + s[1..] == s;
    }
  }

  /** Distinct strings have distinct encodings. */
  lemma DumpsStringInjective(s: string, t: string)
    requires DumpsString(s) == DumpsString(t)
    ensures s == t
  {
    var ds := DumpsString(s);
    assert EscapeString(s) == ds[1..|ds| - 1];
    assert EscapeString(t) == ds[1..|ds| - 1];
    UnescapeEscapeString(s);
    UnescapeEscapeString(t);
  }
}
