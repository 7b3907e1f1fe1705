/** Python's built-in string operations, as the modelled code uses them.

    Strings are sequences of Unicode scalar values, like Python's `str`.
    Every function here follows CPython's documented behaviour for the
    argument shapes the modelled code passes. */
module Text {

  // ---------------------------------------------------------------------
  // Occurrence, prefixes, suffixes
  // ---------------------------------------------------------------------

  /** `sub` occurs in `s` starting at index `i`. */
  predicate OccursAt(s: string, sub: string, i: int) {
    0 <= i && i + |sub| <= |s| && s[i..i + |sub|] == sub
  }

  /** Python's `sub in s`. */
  predicate Contains(s: string, sub: string) {
    exists i :: 0 <= i <= |s| - |sub| && OccursAt(s, sub, i)
  }

  /** Python's `s.startswith(prefix)`. */
  predicate StartsWith(s: string, prefix: string) {
    prefix <= s
  }

  /** Python's `s.endswith(suffix)`. */
  predicate EndsWith(s: string, suffix: string) {
    |suffix| <= |s| && s[|s| - |suffix|..] == suffix
  }

  /** An occurrence inside the tail of `s` is an occurrence inside `s`. */
  lemma OccursInTail(s: string, sub: string, k: nat, i: int)
    requires k <= |s|
    requires OccursAt(s[k..], sub, i)
    ensures OccursAt(s, sub, i + k)
  {
    assert s[k..][i..i + |sub|] == s[i + k..i + k + |sub|];
  }

  /** A text ends with an occurrence of what was appended to it. */
  lemma OccursAppended(s: string, sub: string)
    ensures OccursAt(s + sub, sub, |s|)
  {
    assert (s + sub)[|s|..|s| + |sub|] == sub;
  }

  /** Appending keeps every occurrence. */
  lemma OccursExtend(s: string, sub: string, i: int, t: string)
    requires OccursAt(s, sub, i)
    ensures OccursAt(s + t, sub, i)
  {
    assert (s + t)[i..i + |sub|] == s[i..i + |sub|];
  }

  // ---------------------------------------------------------------------
  // str.replace, str.split(sep), sep.join
  // ---------------------------------------------------------------------

  /** Python's `s.replace(pat, rep)`: every non-overlapping occurrence of
      `pat`, found left to right, is replaced; an empty `pat` inserts `rep`
      before every character and at the end. */
  function Replace(s: string, pat: string, rep: string): string
    decreases |s|
  {
    if |pat| == 0 then InsertEverywhere(s, rep)
    else if |s| < |pat| then s
    else if s[..|pat|] == pat then rep + Replace(s[|pat|..], pat, rep)
    else [s[0]] + Replace(s[1..], pat, rep)
  }

  /** `s.replace("", rep)`. */
  function InsertEverywhere(s: string, rep: string): string {
    if |s| == 0 then rep else rep + [s[0]] + InsertEverywhere(s[1..], rep)
  }

  /** Python's `s.split(sep)` for a non-empty separator (an empty one
      raises `ValueError` in Python; no modelled caller passes one). */
  function Split(s: string, sep: string): (parts: seq<string>)
    requires |sep| > 0
    ensures |parts| >= 1
    decreases |s|
  {
    if |s| < |sep| then [s]
    else if s[..|sep|] == sep then [""] + Split(s[|sep|..], sep)
    else ConsHead(s[0], Split(s[1..], sep))
  }

  /** Prepends `c` to the first piece. */
  function ConsHead(c: char, parts: seq<string>): (r: seq<string>)
    requires |parts| >= 1
    ensures |r| == |parts|
  {
    [[c] + parts[0]] + parts[1..]
  }

  /** Python's `sep.join(parts)`. */
  function Join(parts: seq<string>, sep: string): string {
    if |parts| == 0 then ""
    else if |parts| == 1 then parts[0]
    else parts[0] + sep + Join(parts[1..], sep)
  }

  lemma JoinConsHead(c: char, parts: seq<string>, sep: string)
    requires |parts| >= 1
    ensures Join(ConsHead(c, parts), sep) == [c] + Join(parts, sep)
  {
    var r := ConsHead(c, parts);
    if |parts| > 1 {
      assert r[1..] == parts[1..];
    }
  }

  /** `s.replace(pat, rep) == rep.join(s.split(pat))`: the replacement
      agrees with the independent split/join reading of Python's
      documentation. */
  lemma {:induction false} ReplaceIsJoinOfSplit(s: string, pat: string, rep: string)
    requires |pat| > 0
    ensures Replace(s, pat, rep) == Join(Split(s, pat), rep)
    decreases |s|
  {
    if |s| < |pat| {
    } else if s[..|pat|] == pat {
      ReplaceIsJoinOfSplit(s[|pat|..], pat, rep);
      var rest := Split(s[|pat|..], pat);
      assert Split(s, pat) == [""] + rest;
      assert ([""] + rest)[1..] == rest;
    } else {
      ReplaceIsJoinOfSplit(s[1..], pat, rep);
      JoinConsHead(s[0], Split(s[1..], pat), rep);
    }
  }

  /** The first piece of `s.split(sep)` is a prefix of `s` in which `sep`
      does not occur. */
  lemma {:induction false} SplitHead(s: string, sep: string)
    requires |sep| > 0
    ensures Split(s, sep)[0] <= s
    ensures !Contains(Split(s, sep)[0], sep)
    decreases |s|
  {
    if |s| >= |sep| && s[..|sep|] != sep {
      SplitHead(s[1..], sep);
      var t := Split(s[1..], sep)[0];
      var h := [s[0]] + t;
      assert Split(s, sep)[0] == h;
      forall i | 0 <= i <= |h| - |sep| ensures !OccursAt(h, sep, i) {
        if i == 0 {
          assert h <= s;
          assert h[..|sep|] == s[..|sep|];
        } else {
          assert !OccursAt(t, sep, i - 1);
          assert h[i..i + |sep|] == t[i - 1..i - 1 + |sep|];
        }
      }
    }
  }

  /** Splitting on a character that does not occur gives the whole text. */
  lemma {:induction false} SplitCharAbsent(s: string, c: char)
    requires c !in s
    ensures Split(s, [c]) == [s]
    decreases |s|
  {
    if |s| >= 1 {
      assert s[..1] == [s[0]] && s[0] in s;
      assert c !in s[1..] by {
        forall i | 0 <= i < |s[1..]| ensures s[1..][i] != c {
          assert s[1..][i] == s[i + 1] && s[i + 1] in s;
        }
      }
      SplitCharAbsent(s[1..], c);
      assert [s[0]] + s[1..] == s;
    }
  }

  /** The first piece ends at the first separator character. */
  lemma {:induction false} SplitCharFirst(a: string, c: char, b: string)
    requires c !in a
    ensures Split(a + [c] + b, [c]) == [a] + Split(b, [c])
    decreases |a|
  {
    var s := a + [c] + b;
    if |a| == 0 {
      assert s == [c] + b && s[..1] == [c] && s[1..] == b;
    } else {
      assert a[0] in a;
      assert s[..1] == [a[0]] && s[0] == a[0];
      assert s[1..] == a[1..] + [c] + b;
      assert c !in a[1..] by {
        forall i | 0 <= i < |a[1..]| ensures a[1..][i] != c {
          assert a[1..][i] == a[i + 1] && a[i + 1] in a;
        }
      }
      SplitCharFirst(a[1..], c, b);
      assert [a[0]] + a[1..] == a;
    }
  }

  /** When `pat` does not occur, `replace` leaves the string unchanged. */
  lemma {:induction false} ReplaceAbsent(s: string, pat: string, rep: string)
    requires |pat| > 0
    requires !Contains(s, pat)
    ensures Replace(s, pat, rep) == s
    decreases |s|
  {
    if |s| >= |pat| {
      assert !OccursAt(s, pat, 0);
      if Contains(s[1..], pat) {
        var i :| 0 <= i <= |s[1..]| - |pat| && OccursAt(s[1..], pat, i);
        OccursInTail(s, pat, 1, i);
        assert false;
      }
      ReplaceAbsent(s[1..], pat, rep);
      assert s == [s[0]] + s[1..];
    }
  }

  /** A longer replacement never shortens the text, and lengthens it
      whenever the pattern occurs. */
  lemma {:induction false} ReplaceGrows(s: string, pat: string, rep: string)
    requires |pat| > 0 && |rep| > |pat|
    ensures |Replace(s, pat, rep)| >= |s|
    ensures Contains(s, pat) ==> |Replace(s, pat, rep)| > |s|
    decreases |s|
  {
    if |s| >= |pat| {
      if s[..|pat|] == pat {
        ReplaceGrows(s[|pat|..], pat, rep);
      } else {
        ReplaceGrows(s[1..], pat, rep);
        if Contains(s, pat) {
          var i :| 0 <= i <= |s| - |pat| && OccursAt(s, pat, i);
          assert i != 0;
          assert s[1..][i - 1..i - 1 + |pat|] == s[i..i + |pat|];
          assert OccursAt(s[1..], pat, i - 1);
        }
      }
    }
  }

  /** A pattern whose first two characters differ, appended to a text
      that lacks its second character, is the only occurrence `replace`
      finds. */
  lemma {:induction false} ReplaceTrailing(body: string, pat: string, rep: string)
    requires |pat| >= 2 && pat[0] != pat[1] && pat[1] !in body
    ensures Replace(body + pat, pat, rep) == body + rep
    decreases |body|
  {
    if |body| == 0 {
      assert body + pat == pat;
      ReplaceWhole(pat, rep);
    } else {
      var tail := body[1..];
      NoMatchAtStart(body, pat);
      ReplaceSkipFirst(body + pat, pat, rep);
      assert (body + pat)[1..] == tail + pat;
      assert pat[1] !in tail by {
        forall i | 0 <= i < |tail| ensures tail[i] != pat[1] {
          assert tail[i] == body[i + 1] && body[i + 1] in body;
        }
      }
      ReplaceTrailing(tail, pat, rep);
      ConsAppend(body, rep);
    }
  }

  lemma ConsAppend(body: string, rep: string)
    requires |body| > 0
    ensures [body[0]] + (body[1..] + rep) == body + rep
  {
    assert body == [body[0]] + body[1..];
  }

  /** The pattern alone is replaced as a whole. */
  lemma ReplaceWhole(pat: string, rep: string)
    requires |pat| > 0
    ensures Replace(pat, pat, rep) == rep
  {
    assert pat[..|pat|] == pat && pat[|pat|..] == "";
    assert rep + "" == rep;
  }

  /** Where the pattern does not start the text, `replace` keeps the first
      character and goes on with the rest. */
  lemma ReplaceSkipFirst(s: string, pat: string, rep: string)
    requires 0 < |pat| <= |s| && s[..|pat|] != pat
    ensures Replace(s, pat, rep) == [s[0]] + Replace(s[1..], pat, rep)
  {
  }

  /** Text lacking the pattern's second character, followed by the
      pattern, does not start with the pattern. */
  lemma NoMatchAtStart(body: string, pat: string)
    requires |body| > 0 && |pat| >= 2 && pat[0] != pat[1] && pat[1] !in body
    ensures (body + pat)[..|pat|] != pat
  {
    var s := body + pat;
    assert s[1] != pat[1] by {
      if |body| >= 2 {
        assert s[1] == body[1] && body[1] in body;
      } else {
        assert s[1] == pat[0];
      }
    }
    assert s[..|pat|][1] == s[1];
  }

  /** Replacing a single character is a character-by-character map. */
  function MapChar(s: string, c: char, rep: string): string {
    if |s| == 0 then ""
    else (if s[0] == c then rep else [s[0]]) + MapChar(s[1..], c, rep)
  }

  lemma {:induction false} ReplaceSingleChar(s: string, c: char, rep: string)
    ensures Replace(s, [c], rep) == MapChar(s, c, rep)
    decreases |s|
  {
    if |s| > 0 {
      ReplaceSingleChar(s[1..], c, rep);
      assert s[..1] == [s[0]];
    }
  }

  // ---------------------------------------------------------------------
  // str.strip and str.split() on whitespace
  // ---------------------------------------------------------------------

  /** Python's `str.isspace` for one character. */
  predicate IsSpace(c: char) {
    || c == ' ' || ('\t' <= c <= '\r') || ('\U{1c}' <= c <= '\U{1f}')
    || c == '\U{85}' || c == '\U{a0}' || c == '\U{1680}'
    || ('\U{2000}' <= c <= '\U{200a}') || c == '\U{2028}' || c == '\U{2029}'
    || c == '\U{202f}' || c == '\U{205f}' || c == '\U{3000}'
  }

  predicate AllSpace(s: string) {
    forall i :: 0 <= i < |s| ==> IsSpace(s[i])
  }

  /** Python's `s.lstrip()`: the longest suffix not starting with whitespace. */
  function LStrip(s: string): (r: string)
    ensures |r| <= |s| && r == s[|s| - |r|..]
    ensures AllSpace(s[..|s| - |r|])
    ensures |r| > 0 ==> !IsSpace(r[0])
  {
    if |s| > 0 && IsSpace(s[0]) then
      var r := LStrip(s[1..]);
      LStripStep(s, r);
      r
    else s
  }

  /** Python's `s.rstrip()`: the longest prefix not ending with whitespace. */
  function RStrip(s: string): (r: string)
    ensures r <= s
    ensures AllSpace(s[|r|..])
    ensures |r| > 0 ==> !IsSpace(r[|r| - 1])
  {
    if |s| > 0 && IsSpace(s[|s| - 1]) then
      var r := RStrip(s[..|s| - 1]);
      assert s[|r|..] == s[..|s| - 1][|r|..] + [s[|s| - 1]];
      r
    else s
  }

  /** Python's `s.strip()`. */
  function Strip(s: string): string {
    RStrip(LStrip(s))
  }

  lemma {:induction false} LStripConcat(p: string, q: string)
    ensures LStrip(p + q) == if AllSpace(p) then LStrip(q) else LStrip(p) + q
    decreases |p|
  {
    if |p| == 0 {
      assert p + q == q;
    } else if IsSpace(p[0]) {
      assert (p + q)[0] == p[0];
      assert (p + q)[1..] == p[1..] + q;
      assert LStrip(p + q) == LStrip(p[1..] + q);
      assert LStrip(p) == LStrip(p[1..]);
      LStripConcat(p[1..], q);
      AllSpaceTail(p);
    } else {
      assert (p + q)[0] == p[0];
      assert !AllSpace(p);
    }
  }

  lemma AllSpaceTail(p: string)
    requires |p| > 0 && IsSpace(p[0])
    ensures AllSpace(p) == AllSpace(p[1..])
  {
    if AllSpace(p[1..]) {
      forall i | 0 <= i < |p| ensures IsSpace(p[i]) {
        if i > 0 { assert p[i] == p[1..][i - 1]; }
      }
    }
  }

  lemma {:induction false} RStripConcat(a: string, b: string)
    ensures RStrip(a + b) == if AllSpace(b) then RStrip(a) else a + RStrip(b)
    decreases |b|
  {
    if |b| == 0 {
      assert a + b == a;
    } else {
      var ab := a + b;
      var b' := b[..|b| - 1];
      assert ab[|ab| - 1] == b[|b| - 1];
      if IsSpace(b[|b| - 1]) {
        assert ab[..|ab| - 1] == a + b';
        assert RStrip(ab) == RStrip(a + b');
        assert RStrip(b) == RStrip(b');
        RStripConcat(a, b');
        AllSpaceInit(b);
      } else {
        assert RStrip(ab) == ab && RStrip(b) == b;
        assert !AllSpace(b);
      }
    }
  }

  /** One step of `LStrip`: dropping a leading space keeps the result a
      suffix behind a blank prefix. */
  lemma LStripStep(s: string, r: string)
    requires |s| > 0 && IsSpace(s[0])
    requires |r| <= |s| - 1 && r == s[1..][|s| - 1 - |r|..]
    requires AllSpace(s[1..][..|s| - 1 - |r|])
    ensures r == s[|s| - |r|..]
    ensures AllSpace(s[..|s| - |r|])
  {
    var t, u := s[..|s| - |r|], s[1..][..|s| - 1 - |r|];
    forall i | 0 <= i < |t| ensures IsSpace(t[i]) {
      if i > 0 { assert t[i] == u[i - 1]; }
    }
  }

  lemma AllSpaceInit(p: string)
    requires |p| > 0 && IsSpace(p[|p| - 1])
    ensures AllSpace(p) == AllSpace(p[..|p| - 1])
  {
    if AllSpace(p[..|p| - 1]) {
      forall i | 0 <= i < |p| ensures IsSpace(p[i]) {
        if i < |p| - 1 { assert p[i] == p[..|p| - 1][i]; }
      }
    }
  }

  /** Stripping is monotone under extension: the stripped text of a prefix
      is a prefix of the stripped text of the whole. */
  lemma StripPrefixOfExtension(p: string, q: string)
    ensures Strip(p) <= Strip(p + q)
  {
    LStripConcat(p, q);
    var l := LStrip(p);
    if AllSpace(p) {
      assert l == "";
      assert Strip(p) == RStrip("");
    } else {
      assert LStrip(p + q) == l + q;
      RStripConcat(l, q);
      if !AllSpace(q) {
        assert RStrip(l) <= l;
        assert l <= l + RStrip(q);
      }
    }
  }

  /** The maximal non-whitespace prefix of `s`. */
  function Token(s: string): (t: string)
    ensures t <= s
    ensures |s| > 0 && !IsSpace(s[0]) ==> |t| > 0
    ensures forall i :: 0 <= i < |t| ==> !IsSpace(t[i])
    ensures |t| < |s| ==> IsSpace(s[|t|])
  {
    if |s| == 0 || IsSpace(s[0]) then "" else [s[0]] + Token(s[1..])
  }

  /** Python's `s.split()`: the maximal runs of non-whitespace characters. */
  function Words(s: string): (ws: seq<string>)
    ensures forall k :: 0 <= k < |ws| ==> |ws[k]| > 0
    decreases |s|
  {
    var t := LStrip(s);
    if |t| == 0 then []
    else
      var w := Token(t);
      [w] + Words(t[|w|..])
  }

  // ---------------------------------------------------------------------
  // str(int), bytes.hex(), ASCII lower-casing
  // ---------------------------------------------------------------------

  /** The decimal digit character for `d`. */
  function DigitChar(d: nat): (c: char)
    requires d < 10
    ensures '0' <= c <= '9'
  {
    (48 + d) as char
  }

  /** The lower-case hexadecimal digit character for `d`. */
  function HexDigit(d: nat): (c: char)
    requires d < 16
    ensures IsLowerHex(c)
  {
    if d < 10 then (48 + d) as char else (87 + d) as char
  }

  predicate IsLowerHex(c: char) {
    '0' <= c <= '9' || 'a' <= c <= 'f'
  }

  /** Python's `str(n)` for a natural number. */
  function NatToString(n: nat): (s: string)
    ensures |s| > 0
    ensures forall i :: 0 <= i < |s| ==> '0' <= s[i] <= '9'
    decreases n
  {
    if n < 10 then [DigitChar(n)] else NatToString(n / 10) + [DigitChar(n % 10)]
  }

  /** Python's `str(i)` for any integer. */
  function IntToString(i: int): string {
    if i < 0 then "-" + NatToString(-i) else NatToString(i)
  }

  function DigitValue(c: char): nat {
    if '0' <= c <= '9' then (c as int) - 48 else 0
  }

  /** Python's `int(s)` on a string of decimal digits. */
  function ParseNat(s: string): nat {
    if |s| == 0 then 0 else 10 * ParseNat(s[..|s| - 1]) + DigitValue(s[|s| - 1])
  }

  /** `int(str(n)) == n`. */
  lemma {:induction false} ParseNatToString(n: nat)
    ensures ParseNat(NatToString(n)) == n
    decreases n
  {
    if n >= 10 {
      var s := NatToString(n / 10) + [DigitChar(n % 10)];
      assert s[..|s| - 1] == NatToString(n / 10);
      ParseNatToString(n / 10);
    }
  }

  /** Two lower-case hexadecimal digits of a byte, as `bytes.hex()` writes them. */
  function ByteHex(b: nat): (h: string)
    requires b < 256
    ensures |h| == 2 && IsLowerHex(h[0]) && IsLowerHex(h[1])
  {
    [HexDigit(b / 16), HexDigit(b % 16)]
  }

  /** `bytes(bs).hex()`. */
  function BytesHex(bs: seq<nat>): (h: string)
    requires forall i :: 0 <= i < |bs| ==> bs[i] < 256
    ensures |h| == 2 * |bs|
    ensures forall i :: 0 <= i < |h| ==> IsLowerHex(h[i])
  {
    if |bs| == 0 then "" else ByteHex(bs[0]) + BytesHex(bs[1..])
  }

  /** Lower-casing of ASCII letters (the only letters the modelled
      suffix tests compare against). */
  function AsciiLower(s: string): (r: string)
    ensures |r| == |s|
    ensures forall i :: 0 <= i < |s| ==> r[i] == LowerChar(s[i])
  {
    if |s| == 0 then ""
    else
      var r := [LowerChar(s[0])] + AsciiLower(s[1..]);
      assert forall i :: 1 <= i < |s| ==> r[i] == AsciiLower(s[1..])[i - 1] && s[1..][i - 1] == s[i];
      r
  }

  /** One character of `AsciiLower`: capital ASCII letters map to small ones. */
  function LowerChar(c: char): char {
    if 'A' <= c <= 'Z' then ((c as int) + 32) as char else c
  }

  /** A string without capital letters is its own lower-case form. */
  lemma {:induction false} AsciiLowerNoCapitals(s: string)
    requires forall i :: 0 <= i < |s| ==> !('A' <= s[i] <= 'Z')
    ensures AsciiLower(s) == s
  {
    if |s| > 0 {
      assert forall i :: 0 <= i < |s[1..]| ==> s[1..][i] == s[i + 1];
      AsciiLowerNoCapitals(s[1..]);
      assert s == [s[0]] + s[1..];
    }
  }

  lemma {:induction false} AsciiLowerConcat(a: string, b: string)
    ensures AsciiLower(a + b) == AsciiLower(a) + AsciiLower(b)
    decreases |a|
  {
    if |a| == 0 {
      assert a + b == b;
    } else {
      assert (a + b)[1..] == a[1..] + b;
      AsciiLowerConcat(a[1..], b);
    }
  }
}
