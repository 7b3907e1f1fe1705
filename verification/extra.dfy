/** The string helpers of `src/extra.py`: shell quoting, `{key}`
    substitution, the prompt-override merge and the unit choice of
    `human_readable_size`. */
module Extra {
  import opened Wrappers
  import opened Text
  import opened Json
  import opened PosixShell

  // ---------------------------------------------------------------------
  // quote_string
  // ---------------------------------------------------------------------

  /** What a single quote inside the text becomes: close the quoted run,
      an escaped quote, reopen. */
  const QuoteEscape: string := "'\\''"

  /** `quote_string(s)`: single-quotes `s` for a POSIX shell. */
  function QuoteString(s: string): (q: string)
    ensures |q| >= |s| + 2 && q[0] == '\'' && q[|q| - 1] == '\''
  {
    if '\'' in s then
      ReplaceGrows(s, "'", QuoteEscape);
      "'" + Replace(s, "'", QuoteEscape) + "'"
    else "'" + s + "'"
  }

  lemma {:induction false} MapCharAbsent(s: string, c: char, rep: string)
    requires c !in s
    ensures MapChar(s, c, rep) == s
    decreases |s|
  {
    if |s| > 0 {
      assert c !in s[1..] by {
        forall i | 0 <= i < |s[1..]| ensures s[1..][i] != c {
          assert s[1..][i] == s[i + 1];
          assert s[i + 1] in s;
        }
      }
      MapCharAbsent(s[1..], c, rep);
      assert s == [s[0]] + s[1..];
    }
  }

  /** Both branches of `quote_string` agree: whether or not `s` holds a
      single quote, the result is `s` with every `'` turned into `'\''`,
      between single quotes. */
  lemma QuoteStringEscapesEveryQuote(s: string)
    ensures QuoteString(s) == "'" + MapChar(s, '\'', QuoteEscape) + "'"
  {
    ReplaceSingleChar(s, '\'', QuoteEscape);
    if '\'' !in s {
      MapCharAbsent(s, '\'', QuoteEscape);
    }
  }

  /** Reading the body of a quoted run (after the opening quote) returns
      the original text. */
  lemma {:induction false} ReadQuotedEscaped(s: string)
    ensures ReadQuoted(MapChar(s, '\'', QuoteEscape) + "'") == Some(s)
    decreases |s|
  {
    var m := MapChar(s, '\'', QuoteEscape) + "'";
    if |s| == 0 {
      assert m == "'";
      assert ReadWord("") == Some("");
    } else {
      var rest := MapChar(s[1..], '\'', QuoteEscape) + "'";
      ReadQuotedEscaped(s[1..]);
      if s[0] == '\'' {
        assert m == QuoteEscape + rest;
        assert m[1..] == "\\''" + rest;
        assert m[1..][2..] == "'" + rest;
        assert ("'" + rest)[1..] == rest;
        assert ReadWord("'" + rest) == Some(s[1..]);
        assert ReadWord(m[1..]) == Some([s[0]] + s[1..]);
      } else {
        assert m == [s[0]] + rest;
        assert m[1..] == rest;
      }
      assert [s[0]] + s[1..] == s;
    }
  }

  /** Round trip against section 2.2.2 of the POSIX Shell Command
      Language: a shell reading the quoted word gets `s` back, whatever
      characters `s` contains. */
  lemma QuoteStringRoundTrip(s: string)
    ensures ReadWord(QuoteString(s)) == Some(s)
  {
    QuoteStringEscapesEveryQuote(s);
    var body := MapChar(s, '\'', QuoteEscape) + "'";
    assert QuoteString(s) == "'" + body;
    assert ("'" + body)[1..] == body;
    ReadQuotedEscaped(s);
  }

  /** Different texts are quoted differently. */
  lemma QuoteStringInjective(s: string, t: string)
    requires QuoteString(s) == QuoteString(t)
    ensures s == t
  {
    QuoteStringRoundTrip(s);
    QuoteStringRoundTrip(t);
  }

  // ---------------------------------------------------------------------
  // replace_variables
  // ---------------------------------------------------------------------

  /** The placeholder a variable named `key` fills. */
  function Placeholder(key: string): string {
    "{" + key + "}"
  }

  /** `replace_variables(text, variables)` with the dictionary given as its
      items in insertion order: each placeholder is replaced in turn, on
      the text the previous replacements produced. */
  function ReplaceVariables(text: string, variables: seq<(string, Value)>): string
    decreases |variables|
  {
    if |variables| == 0 then text
    else ReplaceVariables(Replace(text, Placeholder(variables[0].0), ToStr(variables[0].1)), variables[1..])
  }

  /** The loop of the source, one dictionary item per iteration. */
  method ReplaceVariablesLoop(text: string, variables: seq<(string, Value)>) returns (r: string)
    ensures r == ReplaceVariables(text, variables)
  {
    r := text;
    var i := 0;
    while i < |variables|
      invariant 0 <= i <= |variables|
      invariant ReplaceVariables(r, variables[i..]) == ReplaceVariables(text, variables)
    {
      assert variables[i..][1..] == variables[i + 1..];
      r := Replace(r, Placeholder(variables[i].0), ToStr(variables[i].1));
      i := i + 1;
    }
    assert variables[i..] == [];
  }

  /** Substituting two dictionaries in a row is substituting their
      concatenation: the substitution is a left fold. */
  lemma {:induction false} ReplaceVariablesConcat(text: string, a: seq<(string, Value)>, b: seq<(string, Value)>)
    ensures ReplaceVariables(text, a + b) == ReplaceVariables(ReplaceVariables(text, a), b)
    decreases |a|
  {
    if |a| > 0 {
      assert (a + b)[0] == a[0];
      assert (a + b)[1..] == a[1..] + b;
      var t := Replace(text, Placeholder(a[0].0), ToStr(a[0].1));
      ReplaceVariablesConcat(t, a[1..], b);
      assert ReplaceVariables(text, a + b) == ReplaceVariables(t, a[1..] + b);
      assert ReplaceVariables(text, a) == ReplaceVariables(t, a[1..]);
    } else {
      assert a + b == b;
    }
  }

  lemma PlaceholderAbsent(text: string, key: string)
    requires '{' !in text
    ensures !Contains(text, Placeholder(key))
  {
    var p := Placeholder(key);
    forall i | 0 <= i <= |text| - |p| ensures !OccursAt(text, p, i) {
      assert text[i] in text;
      assert text[i..i + |p|][0] == text[i] != p[0];
    }
  }

  /** A text without any `{` is left unchanged by any dictionary. */
  lemma {:induction false} ReplaceVariablesNoBrace(text: string, variables: seq<(string, Value)>)
    requires '{' !in text
    ensures ReplaceVariables(text, variables) == text
    decreases |variables|
  {
    if |variables| > 0 {
      PlaceholderAbsent(text, variables[0].0);
      ReplaceAbsent(text, Placeholder(variables[0].0), ToStr(variables[0].1));
      ReplaceVariablesNoBrace(text, variables[1..]);
    }
  }

  /** Substitution is sequential, not simultaneous: a value that itself
      holds a later placeholder is rewritten again. */
  lemma ReplaceVariablesIsSequential()
    ensures ReplaceVariables("{a}", [("a", VStr("{b}")), ("b", VStr("x"))]) == "x"
  {
    var t1 := Replace("{a}", "{a}", "{b}");
    assert "{a}"[..3] == "{a}";
    assert t1 == "{b}";
    assert "{b}"[..3] == "{b}";
    assert Replace("{b}", "{b}", "x") == "x";
  }

  // ---------------------------------------------------------------------
  // override_prompts
  // ---------------------------------------------------------------------

  /** The keys of a dictionary given by its items. */
  function KeysOf<V>(items: seq<(string, V)>): set<string> {
    set i | 0 <= i < |items| :: items[i].0
  }

  /** One more item adds its key. */
  lemma KeysOfPrefix<V>(items: seq<(string, V)>, n: nat)
    requires n < |items|
    ensures KeysOf(items[..n + 1]) == KeysOf(items[..n]) + {items[n].0}
  {
    var a, b := items[..n + 1], items[..n];
    assert forall i :: 0 <= i < n ==> a[i] == b[i];
    assert a[n] == items[n];
  }

  /** `override_prompts(override_setting, PROMPTS)`, with `PROMPTS` given by
      its items in order: each built-in prompt is replaced by the user's
      override when one exists. */
  method OverridePrompts(overrides: map<string, string>, prompts: seq<(string, string)>)
    returns (r: map<string, string>)
    requires forall i, j :: 0 <= i < j < |prompts| ==> prompts[i].0 != prompts[j].0
    ensures r.Keys == KeysOf(prompts)
    ensures forall i :: 0 <= i < |prompts| ==>
      r[prompts[i].0] == (if prompts[i].0 in overrides then overrides[prompts[i].0] else prompts[i].1)
  {
    r := map[];
    var n := 0;
    while n < |prompts|
      invariant 0 <= n <= |prompts|
      invariant r.Keys == KeysOf(prompts[..n])
      invariant forall i :: 0 <= i < n ==>
        r[prompts[i].0] == (if prompts[i].0 in overrides then overrides[prompts[i].0] else prompts[i].1)
    {
      var (key, default) := prompts[n];
      r := r[key := if key in overrides then overrides[key] else default];
      KeysOfPrefix(prompts, n);
      n := n + 1;
    }
    assert prompts[..n] == prompts;
  }

  // ---------------------------------------------------------------------
  // human_readable_size
  // ---------------------------------------------------------------------

  /** The units `human_readable_size` chooses from. */
  const Units: seq<string> := ["B", "KiB", "MiB", "GiB", "TiB", "PiB"]

  function Pow1024(k: nat): nat {
    if k == 0 then 1 else 1024 * Pow1024(k - 1)
  }

  /** Python's `int(x)` on a float: truncation toward zero. */
  function TruncateReal(x: real): int {
    if x >= 0.0 then x.Floor else -((-x).Floor)
  }

  /** The unit and scaled value of `human_readable_size(size)` (the text
      formatting of the value is left to Python's float formatting). The
      value is divided by 1024 until it is below 1024, at most five
      times. */
  method HumanReadableUnit(size: real) returns (value: real, unit: string, k: nat)
    ensures k < |Units| && unit == Units[k]
    ensures value * (Pow1024(k) as real) == TruncateReal(size) as real
    ensures k < 5 ==> value < 1024.0
    ensures forall j :: 1 <= j <= k ==> TruncateReal(size) >= Pow1024(j)
  {
    var n := TruncateReal(size);
    value := n as real;
    k := 0;
    ghost var scale: real := 1.0;
    while k < 5 && value >= 1024.0
      invariant 0 <= k <= 5
      invariant scale == Pow1024(k) as real
      invariant value * scale == n as real
      invariant forall j :: 1 <= j <= k ==> n >= Pow1024(j)
      decreases 5 - k
    {
      ScaleInvariant(value, k, n);
      value, k, scale := value / 1024.0, k + 1, scale * 1024.0;
    }
    unit := Units[k];
  }

  /** Dividing the value by 1024 while multiplying the scale by 1024 keeps
      their product; a value of at least 1024 means the product is at
      least 1024 times the scale. */
  lemma ScaleStep(v: real, p: real)
    requires v >= 1024.0 && p >= 1.0
    ensures (v / 1024.0) * (p * 1024.0) == v * p
    ensures v * p >= 1024.0 * p
  {
    assert (v / 1024.0) * 1024.0 == v;
    assert v * p - 1024.0 * p == (v - 1024.0) * p;
  }

  /** One round of the loop keeps the product and the lower bound. */
  lemma ScaleInvariant(v: real, k: nat, n: int)
    requires v >= 1024.0 && v * (Pow1024(k) as real) == n as real
    ensures (v / 1024.0) * (Pow1024(k + 1) as real) == n as real
    ensures n >= Pow1024(k + 1)
  {
    PowPositive(k);
    var p := Pow1024(k) as real;
    assert Pow1024(k + 1) as real == p * 1024.0;
    ScaleStep(v, p);
  }

  lemma {:induction false} PowPositive(k: nat)
    ensures Pow1024(k) >= 1
  {
    if k > 0 { PowPositive(k - 1); }
  }
}
