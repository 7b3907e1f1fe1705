/** The streaming loops of `src/llm.py`: text deltas are accumulated and
    `on_update` receives the stripped text so far, throttled to calls at
    least two characters apart (g4f, GPT3Any, Ollama, custom command) or
    on every chunk (Gemini). */
module LlmStream {
  import opened Text
  import LlmHistory

  /** `"".join(deltas)`. */
  function Concat(deltas: seq<string>): string {
    if |deltas| == 0 then "" else Concat(deltas[..|deltas| - 1]) + deltas[|deltas| - 1]
  }

  lemma ConcatAppend(deltas: seq<string>, d: string)
    ensures Concat(deltas + [d]) == Concat(deltas) + d
  {
    assert (deltas + [d])[..|deltas|] == deltas;
  }

  // ---------------------------------------------------------------------
  // Throttled stream
  // ---------------------------------------------------------------------

  /** The loop's variables: `full_message`, `prev_message` and the
      arguments passed to `on_update` so far. */
  datatype StreamState = StreamState(full: string, prev: string, updates: seq<string>)

  /** One chunk: an empty delta is skipped; otherwise it is appended and
      `on_update(full.strip())` fires when the text grew by more than one
      character since the last call. */
  function Step(st: StreamState, delta: string): StreamState {
    if delta == "" then st
    else
      var full := st.full + delta;
      if |full| - |st.prev| > 1 then StreamState(full, full, st.updates + [Strip(full)])
      else StreamState(full, st.prev, st.updates)
  }

  /** The loop over all chunks, as a fold. */
  function Run(deltas: seq<string>): StreamState {
    if |deltas| == 0 then StreamState("", "", [])
    else Step(Run(deltas[..|deltas| - 1]), deltas[|deltas| - 1])
  }

  lemma RunAppend(deltas: seq<string>, d: string)
    ensures Run(deltas + [d]) == Step(Run(deltas), d)
  {
    assert (deltas + [d])[..|deltas|] == deltas;
  }

  lemma RunPrefix(deltas: seq<string>, n: nat)
    requires n < |deltas|
    ensures Run(deltas[..n + 1]) == Step(Run(deltas[..n]), deltas[n])
  {
    assert deltas[..n + 1][..n] == deltas[..n];
  }

  /** Consequences of `Throttled` for the whole input, as the method
      states them. */
  lemma RunWhole(deltas: seq<string>)
    ensures deltas[..|deltas|] == deltas
    ensures var st := Run(deltas);
      && (forall i :: 0 <= i < |st.updates| ==> st.updates[i] <= Strip(Concat(deltas)))
      && 2 * |st.updates| <= |Concat(deltas)|
      && st.prev <= Concat(deltas) && |Concat(deltas)| - |st.prev| <= 1
      && (|st.updates| > 0 ==> st.updates[|st.updates| - 1] == Strip(st.prev))
      && st.full == Concat(deltas)
  {
    RunThrottled(deltas);
  }

  /** What the loop keeps true after every chunk: the reported text is a
      prefix of the full text lagging at most one character, the callback
      fired at most once per two characters, every callback argument is a
      prefix of the stripped full text, and the last one is the stripped
      reported text. */
  predicate Throttled(st: StreamState) {
    && st.prev <= st.full && |st.full| - |st.prev| <= 1
    && 2 * |st.updates| <= |st.prev|
    && (forall i :: 0 <= i < |st.updates| ==> st.updates[i] <= Strip(st.full))
    && (|st.updates| > 0 ==> st.updates[|st.updates| - 1] == Strip(st.prev))
    && (|st.updates| == 0 ==> st.prev == "")
  }

  /** Prefixes of a text remain prefixes of any extension of it. */
  lemma PrefixesExtend(us: seq<string>, a: string, b: string)
    requires a <= b
    requires forall i :: 0 <= i < |us| ==> us[i] <= a
    ensures forall i :: 0 <= i < |us| ==> us[i] <= b
  {
  }

  lemma PrefixesAppend(us: seq<string>, b: string)
    requires forall i :: 0 <= i < |us| ==> us[i] <= b
    ensures forall i :: 0 <= i < |us + [b]| ==> (us + [b])[i] <= b
  {
  }

  /** A chunk that leaves the report two or more characters behind fires
      the callback with the stripped full text. */
  lemma StepReports(st: StreamState, d: string)
    requires Throttled(st)
    requires d != "" && |st.full + d| - |st.prev| > 1
    ensures Step(st, d) == StreamState(st.full + d, st.full + d, st.updates + [Strip(st.full + d)])
    ensures Throttled(Step(st, d))
  {
    var full := st.full + d;
    var s1 := Strip(full);
    StripPrefixOfExtension(st.full, d);
    PrefixesExtend(st.updates, Strip(st.full), s1);
    PrefixesAppend(st.updates, s1);
  }

  /** A chunk that leaves the report at most one character behind changes
      only the full text. */
  lemma StepQuiet(st: StreamState, d: string)
    requires Throttled(st)
    requires d != "" && |st.full + d| - |st.prev| <= 1
    ensures Step(st, d) == StreamState(st.full + d, st.prev, st.updates)
    ensures Throttled(Step(st, d))
  {
    QuietChunk(st.prev, st.full, d);
    StripPrefixOfExtension(st.full, d);
    ThrottledExtend(st, st.full + d);
  }

  /** Growing the full text within the one-character lag keeps the
      invariant when the report and the callbacks stay. */
  lemma ThrottledExtend(st: StreamState, full: string)
    requires Throttled(st)
    requires st.prev <= full && |full| - |st.prev| <= 1
    requires Strip(st.full) <= Strip(full)
    ensures Throttled(StreamState(full, st.prev, st.updates))
  {
    var t := StreamState(full, st.prev, st.updates);
    // The report, the callbacks and their relation are unchanged.
    assert t.prev <= t.full && |t.full| - |t.prev| <= 1 && 2 * |t.updates| <= |t.prev|;
    assert |t.updates| > 0 ==> t.updates[|t.updates| - 1] == Strip(t.prev);
    assert |t.updates| == 0 ==> t.prev == "";
    PrefixesExtend(st.updates, Strip(st.full), Strip(full));
  }

  /** A non-empty chunk that leaves the report at most one character behind
      is a single character, and the report was not behind before it. */
  lemma QuietChunk(prev: string, full: string, d: string)
    requires prev <= full && d != "" && |full + d| - |prev| <= 1
    ensures prev == full && |d| == 1 && prev <= full + d
  {
    assert full[..|prev|] == prev;
    assert (full + d)[..|prev|] == prev;
  }

  lemma StepThrottled(st: StreamState, d: string)
    requires Throttled(st)
    ensures Throttled(Step(st, d))
    ensures Step(st, d).full == st.full + d
  {
    if d != "" {
      if |st.full + d| - |st.prev| > 1 {
        StepReports(st, d);
      } else {
        StepQuiet(st, d);
      }
    }
  }

  /** The loop invariant holds after any sequence of chunks, and the full
      text is their concatenation. */
  lemma {:induction false} RunThrottled(deltas: seq<string>)
    ensures Throttled(Run(deltas))
    ensures Run(deltas).full == Concat(deltas)
  {
    if |deltas| > 0 {
      var init := deltas[..|deltas| - 1];
      RunThrottled(init);
      StepThrottled(Run(init), deltas[|deltas| - 1]);
    }
  }

  /** Each callback argument is a prefix of every later one: the text
      shown only grows. */
  predicate Ordered(us: seq<string>) {
    forall i, j :: 0 <= i <= j < |us| ==> us[i] <= us[j]
  }

  lemma OrderedSnoc(us: seq<string>, x: string)
    requires Ordered(us)
    requires forall i :: 0 <= i < |us| ==> us[i] <= x
    ensures Ordered(us + [x])
  {
  }

  /** The callbacks arrive in generation order, each extending the last. */
  lemma {:induction false} UpdatesOrdered(deltas: seq<string>)
    ensures Ordered(Run(deltas).updates)
    decreases |deltas|
  {
    if |deltas| > 0 {
      var init := deltas[..|deltas| - 1];
      var d := deltas[|deltas| - 1];
      var st := Run(init);
      UpdatesOrdered(init);
      RunThrottled(init);
      if d != "" && |st.full + d| - |st.prev| > 1 {
        StripPrefixOfExtension(st.full, d);
        PrefixesExtend(st.updates, Strip(st.full), Strip(st.full + d));
        OrderedSnoc(st.updates, Strip(st.full + d));
      }
    }
  }

  /** The streaming loop of the g4f handlers. It returns the arguments of
      every `on_update` call, the text returned, and `prev_message`. */
  method ThrottledStream(deltas: seq<string>) returns (updates: seq<string>, result: string, reported: string)
    ensures result == Strip(Concat(deltas))
    ensures updates == Run(deltas).updates
    ensures forall i :: 0 <= i < |updates| ==> updates[i] <= result
    ensures 2 * |updates| <= |Concat(deltas)|
    ensures reported <= Concat(deltas) && |Concat(deltas)| - |reported| <= 1
    ensures |updates| > 0 ==> updates[|updates| - 1] == Strip(reported)
    ensures Ordered(updates)
  {
    var full, prev;
    full, prev, updates := StreamLoop(deltas);
    UpdatesOrdered(deltas);
    RunThrottled(deltas);
    assert Throttled(StreamState(full, prev, updates)) && full == Concat(deltas);
    result := Strip(full);
    reported := prev;
  }

  /** The loop itself: `full_message`, `prev_message` and the callback
      arguments after the last chunk are those of the fold. */
  method StreamLoop(deltas: seq<string>) returns (full: string, prev: string, updates: seq<string>)
    ensures StreamState(full, prev, updates) == Run(deltas)
  {
    full, prev, updates := "", "", [];
    var n := 0;
    while n < |deltas|
      invariant 0 <= n <= |deltas|
      invariant Run(deltas[..n]) == StreamState(full, prev, updates)
    {
      var d := deltas[n];
      RunPrefix(deltas, n);
      if d != "" {
        full := full + d;
        if |full| - |prev| > 1 {
          updates := updates + [Strip(full)];
          prev := full;
        }
      }
      n := n + 1;
    }
    assert deltas[..n] == deltas;
  }

  /** Text with no whitespace at either end is its own strip. */
  lemma StripTrimmed(s: string)
    requires |s| > 0 && !IsSpace(s[0]) && !IsSpace(s[|s| - 1])
    ensures Strip(s) == s
  {
    assert LStrip(s) == s;
  }

  lemma ConcatTwo(a: string, b: string)
    ensures Concat([a, b]) == a + b
  {
    ConcatAppend([], a);
    ConcatAppend([a], b);
    assert [] + [a] == [a];
    assert [a] + [b] == [a, b];
    assert "" + a == a;
  }

  lemma RunTwo(a: string, b: string)
    ensures Run([a, b]) == Step(Step(StreamState("", "", []), a), b)
  {
    RunAppend([], a);
    RunAppend([a], b);
    assert [] + [a] == [a];
    assert [a] + [b] == [a, b];
  }

  /** The first chunk of two or more characters fires the callback. */
  lemma StepFromEmpty(d: string)
    requires |d| >= 2
    ensures Step(StreamState("", "", []), d) == StreamState(d, d, [Strip(d)])
  {
    var st := StreamState("", "", []);
    assert st.full + d == d;
    assert st.updates + [Strip(d)] == [Strip(d)];
  }

  /** A one-character chunk right after a callback does not fire another. */
  lemma StepOneChar(st: StreamState, d: string)
    requires st.prev == st.full && |d| == 1
    ensures Step(st, d) == StreamState(st.full + d, st.prev, st.updates)
  {
  }

  /** Appending a non-space character to trimmed text keeps it trimmed. */
  lemma StripTrimmedAppend(a: string, c: char)
    requires |a| > 0 && !IsSpace(a[0]) && !IsSpace(a[|a| - 1]) && !IsSpace(c)
    ensures Strip(a) == a && Strip(a + [c]) == a + [c]
  {
    StripTrimmed(a);
    var t := a + [c];
    assert t[0] == a[0] && t[|t| - 1] == c;
    StripTrimmed(t);
  }

  /** The last `on_update` can miss the final character: a trimmed first
      chunk of two or more characters fires the callback, a following
      one-character chunk does not, so the last callback shows less than
      the returned text (for instance "ab" then "c": "ab" against "abc"). */
  lemma LastUpdateLags(a: string, c: char)
    requires |a| >= 2 && !IsSpace(a[0]) && !IsSpace(a[|a| - 1]) && !IsSpace(c)
    ensures Run([a, [c]]).updates == [a]
    ensures Strip(Concat([a, [c]])) == a + [c]
  {
    UpdatesAfterTwo(a, [c]);
    StripTrimmedAppend(a, c);
    ConcatTwo(a, [c]);
  }

  /** A chunk of two or more characters followed by a one-character chunk
      fires the callback once, with the first chunk stripped. */
  lemma UpdatesAfterTwo(a: string, d: string)
    requires |a| >= 2 && |d| == 1
    ensures Run([a, d]).updates == [Strip(a)]
  {
    StepFromEmpty(a);
    StepOneChar(StreamState(a, a, [Strip(a)]), d);
    RunTwo(a, d);
  }

  // ---------------------------------------------------------------------
  // Gemini
  // ---------------------------------------------------------------------

  /** Gemini's loop: every chunk, empty or not, triggers `on_update` with
      the stripped text so far. The result pairs the full text with the
      callback arguments. */
  function GeminiRun(deltas: seq<string>): (r: (string, seq<string>))
    ensures r.0 == Concat(deltas)
    ensures |r.1| == |deltas|
    ensures forall i :: 0 <= i < |r.1| ==> r.1[i] <= Strip(r.0)
    ensures |deltas| > 0 ==> r.1[|deltas| - 1] == Strip(r.0)
  {
    if |deltas| == 0 then ("", [])
    else
      var prev := GeminiRun(deltas[..|deltas| - 1]);
      var full := prev.0 + deltas[|deltas| - 1];
      var s0, s1 := Strip(prev.0), Strip(full);
      assert s0 <= s1 by { StripPrefixOfExtension(prev.0, deltas[|deltas| - 1]); }
      PrefixesExtend(prev.1, s0, s1);
      PrefixesAppend(prev.1, s1);
      (full, prev.1 + [s1])
  }

  lemma GeminiTwo(a: string, b: string)
    ensures GeminiRun([a, b]).1 == [Strip(a), Strip(a + b)]
  {
    var ds := [a, b];
    assert ds[..1] == [a];
    assert [a][..0] == [];
    assert "" + a == a;
  }

  /** Unlike the throttled loop, Gemini's last callback always shows the
      complete returned text. */
  lemma ThrottledLagsGeminiDoesNot(a: string, c: char)
    requires |a| >= 2 && !IsSpace(a[0]) && !IsSpace(a[|a| - 1]) && !IsSpace(c)
    ensures GeminiRun([a, [c]]).1 == [a, a + [c]]
    ensures Run([a, [c]]).updates == [a]
  {
    LastUpdateLags(a, c);
    StripTrimmedAppend(a, c);
    GeminiTwo(a, [c]);
  }

  /** Gemini's callbacks also arrive in generation order. */
  lemma {:induction false} GeminiOrdered(deltas: seq<string>)
    ensures Ordered(GeminiRun(deltas).1)
    decreases |deltas|
  {
    if |deltas| > 0 {
      var init := deltas[..|deltas| - 1];
      var d := deltas[|deltas| - 1];
      var prev := GeminiRun(init);
      GeminiOrdered(init);
      StripPrefixOfExtension(prev.0, d);
      PrefixesExtend(prev.1, Strip(prev.0), Strip(prev.0 + d));
      OrderedSnoc(prev.1, Strip(prev.0 + d));
    }
  }

  // ---------------------------------------------------------------------
  // Streams that raise
  // ---------------------------------------------------------------------

  /** The streaming providers. g4f and Ollama throttle their callbacks;
      Gemini calls back on every chunk. */
  datatype Provider = G4f | Gemini | Ollama

  /** How the `try` block ends once the chunks given alongside have been
      consumed: the iterator is exhausted, or an exception is raised, by
      the iterator or by the `on_update` call of the last of those chunks. */
  datatype StreamEnd = Exhausted | RaisesAfter(error: string)

  /** What the user sees: the `on_update` arguments, in order, and the
      text the call returns. */
  datatype StreamReply = StreamReply(updates: seq<string>, text: string)

  /** The provider's `except` clause (or its normal return) as text. */
  function Rendered(p: Provider, o: LlmHistory.Outcome): string {
    match p
    case G4f => LlmHistory.G4fText(o)
    case Gemini => LlmHistory.GeminiText(o)
    case Ollama => LlmHistory.OllamaText(o)
  }

  /** A whole streaming call: the callbacks already made stay made,
      whatever the ending; an exception replaces the returned text with the
      provider's error text. */
  function Streamed(p: Provider, deltas: seq<string>, end: StreamEnd): StreamReply {
    var updates := if p.Gemini? then GeminiRun(deltas).1 else Run(deltas).updates;
    var outcome := match end
      case Exhausted => LlmHistory.Reply(Strip(Concat(deltas)))
      case RaisesAfter(e) => LlmHistory.Raised(e);
    StreamReply(updates, Rendered(p, outcome))
  }

  /** A stream that raises after some chunks keeps exactly the callbacks a
      stream ending there normally would have made; they are in order and
      each shows a prefix of the text generated so far. The returned text
      is the error text instead: "Error: " and the exception for g4f,
      "Message blocked: " and the exception for Gemini, the bare exception
      for Ollama. */
  lemma RaisedStreamKeepsCallbacks(p: Provider, deltas: seq<string>, e: string)
    ensures var r := Streamed(p, deltas, RaisesAfter(e));
      && r.updates == Streamed(p, deltas, Exhausted).updates
      && Ordered(r.updates)
      && (forall i :: 0 <= i < |r.updates| ==> r.updates[i] <= Strip(Concat(deltas)))
      && (p.G4f? ==> StartsWith(r.text, "Error: ") && r.text[7..] == e)
      && (p.Gemini? ==> StartsWith(r.text, "Message blocked: ") && r.text[17..] == e)
      && (p.Ollama? ==> r.text == e)
    ensures Streamed(p, deltas, Exhausted).text == Strip(Concat(deltas))
  {
    if p.Gemini? {
      GeminiOrdered(deltas);
    } else {
      UpdatesOrdered(deltas);
      RunWhole(deltas);
    }
  }

  /** One trimmed chunk of two or more characters, then an exception: the
      callback has already shown the chunk, and the call returns only the
      error text. */
  lemma FailureAfterOneChunk(a: string, e: string)
    requires |a| >= 2 && !IsSpace(a[0]) && !IsSpace(a[|a| - 1])
    ensures Streamed(G4f, [a], RaisesAfter(e)) == StreamReply([a], "Error: " + e)
    ensures Streamed(Gemini, [a], RaisesAfter(e)) == StreamReply([a], "Message blocked: " + e)
    ensures Streamed(Ollama, [a], RaisesAfter(e)) == StreamReply([a], e)
  {
    OneChunk(a);
    StripTrimmed(a);
  }

  /** A single chunk of two or more characters: both loops call back once,
      with the stripped chunk. */
  lemma OneChunk(a: string)
    requires |a| >= 2
    ensures Run([a]).updates == [Strip(a)]
    ensures GeminiRun([a]).1 == [Strip(a)]
  {
    RunAppend([], a);
    assert [] + [a] == [a];
    StepFromEmpty(a);
    assert [a][..0] == [];
    assert "" + a == a;
  }
}
