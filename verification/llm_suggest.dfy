/** `LLMHandler.get_suggestions` of `src/llm.py`: follow-up prompts asked
    of the model as a JSON array of strings. The model's reply to each
    attempt and `json.loads` are oracles: `reply(k)` is the text produced
    on attempt `k`, and `loads(t)` is the top-level array parsed from `t`,
    or `None` when `t` is not JSON or not an array. */
module LlmSuggest {
  import opened Wrappers
  import opened Text
  import opened Json
  import opened Chat

  /** One line of the context: "Speaker: Message\n". */
  function TurnLine(t: Turn): string {
    t.user + ": " + t.message + "\n"
  }

  function Lines(ts: seq<Turn>): string {
    if |ts| == 0 then "" else TurnLine(ts[0]) + Lines(ts[1..])
  }

  /** The last four turns, or the whole history when shorter. */
  function LastFour(history: seq<Turn>): (r: seq<Turn>)
    ensures |r| == if |history| >= 4 then 4 else |history|
    ensures r == history[|history| - |r|..]
  {
    if |history| >= 4 then history[|history| - 4..] else history
  }

  /** The prompt sent on every attempt. */
  function SuggestionPrompt(history: seq<Turn>, requestPrompt: string): (r: string)
    ensures EndsWith(r, "\n\n" + requestPrompt)
  {
    var p := Lines(LastFour(history)) + "\n\n" + requestPrompt;
    assert p[|p| - |"\n\n" + requestPrompt|..] == "\n\n" + requestPrompt;
    p
  }

  /** Code fences are deleted, "```json" first. */
  function StripFences(s: string): string {
    Replace(Replace(s, "```json", ""), "```", "")
  }

  // ---------------------------------------------------------------------
  // Collecting the strings
  // ---------------------------------------------------------------------

  /** The string elements of a parsed array, in order. */
  function StringsOf(items: seq<Value>): (r: seq<string>)
    ensures |r| <= |items|
  {
    if |items| == 0 then []
    else (if items[0].VStr? then [items[0].s] else []) + StringsOf(items[1..])
  }

  /** The inner loop: string elements are appended until the counter,
      starting at `count`, reaches `amount`. */
  function TakeStrings(items: seq<Value>, count: nat, amount: nat): (r: seq<string>)
  {
    if |items| == 0 || count >= amount then []
    else if items[0].VStr? then [items[0].s] + TakeStrings(items[1..], count + 1, amount)
    else TakeStrings(items[1..], count, amount)
  }

  /** The inner loop keeps a prefix of the string elements, as many as the
      counter allows. */
  lemma {:induction false} TakeStringsIsPrefix(items: seq<Value>, count: nat, amount: nat)
    requires count <= amount
    ensures var r := TakeStrings(items, count, amount);
      && r <= StringsOf(items)
      && |r| == Min(amount - count, |StringsOf(items)|)
  {
    if |items| > 0 && count < amount {
      TakeStringsIsPrefix(items[1..], if items[0].VStr? then count + 1 else count, amount);
    }
  }

  function Min(a: nat, b: nat): nat {
    if a <= b then a else b
  }

  /** The strings one attempt yields, before any cap. */
  function AttemptStrings(k: nat, reply: nat -> string, loads: string -> Option<seq<Value>>): seq<string> {
    match loads(StripFences(reply(k)))
    case None => []
    case Some(items) => StringsOf(items)
  }

  /** Attempt `k` as written: the loop variable `i` restarts at `k`, so the
      attempt may add up to `amount - k` strings. */
  function Attempt(k: nat, amount: nat, reply: nat -> string, loads: string -> Option<seq<Value>>): seq<string> {
    match loads(StripFences(reply(k)))
    case None => []
    case Some(items) => TakeStrings(items, k, amount)
  }

  /** The result after the first `n` attempts, as written. */
  function SuggestionsUpTo(n: nat, amount: nat, reply: nat -> string, loads: string -> Option<seq<Value>>): seq<string> {
    if n == 0 then []
    else SuggestionsUpTo(n - 1, amount, reply, loads) + Attempt(n - 1, amount, reply, loads)
  }

  /** `get_suggestions(request_prompt, amount)` as written. */
  function Suggestions(amount: nat, reply: nat -> string, loads: string -> Option<seq<Value>>): seq<string> {
    SuggestionsUpTo(amount, amount, reply, loads)
  }

  /** The sum of `amount - k` over the first `n` attempts bounds the
      result: at most amount(amount+1)/2 suggestions in all. */
  lemma {:induction false} SuggestionsUpToBound(n: nat, amount: nat, reply: nat -> string, loads: string -> Option<seq<Value>>)
    requires n <= amount
    ensures 2 * |SuggestionsUpTo(n, amount, reply, loads)| <= n * (2 * amount - n + 1)
  {
    if n > 0 {
      var k := n - 1;
      var before := |SuggestionsUpTo(k, amount, reply, loads)|;
      var added := |Attempt(k, amount, reply, loads)|;
      assert |SuggestionsUpTo(n, amount, reply, loads)| == before + added;
      SuggestionsUpToBound(k, amount, reply, loads);
      AttemptBound(k, amount, reply, loads);
      var tk, tn := k * (2 * amount - k + 1), n * (2 * amount - n + 1);
      TriangleStep(k, n, amount);
      assert 2 * before <= tk && added <= amount - k;
    }
  }

  /** Attempt `k` adds at most `amount - k` strings. */
  lemma AttemptBound(k: nat, amount: nat, reply: nat -> string, loads: string -> Option<seq<Value>>)
    requires k < amount
    ensures |Attempt(k, amount, reply, loads)| <= amount - k
  {
    match loads(StripFences(reply(k)))
    case None =>
    case Some(items) => TakeStringsIsPrefix(items, k, amount);
  }

  lemma TriangleStep(k: int, n: int, amount: int)
    requires n == k + 1
    ensures k * (2 * amount - k + 1) + 2 * (amount - k) == n * (2 * amount - n + 1)
  {
    assert k * (2 * amount - k + 1) == 2 * amount * k - k * k + k;
    assert n * (2 * amount - n + 1) == 2 * amount * n - n * n + n;
    assert n * n == k * k + 2 * k + 1;
  }

  lemma SuggestionsBound(amount: nat, reply: nat -> string, loads: string -> Option<seq<Value>>)
    ensures 2 * |Suggestions(amount, reply, loads)| <= amount * (amount + 1)
  {
    SuggestionsUpToBound(amount, amount, reply, loads);
  }

  /** Asking for two suggestions from a model that always answers with two
      strings yields three: both from the first attempt, one from the
      second. */
  lemma SuggestionsExceedAmount(reply: nat -> string, loads: string -> Option<seq<Value>>)
    requires forall t :: loads(t) == Some([VStr("a"), VStr("b")])
    ensures Suggestions(2, reply, loads) == ["a", "b", "a"]
  {
    var items := [VStr("a"), VStr("b")];
    assert items[1..] == [VStr("b")];
    assert items[1..][1..] == [];
    assert TakeStrings(items, 0, 2) == ["a", "b"];
    assert TakeStrings(items, 1, 2) == ["a"];
    assert SuggestionsUpTo(1, 2, reply, loads) == [] + ["a", "b"];
  }

  /** The as-written loop, in the source's shape: an outer loop over the
      attempts, each running the inner loop below. */
  method GetSuggestions(amount: nat, reply: nat -> string, loads: string -> Option<seq<Value>>) returns (result: seq<string>)
    ensures result == Suggestions(amount, reply, loads)
    ensures 2 * |result| <= amount * (amount + 1)
  {
    result := [];
    for k := 0 to amount
      invariant result == SuggestionsUpTo(k, amount, reply, loads)
    {
      var generated := StripFences(reply(k));
      match loads(generated)
      case None =>
      case Some(items) =>
        var taken := TakeLoop(items, k, amount);
        result := result + taken;
    }
    SuggestionsBound(amount, reply, loads);
  }

  /** The inner loop over the parsed array: string elements are appended
      while the counter, starting at `start`, is below `amount`. */
  method TakeLoop(items: seq<Value>, start: nat, amount: nat) returns (taken: seq<string>)
    ensures taken == TakeStrings(items, start, amount)
  {
    taken := [];
    var i: nat := start;
    var j := 0;
    while j < |items| && i < amount
      invariant 0 <= j <= |items|
      invariant taken + TakeStrings(items[j..], i, amount) == TakeStrings(items, start, amount)
    {
      assert items[j..][1..] == items[j + 1..];
      if items[j].VStr? {
        taken := taken + [items[j].s];
        i := i + 1;
      }
      j := j + 1;
    }
  }

  // ---------------------------------------------------------------------
  // Capped at `amount`
  // ---------------------------------------------------------------------

  /** All string elements of the first `n` attempts, uncapped. */
  function AllStrings(n: nat, reply: nat -> string, loads: string -> Option<seq<Value>>): seq<string> {
    if n == 0 then [] else AllStrings(n - 1, reply, loads) + AttemptStrings(n - 1, reply, loads)
  }

  /** The loop with the counter tracking the accepted suggestions: each
      attempt adds strings only while fewer than `amount` were collected. */
  function CappedUpTo(n: nat, amount: nat, reply: nat -> string, loads: string -> Option<seq<Value>>): seq<string> {
    if n == 0 then []
    else
      var prev := CappedUpTo(n - 1, amount, reply, loads);
      match loads(StripFences(reply(n - 1)))
      case None => prev
      case Some(items) => prev + TakeStrings(items, |prev|, amount)
  }

  function CappedSuggestions(amount: nat, reply: nat -> string, loads: string -> Option<seq<Value>>): seq<string> {
    CappedUpTo(amount, amount, reply, loads)
  }

  /** The capped loop returns the first `amount` strings the attempts
      produced, in order. */
  lemma {:induction false} CappedIsFirstStrings(n: nat, amount: nat, reply: nat -> string, loads: string -> Option<seq<Value>>)
    ensures var all := AllStrings(n, reply, loads);
      CappedUpTo(n, amount, reply, loads) == all[..Min(amount, |all|)]
  {
    if n > 0 {
      CappedIsFirstStrings(n - 1, amount, reply, loads);
      CappedStep(n, amount, reply, loads);
    }
  }

  /** One attempt of the capped loop extends the capped prefix of the
      strings so far by the capped prefix of the attempt's strings. */
  lemma CappedStep(n: nat, amount: nat, reply: nat -> string, loads: string -> Option<seq<Value>>)
    requires n > 0
    requires var a := AllStrings(n - 1, reply, loads);
      CappedUpTo(n - 1, amount, reply, loads) == a[..Min(amount, |a|)]
    ensures var all := AllStrings(n, reply, loads);
      CappedUpTo(n, amount, reply, loads) == all[..Min(amount, |all|)]
  {
    var a := AllStrings(n - 1, reply, loads);
    var s := AttemptStrings(n - 1, reply, loads);
    assert AllStrings(n, reply, loads) == a + s;
    match loads(StripFences(reply(n - 1)))
    case None =>
      assert s == [];
      assert a + s == a;
    case Some(items) =>
      assert s == StringsOf(items);
      CappedTake(a, CappedUpTo(n - 1, amount, reply, loads), items, amount);
  }

  /** The arithmetic of one attempt of the capped loop. */
  lemma CappedTake(a: seq<string>, prev: seq<string>, items: seq<Value>, amount: nat)
    requires prev == a[..Min(amount, |a|)]
    ensures var all := a + StringsOf(items);
      prev + TakeStrings(items, |prev|, amount) == all[..Min(amount, |all|)]
  {
    var m := Min(amount, |a|);
    TakeStringsIsPrefix(items, m, amount);
    var s := StringsOf(items);
    var t := TakeStrings(items, m, amount);
    assert t == s[..|t|];
    CapAppend(a, s, amount, t);
  }

  lemma CapAppend(a: seq<string>, s: seq<string>, amount: nat, t: seq<string>)
    requires t == s[..Min(amount - Min(amount, |a|), |s|)]
    ensures (a + s)[..Min(amount, |a + s|)] == a[..Min(amount, |a|)] + t
  {
    if |a| < amount {
      assert a[..|a|] == a;
    }
  }

  /** With the cap, never more than `amount` suggestions. */
  lemma CappedSuggestionsBound(amount: nat, reply: nat -> string, loads: string -> Option<seq<Value>>)
    ensures |CappedSuggestions(amount, reply, loads)| <= amount
    ensures CappedSuggestions(amount, reply, loads) <= AllStrings(amount, reply, loads)
  {
    CappedIsFirstStrings(amount, amount, reply, loads);
  }
}
