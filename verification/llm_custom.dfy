/** `CustomLLMHandler` of `src/llm.py`: the reply comes from a shell
    command the user configures. "{0}" in the command becomes the quoted
    JSON of the stored history and "{1}" the quoted JSON of the system
    prompts; the suggestion command also replaces "{2}" with the amount.
    Running the command is an oracle and is not modelled. */
module LlmCustom {
  import opened Wrappers
  import opened Text
  import opened Json
  import opened Chat
  import opened Extra
  import opened PosixShell

  /** The command `generate_text` and `generate_text_stream` run: the two
      placeholders are replaced one after the other. The prompt passed to
      them is not used. */
  function CustomCommand(template: string, history: seq<Turn>, prompts: seq<string>): string {
    var withHistory := Replace(template, "{0}", QuoteString(DumpsHistory(history)));
    Replace(withHistory, "{1}", QuoteString(DumpsStrings(prompts)))
  }

  /** The command `get_suggestions` runs, or `None` when it is unset (the
      suggestions are then `[]`). */
  function SuggestionCommand(template: string, history: seq<Turn>, prompts: seq<string>, amount: int): (r: Option<string>)
    ensures r.None? <==> template == ""
  {
    if template == "" then None
    else Some(Replace(CustomCommand(template, history, prompts), "{2}", IntToString(amount)))
  }

  /** A command without placeholders runs as written. */
  lemma CommandWithoutPlaceholders(template: string, history: seq<Turn>, prompts: seq<string>)
    requires !Contains(template, "{0}") && !Contains(template, "{1}")
    ensures CustomCommand(template, history, prompts) == template
  {
    ReplaceAbsent(template, "{0}", QuoteString(DumpsHistory(history)));
    ReplaceAbsent(template, "{1}", QuoteString(DumpsStrings(prompts)));
  }

  /** The command "{0}" hands the shell one word whose value is the JSON
      history, as long as that JSON holds no "{1}". */
  lemma HistoryReachesShell(history: seq<Turn>, prompts: seq<string>)
    requires !Contains(QuoteString(DumpsHistory(history)), "{1}")
    ensures ReadWord(CustomCommand("{0}", history, prompts)) == Some(DumpsHistory(history))
  {
    var q := QuoteString(DumpsHistory(history));
    ReplaceWhole("{0}", q);
    ReplaceAbsent(q, "{1}", QuoteString(DumpsStrings(prompts)));
    QuoteStringRoundTrip(DumpsHistory(history));
  }

  /** The replacements are sequential: a "{1}" that the history's JSON
      brings into the command is itself replaced by the prompts, so the
      shell no longer sees the history's text. */
  lemma HistoryPlaceholderRewritten(history: seq<Turn>, prompts: seq<string>)
    requires Contains(QuoteString(DumpsHistory(history)), "{1}")
    ensures CustomCommand("{0}", history, prompts) != QuoteString(DumpsHistory(history))
  {
    var q := QuoteString(DumpsHistory(history));
    var d := DumpsStrings(prompts);
    var p := QuoteString(d);
    assert |d| >= 2;
    assert |p| > 3;
    ReplaceWhole("{0}", q);
    assert CustomCommand("{0}", history, prompts) == Replace(q, "{1}", p);
    ReplaceGrows(q, "{1}", p);
  }

  /** A suggestion command "{2}" asks for the amount in decimal. */
  lemma SuggestionAmount(history: seq<Turn>, prompts: seq<string>, amount: int)
    ensures SuggestionCommand("{2}", history, prompts, amount) == Some(IntToString(amount))
  {
    var t := "{2}";
    assert t[1] == '2';
    assert !OccursAt(t, "{0}", 0) && !OccursAt(t, "{1}", 0);
    ReplaceAbsent(t, "{0}", QuoteString(DumpsHistory(history)));
    ReplaceAbsent(t, "{1}", QuoteString(DumpsStrings(prompts)));
    ReplaceWhole(t, IntToString(amount));
  }
}
