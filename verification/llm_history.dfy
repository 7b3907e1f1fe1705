/** How `src/llm.py` turns the window's chat into the history and the
    message list sent to a provider, and how provider failures come back
    as text. */
module LlmHistory {
  import opened Wrappers
  import opened Text
  import opened Json
  import opened Chat
  import opened Handler

  // ---------------------------------------------------------------------
  // set_history
  // ---------------------------------------------------------------------

  /** `LLMHandler.set_history` (and the g4f override): the slice
      `chat[len(chat) - memory : len(chat) - 1]`. */
  function HistoryWindow(chat: seq<Turn>, memory: int): (w: seq<Turn>)
    ensures |w| < |chat| || |chat| == 0
  {
    Slice(chat, |chat| - memory, |chat| - 1)
  }

  /** `CustomLLMHandler.set_history`: the stop is `len(chat)`, so the
      newest turn is kept. */
  function CustomHistoryWindow(chat: seq<Turn>, memory: int): seq<Turn> {
    Slice(chat, |chat| - memory, |chat|)
  }

  /** Memory within the chat length: the `memory - 1` turns before the
      newest one. */
  lemma HistoryWindowRecent(chat: seq<Turn>, memory: int)
    requires 1 <= memory <= |chat|
    ensures HistoryWindow(chat, memory) == chat[|chat| - memory..|chat| - 1]
    ensures |HistoryWindow(chat, memory)| == memory - 1
  {
  }

  /** Memory between the length and twice the length: the negative start
      wraps around, keeping only `memory - len - 1` turns. */
  lemma HistoryWindowWraps(chat: seq<Turn>, memory: int)
    requires |chat| < memory < 2 * |chat|
    ensures HistoryWindow(chat, memory) == chat[2 * |chat| - memory..|chat| - 1]
    ensures |HistoryWindow(chat, memory)| == memory - |chat| - 1
  {
  }

  /** Memory of at least twice the length: every turn but the newest. */
  lemma HistoryWindowAll(chat: seq<Turn>, memory: int)
    requires |chat| >= 1 && memory >= 2 * |chat|
    ensures HistoryWindow(chat, memory) == chat[..|chat| - 1]
  {
  }

  /** Five turns with memory 7 keep only turn 3. */
  lemma HistoryWindowExample(chat: seq<Turn>)
    requires |chat| == 5
    ensures HistoryWindow(chat, 7) == [chat[3]]
  {
    HistoryWindowWraps(chat, 7);
  }

  /** The window is not monotone in the memory: one more than the length
      keeps nothing, although the length itself keeps all but one turn. */
  lemma HistoryWindowNotMonotone(chat: seq<Turn>)
    requires |chat| >= 2
    ensures |HistoryWindow(chat, |chat|)| == |chat| - 1
    ensures HistoryWindow(chat, |chat| + 1) == []
  {
    HistoryWindowRecent(chat, |chat|);
  }

  /** The custom-command window with memory within the length is the last
      `memory` turns, newest included. */
  lemma CustomHistoryWindowRecent(chat: seq<Turn>, memory: int)
    requires 0 <= memory <= |chat|
    ensures CustomHistoryWindow(chat, memory) == chat[|chat| - memory..]
  {
  }

  // ---------------------------------------------------------------------
  // convert_history and the request
  // ---------------------------------------------------------------------

  /** One message of a chat-completion request. */
  datatype Message = Message(role: string, content: string)

  /** The role g4f, Ollama and OpenAI give a speaker: `user.lower()` for
      "Assistant" and "User", "system" for anyone else. */
  function Role(user: string): string {
    if user == "Assistant" then "assistant"
    else if user == "User" then "user"
    else "system"
  }

  lemma RoleValues(user: string)
    ensures Role(user) in {"assistant", "user", "system"}
    ensures Role(user) == "user" <==> user == "User"
    ensures Role(user) == "assistant" <==> user == "Assistant"
  {
  }

  /** `convert_history(history, prompts)` of the g4f and Ollama handlers. */
  function ConvertHistory(prompts: seq<string>, history: seq<Turn>): (r: seq<Message>)
    ensures |r| == |history| + 1
    ensures r[0] == Message("system", Join(prompts, "\n"))
    ensures forall i :: 0 <= i < |history| ==>
      r[i + 1] == Message(Role(history[i].user), history[i].message)
    decreases |history|
  {
    if |history| == 0 then [Message("system", Join(prompts, "\n"))]
    else
      var last := history[|history| - 1];
      ConvertHistory(prompts, history[..|history| - 1]) + [Message(Role(last.user), last.message)]
  }

  /** Converting a longer history extends the converted shorter one. */
  lemma ConvertHistoryExtends(prompts: seq<string>, history: seq<Turn>, t: Turn)
    ensures ConvertHistory(prompts, history + [t])
         == ConvertHistory(prompts, history) + [Message(Role(t.user), t.message)]
  {
    assert (history + [t])[..|history|] == history;
  }

  /** The message list of `generate_text`: the converted history followed
      by the user prompt. */
  function RequestMessages(prompts: seq<string>, history: seq<Turn>, prompt: string): (r: seq<Message>)
    ensures |r| == |history| + 2
    ensures r[0].role == "system" && r[|r| - 1] == Message("user", prompt)
    ensures r[..|r| - 1] == ConvertHistory(prompts, history)
  {
    ConvertHistory(prompts, history) + [Message("user", prompt)]
  }

  /** Every message of a request carries content taken verbatim from the
      prompts, the history or the prompt, and a role among the three the
      API accepts. */
  lemma RequestRoles(prompts: seq<string>, history: seq<Turn>, prompt: string)
    ensures forall i :: 0 <= i < |history| + 2 ==>
      RequestMessages(prompts, history, prompt)[i].role in {"assistant", "user", "system"}
  {
    var r := RequestMessages(prompts, history, prompt);
    forall i | 0 <= i < |history| + 2 ensures r[i].role in {"assistant", "user", "system"} {
      if 1 <= i <= |history| {
        RoleValues(history[i - 1].user);
      }
    }
  }

  /** Gemini's private history conversion: "user" (the lower-cased name)
      for the user, "model" for every other speaker. */
  function GeminiRole(user: string): string {
    if user == "User" then "user" else "model"
  }

  function GeminiHistory(history: seq<Turn>): (r: seq<Message>)
    ensures |r| == |history|
    ensures forall i :: 0 <= i < |history| ==>
      r[i] == Message(GeminiRole(history[i].user), history[i].message)
  {
    if |history| == 0 then []
    else
      var last := history[|history| - 1];
      GeminiHistory(history[..|history| - 1]) + [Message(GeminiRole(last.user), last.message)]
  }

  /** A console turn is a system message for g4f but a model message for
      Gemini. */
  lemma ConsoleRolesDiffer()
    ensures Role("Console") == "system" && GeminiRole("Console") == "model"
  {
  }

  /** Gemini's system instruction: the non-streaming call prefixes "\n",
      so its text is never empty and the `None` branch cannot be taken;
      the streaming call passes `None` for an empty join. */
  function GeminiInstruction(prompts: seq<string>, streaming: bool): (r: Option<string>)
    ensures !streaming ==> r.Some?
    ensures streaming ==> (r.None? <==> Join(prompts, "\n") == "")
  {
    var text := if streaming then Join(prompts, "\n") else "\n" + Join(prompts, "\n");
    if text == "" then None else Some(text)
  }

  lemma GeminiInstructionNoPrompts()
    ensures GeminiInstruction([], false) == Some("\n")
    ensures GeminiInstruction([], true) == None
  {
    assert Join([], "\n") == "";
    assert "\n" + "" == "\n";
  }

  // ---------------------------------------------------------------------
  // Errors returned as text
  // ---------------------------------------------------------------------

  /** What a provider call does: returns a reply or raises with the given
      message (`str(e)`). */
  datatype Outcome = Reply(text: string) | Raised(error: string)

  /** The reply, or the exception text behind a fixed prefix. */
  function PrefixedText(prefix: string, o: Outcome): (r: string)
    ensures o.Reply? ==> r == o.text
    ensures o.Raised? ==> StartsWith(r, prefix) && r[|prefix|..] == o.error
  {
    match o
    case Reply(t) => t
    case Raised(e) => prefix + e
  }

  /** g4f handlers (`generate_text` and the stream). */
  function G4fText(o: Outcome): (r: string)
    ensures o.Raised? ==> StartsWith(r, "Error: ") && r[7..] == o.error
  {
    PrefixedText("Error: ", o)
  }

  /** Gemini. */
  function GeminiText(o: Outcome): (r: string)
    ensures o.Raised? ==> StartsWith(r, "Message blocked: ") && r[17..] == o.error
  {
    PrefixedText("Message blocked: ", o)
  }

  /** Ollama: the bare exception text. */
  function OllamaText(o: Outcome): (r: string)
    ensures o.Raised? ==> r == o.error
  {
    match o
    case Reply(t) => t
    case Raised(e) => e
  }

  /** GPT3Any has no handler: the exception propagates. */
  function Gpt3AnyText(o: Outcome): (r: Result<string, string>)
    ensures r.Success? <==> o.Reply?
  {
    match o
    case Reply(t) => Success(t)
    case Raised(e) => Failure(e)
  }

  /** The caller cannot tell a failure from a reply that happens to read
      like one: the mapping to text is not injective. */
  lemma ErrorsLookLikeReplies(e: string)
    ensures G4fText(Raised(e)) == G4fText(Reply("Error: " + e))
    ensures GeminiText(Raised(e)) == GeminiText(Reply("Message blocked: " + e))
    ensures OllamaText(Raised(e)) == OllamaText(Reply(e))
  {
  }

  /** `stream_enabled()`: the stored flag, `False` when it reads `None`. */
  function StreamEnabled(setting: Value): (r: Value)
    ensures r != VNone
    ensures Truthy(r) == Truthy(setting)
  {
    if setting == VNone then VBool(false) else setting
  }

  /** `web_search_enabled = get_setting("web_search_enabled") or False`. */
  function WebSearchEnabled(setting: Value): (r: Value)
    ensures Truthy(r) == Truthy(setting)
    ensures Truthy(setting) ==> r == setting
  {
    if Truthy(setting) then setting else VBool(false)
  }

  // ---------------------------------------------------------------------
  // Declared settings of the language-model handlers
  // ---------------------------------------------------------------------

  const G4fSettings: seq<Descriptor> :=
    [Descriptor("streaming", VBool(true)), Descriptor("web_search_enabled", VBool(false))]

  const OllamaSettings: seq<Descriptor> :=
    [ Descriptor("endpoint", VStr("http://localhost:11434")), Descriptor("model", VStr("llama3.1:8b")),
      Descriptor("streaming", VBool(true)), Descriptor("web_search_enabled", VBool(false)) ]

  const CustomLlmSettings: seq<Descriptor> :=
    [ Descriptor("streaming", VBool(true)), Descriptor("web_search_enabled", VBool(false)),
      Descriptor("command", VStr("")), Descriptor("suggestion", VStr("")) ]

  const CustomLlm: HandlerInfo := HandlerInfo("custom_command", "llm-settings", CustomLlmSettings, [], true)
  const Ollama: HandlerInfo := HandlerInfo("ollama", "llm-settings", OllamaSettings, ["ollama"], false)

  /** On a fresh (unparseable or empty) settings document, streaming is on
      and web search is off for the custom-command handler, and Ollama
      talks to the local endpoint. */
  lemma FreshLlmSettings(blob: Store)
    requires blob.Malformed? || blob == Doc(map[])
    ensures Truthy(StreamEnabled(GetSettingWith(CustomLlm, blob, "streaming", k => DefaultFirstWins(CustomLlmSettings, k))))
    ensures !Truthy(WebSearchEnabled(GetSettingWith(CustomLlm, blob, "web_search_enabled", k => DefaultFirstWins(CustomLlmSettings, k))))
    ensures GetSettingWith(Ollama, blob, "endpoint", k => DefaultFirstWins(OllamaSettings, k)) == VStr("http://localhost:11434")
  {
    var custom := k => DefaultFirstWins(CustomLlmSettings, k);
    var ollama := k => DefaultFirstWins(OllamaSettings, k);
    assert CustomLlmSettings[0].key == "streaming";
    assert custom("streaming") == VBool(true);
    assert GetSettingWith(CustomLlm, blob, "streaming", custom) == VBool(true);
    assert CustomLlmSettings[0].key != "web_search_enabled" && CustomLlmSettings[1].key == "web_search_enabled";
    assert custom("web_search_enabled") == VBool(false);
    assert GetSettingWith(CustomLlm, blob, "web_search_enabled", custom) == VBool(false);
    assert OllamaSettings[0].key == "endpoint";
    assert ollama("endpoint") == VStr("http://localhost:11434");
  }
}
