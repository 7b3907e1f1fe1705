/** The settings window's decision logic (src/settings.py): prompt
    overrides, the command-virtualization switch, which handler rows may
    be selected, the mapping between handler tables and their names, and
    what happens after an install attempt.  The widgets themselves are
    not modelled; each operation returns the values it stores. */
module SettingsWindow {
  import opened Wrappers
  import Handler

  // ---------------------------------------------------------------------------
  // Prompt overrides
  // ---------------------------------------------------------------------------

  /** The prompt text the window shows for `name`: the user's override when
      there is one, the shipped default otherwise. */
  function Effective(defaults: map<string, string>, custom: map<string, string>, name: string): string
    requires name in defaults
  {
    if name in custom then custom[name] else defaults[name]
  }

  /** Editing the prompt entry `name` to `text`.  Typing the default text
      back deletes the override, which raises `KeyError` when there is no
      override to delete; an unknown prompt name raises `KeyError` too.
      On success the map is what gets persisted as "custom-prompts". */
  function EditPrompt(defaults: map<string, string>, custom: map<string, string>,
                      name: string, text: string): (r: Result<map<string, string>, string>)
    ensures r.Failure? <==> name !in defaults || (text == defaults[name] && name !in custom)
    ensures r.Success? ==> r.value.Keys <= custom.Keys + {name}
    ensures r.Success? ==> (name in r.value <==> text != defaults[name])
    ensures r.Success? ==> forall k :: k in custom && k != name ==> k in r.value && r.value[k] == custom[k]
  {
    if name !in defaults then Failure("KeyError")
    else if text == defaults[name] then
      if name in custom then Success(custom - {name}) else Failure("KeyError")
    else Success(custom[name := text])
  }

  /** After a successful edit the window shows exactly what was typed, and
      every other prompt keeps the text it showed before. */
  lemma EditThenEffective(defaults: map<string, string>, custom: map<string, string>,
                          name: string, text: string, other: string)
    requires EditPrompt(defaults, custom, name, text).Success?
    requires other in defaults
    ensures name in defaults
    ensures Effective(defaults, EditPrompt(defaults, custom, name, text).value, name) == text
    ensures other != name ==>
      Effective(defaults, EditPrompt(defaults, custom, name, text).value, other) == Effective(defaults, custom, other)
  {
  }

  /** One "changed" signal of the prompt entry: the handler runs
      `EditPrompt` on the entry's new text.  An exception raised inside a
      signal handler is only logged, so a failing edit stores and
      persists nothing.  The second component lists the maps persisted
      as "custom-prompts". */
  function OnEntryChanged(defaults: map<string, string>, custom: map<string, string>,
                          name: string, text: string): (r: (map<string, string>, seq<map<string, string>>))
    ensures EditPrompt(defaults, custom, name, text).Failure? ==> r == (custom, [])
    ensures EditPrompt(defaults, custom, name, text).Success? ==>
      r == (EditPrompt(defaults, custom, name, text).value, [EditPrompt(defaults, custom, name, text).value])
  {
    match EditPrompt(defaults, custom, name, text)
    case Success(m) => (m, [m])
    case Failure(_) => (custom, [])
  }

  /** The outcome of pressing "restore": the overrides afterwards and every
      map persisted on the way. */
  datatype Restored = Restored(custom: map<string, string>, writes: seq<map<string, string>>)

  /** Pressing "restore" sets the entry's text to the default.  A text
      buffer's `set_text` deletes the current text (a "changed" signal when
      `shown` is non-empty) and then inserts the new one (a second signal
      when the default is non-empty); the change handler runs on each.
      Reading the default of an unknown name raises `KeyError` before any
      of that. */
  function RestorePrompt(defaults: map<string, string>, custom: map<string, string>,
                         name: string, shown: string): (r: Result<Restored, string>)
    ensures r.Failure? <==> name !in defaults
  {
    if name !in defaults then Failure("KeyError")
    else
      var deleted := if shown != "" then OnEntryChanged(defaults, custom, name, "") else (custom, []);
      var inserted :=
        if defaults[name] != "" then OnEntryChanged(defaults, deleted.0, name, defaults[name]) else (deleted.0, []);
      Success(Restored(inserted.0, deleted.1 + inserted.1))
  }

  /** Restoring always ends with the override removed, so the default is
      shown, whether or not the prompt had been edited: the only exception
      is an entry already empty with an empty default, where no signal
      fires at all. */
  lemma RestoreRemovesOverride(defaults: map<string, string>, custom: map<string, string>, name: string, shown: string)
    requires name in defaults
    ensures RestorePrompt(defaults, custom, name, shown).Success?
    ensures shown != "" || defaults[name] != "" ==>
      && RestorePrompt(defaults, custom, name, shown).value.custom == custom - {name}
      && Effective(defaults, RestorePrompt(defaults, custom, name, shown).value.custom, name) == defaults[name]
    ensures shown == "" && defaults[name] == "" ==> RestorePrompt(defaults, custom, name, shown) == Success(Restored(custom, []))
  {
    if shown != "" && defaults[name] != "" {
      assert EditPrompt(defaults, custom, name, "") == Success(custom[name := ""]);
      assert custom[name := ""] - {name} == custom - {name};
    } else if shown != "" {
      if name !in custom {
        assert custom - {name} == custom;
      }
    } else if defaults[name] != "" {
      if name !in custom {
        assert custom - {name} == custom;
      }
    } else {
      var none: seq<map<string, string>> := [];
      assert none + none == none;
    }
  }

  /** Restoring a prompt the user changed persists twice: first an
      override holding the empty text, then the overrides without it. */
  lemma RestoreWritesTwice(defaults: map<string, string>, custom: map<string, string>, name: string, shown: string)
    requires name in defaults && shown != "" && defaults[name] != ""
    ensures RestorePrompt(defaults, custom, name, shown).value.writes == [custom[name := ""], custom - {name}]
  {
    assert EditPrompt(defaults, custom, name, "") == Success(custom[name := ""]);
    assert custom[name := ""] - {name} == custom - {name};
  }

  // ---------------------------------------------------------------------------
  // Command virtualization
  // ---------------------------------------------------------------------------

  /** The stored "virtualization" flag when the window opens: forced on when
      the application cannot escape its sandbox. */
  function InitialVirtualization(sandbox: bool, stored: bool): (r: bool)
    ensures !sandbox ==> r
    ensures sandbox ==> r == stored
  {
    if !sandbox then true else stored
  }

  /** The flag stored when the switch is flipped to `status`: turning it off
      without sandbox escape shows a notice and turns it back on. */
  function ToggleVirtualization(sandbox: bool, status: bool): (r: bool)
    ensures r <==> status || !sandbox
  {
    if !sandbox && !status then true else status
  }

  /** The stored flag after the window opens and the switch is flipped
      through `toggles` in order. */
  function VirtualizationAfter(sandbox: bool, stored: bool, toggles: seq<bool>): bool
    decreases |toggles|
  {
    if toggles == [] then InitialVirtualization(sandbox, stored)
    else ToggleVirtualization(sandbox, toggles[|toggles| - 1])
  }

  /** Without sandbox escape virtualization stays on whatever the user does;
      with it, the flag is the switch's last position (or the stored value
      when the switch was never touched). */
  lemma VirtualizationInvariant(sandbox: bool, stored: bool, toggles: seq<bool>)
    ensures !sandbox ==> VirtualizationAfter(sandbox, stored, toggles)
    ensures sandbox ==>
              VirtualizationAfter(sandbox, stored, toggles) == (if toggles == [] then stored else toggles[|toggles| - 1])
  {
  }

  // ---------------------------------------------------------------------------
  // Handler rows
  // ---------------------------------------------------------------------------

  /** Whether a handler's radio button is left sensitive when its row is
      built.  Python's `not a and b or not c` groups as `(not a and b) or
      (not c)`. */
  function RowSelectable(sandbox: bool, h: Handler.HandlerInfo, installed: bool): (r: bool)
    ensures r <==> installed && (sandbox || !h.requiresSandboxEscape)
  {
    !((!sandbox && h.requiresSandboxEscape) || !installed)
  }

  /** The custom-command LLM can never be chosen from inside the sandbox,
      however it is configured. */
  lemma CustomLlmNeedsEscape(installed: bool)
    ensures !RowSelectable(false, Handler.HandlerInfo("custom_command", "llm-settings", [], [], true), installed)
  {
  }

  /** The three handler tables the window lists. */
  datatype Table = LlmTable | SttTable | TtsTable

  /** `convert_constants` from a name to a table; an unknown name raises. */
  function TableOfName(name: string): (r: Result<Table, string>)
    ensures r.Failure? <==> name !in {"llm", "stt", "tts"}
  {
    if name == "tts" then Success(TtsTable)
    else if name == "stt" then Success(SttTable)
    else if name == "llm" then Success(LlmTable)
    else Failure("Unknown constants")
  }

  /** `convert_constants` from a table to its name. */
  function NameOfTable(t: Table): string {
    match t
    case LlmTable => "llm"
    case SttTable => "stt"
    case TtsTable => "tts"
  }

  /** The two directions of `convert_constants` are inverse to each other. */
  lemma TableNamesBijective(t: Table, name: string)
    ensures TableOfName(NameOfTable(t)) == Success(t)
    ensures TableOfName(name).Success? ==> NameOfTable(TableOfName(name).value) == name
  {
  }

  /** The setting a table's selected handler is stored under. */
  function SelectionKey(t: Table): (r: string)
    ensures r in {"language-model", "tts", "stt-engine"}
  {
    match t
    case LlmTable => "language-model"
    case TtsTable => "tts"
    case SttTable => "stt-engine"
  }

  /** Choosing the row of handler `key` in table `t` (or in a table the
      window does not know, `None`, which stores nothing). */
  function ChooseRow(settings: map<string, string>, t: Option<Table>, key: string): (r: map<string, string>)
    ensures t.None? ==> r == settings
    ensures t.Some? ==> SelectionKey(t.value) in r && r[SelectionKey(t.value)] == key
    ensures forall k :: k in settings && (t.None? || k != SelectionKey(t.value)) ==> k in r && r[k] == settings[k]
  {
    match t
    case None => settings
    case Some(table) => settings[SelectionKey(table) := key]
  }

  /** Distinct tables store their selection under distinct keys, so
      choosing an LLM never changes the chosen voice or recogniser. */
  lemma SelectionKeysDistinct(a: Table, b: Table)
    ensures SelectionKey(a) == SelectionKey(b) <==> a == b
  {
  }

  // ---------------------------------------------------------------------------
  // After an install attempt
  // ---------------------------------------------------------------------------

  /** What the window does once `install()` returns: an error text opens a
      dialog; otherwise, if the handler now reports itself installed, the
      settings are refreshed.  In every case the install button ends
      insensitive and the row's radio button is made sensitive. */
  datatype AfterInstall = AfterInstall(dialog: Option<string>, refresh: bool,
                                       installButtonSensitive: bool, radioSensitive: bool)

  function InstallModelAsync(result: Handler.InstallResult, installedAfter: bool): (r: AfterInstall)
    ensures r.dialog.Some? <==> result.InstallError? && Handler.IsErrorText(result.message)
    ensures r.dialog.Some? ==> r.dialog.value == result.message
    ensures r.refresh <==> r.dialog.None? && installedAfter
    ensures !r.installButtonSensitive && r.radioSensitive
  {
    if result.InstallError? && Handler.IsErrorText(result.message) then
      AfterInstall(Some(result.message), false, false, true)
    else
      AfterInstall(None, installedAfter, false, true)
  }

  /** A failed install still makes the handler's radio button selectable,
      although the same handler's row would have been built with the button
      insensitive. */
  lemma FailedInstallUnlocksRow(sandbox: bool, h: Handler.HandlerInfo, message: string)
    requires Handler.IsErrorText(message)
    ensures !RowSelectable(sandbox, h, false)
    ensures InstallModelAsync(Handler.InstallError(message), false).dialog == Some(message)
    ensures InstallModelAsync(Handler.InstallError(message), false).radioSensitive
  {
  }
}
