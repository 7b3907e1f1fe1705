# Newelle core, modelled in Dafny

Newelle is a GTK assistant. It chats with a language model, runs the
commands the model proposes, reads replies aloud and takes spoken input.
Take away the widgets, threads, processes and network, and what is left
is a set of small sequential rules over strings, lists and maps. This
project models those rules as pure Dafny functions and proves what they
guarantee:

- the per-handler settings store shared by every handler, and its
  declared defaults (`Handler`);
- the language-model protocol (`LlmHistory`, `LlmStream`, `LlmSearch`,
  `LlmSuggest`, `LlmCustom`), which covers:
  - the history window;
  - role-tagged messages;
  - the throttled streaming loop;
  - web-search augmentation;
  - the suggestion loop;
  - the shell command of the custom-command model;
- the string helpers of `src/extra.py` (`Extra`), which covers:
  - shell quoting;
  - `{key}` substitution;
  - prompt overrides;
  - size units;
- the extension manager and the extension generator (`ExtensionManager`,
  `ExtensionGenerator`);
- the settings window (`SettingsWindow`) and its local-model download
  button (`Downloads`);
- the main window's session rules (`MainWindow`), which covers:
  - the active chat;
  - dropped files;
  - the "continue" guard;
  - the extension registry;
  - model choice;
- the explorer's back and forward buttons over `os.path.normpath`
  (`PosixPath`);
- the speech handlers (`Tts`, `Stt`) and the decision logic inside the
  custom widgets (`Widgets`).

Some Python and standard semantics are stated once and used everywhere:

- Python string methods (`Text`);
- `json.dumps` and its string decoder (`Json`);
- word reading under section 2.2 "Quoting" of the POSIX Shell Command
  Language, IEEE Std 1003.1 (`PosixShell`);
- Python list slicing (`Chat`).

Some operations are not modelled in their own terms but replaced by
inputs:

- every call into code the model cannot see is a function parameter:
  - the language model;
  - `json.loads` of a reply;
  - `find_module` and `install_module`;
  - `os.path.exists` and `os.path.isdir`;
  - reading and copying files;
  - running a command;
- the clock and `os.urandom` are inputs;
- floating-point arithmetic is exact rational arithmetic.

## Model

| member | source | states |
|---|---|---|
| Handler.DefaultsMap | src/handler.py:76 | The defaults dictionary has exactly one key for each declared setting key. |
| Handler.DefaultLastWinsSpec | src/handler.py:74-77 | `get_default_setting(k)` is the default of the last descriptor that declares `k`; earlier duplicates are overwritten. |
| Handler.DefaultLastWinsUndeclared | src/handler.py:77 | An undeclared key has the default `None`. |
| Handler.DefaultFirstWins | src/llm.py:50-63 | The language-model handlers' default is that of the first descriptor declaring the key, or `None` when no descriptor declares it. |
| Handler.DefaultsAgree | src/llm.py:59-63 | With distinct keys, the base-class and language-model defaults coincide for every key. |
| Handler.DefaultsDisagreeOnDuplicates | src/handler.py:76 | With a repeated key the base class picks the last default and the language-model class the first. |
| Handler.GetSettingWith | src/handler.py:52-61 | A value stored under `j[handler][key]` is returned exactly. A malformed document, a missing handler entry or a missing key gives the declared default. |
| Handler.SetSetting | src/handler.py:63-72 | A malformed document is left untouched. Otherwise the writer's entry exists afterwards and no other handler entry is added or removed. |
| Handler.GetAfterSet | src/handler.py:63-70 | Round trip: after `set_setting(k, v)` on a valid document, `get_setting(k)` is `v`. |
| Handler.SetSettingFrame | src/handler.py:66-70 | A write leaves the setting that every other (handler, key) pair reads unchanged, defaults included. |
| Handler.SetSettingNothingElse | src/handler.py:66-70 | The written document differs only at `j[handler][key]`. Other handler entries are identical, and the writer's other keys keep their values. |
| Handler.IsInstalled | src/handler.py:45-50 | Installed if and only if every requirement resolves; an empty requirement list is installed. |
| Handler.Install | src/handler.py:32-39 | The result is the first `install_module` output containing "Error", if any; otherwise it is `_custom_install()`. |
| Handler.InstallDefaultSucceeds | src/handler.py:41-43 | Without a failing requirement, a handler that keeps the base `_custom_install` reports success. |
| Chat.SliceBound | src/llm.py:48 | A slice bound is clamped into `0..n`, and a negative bound counts from the end, as in Python. |
| Chat.Slice | src/llm.py:48 | `s[a:b]` is the sub-sequence between the clamped bounds, and empty when they cross. |
| LlmHistory.HistoryWindow | src/llm.py:48 | The history handed to the model never contains the newest turn, so it is strictly shorter than a non-empty chat. |
| LlmHistory.HistoryWindowRecent | src/llm.py:48 | When memory ≤ length, the window is the `memory - 1` turns before the newest one. |
| LlmHistory.HistoryWindowWraps | src/llm.py:48 | When length < memory < 2·length, the negative start wraps around and only `memory - length - 1` turns remain. |
| LlmHistory.HistoryWindowAll | src/llm.py:48 | When memory ≥ 2·length, the window is every turn but the newest. |
| LlmHistory.HistoryWindowExample | src/llm.py:48 | Five turns with memory 7 keep only turn 3. |
| LlmHistory.HistoryWindowNotMonotone | src/llm.py:48 | Raising the memory from the length to the length plus one empties the window. |
| LlmHistory.CustomHistoryWindowRecent | src/llm.py:539-541 | The custom-command model's window is the last `memory` turns, newest included. |
| LlmHistory.RoleValues | src/llm.py:227 | A speaker's role is one of the three API roles; it is "user" exactly for User and "assistant" exactly for Assistant. |
| LlmHistory.ConvertHistory | src/llm.py:220-230 | There is one message more than the history has turns. The first is the system message with the prompts joined by "\n", and turn `i` becomes message `i + 1` with its role and verbatim content. |
| LlmHistory.ConvertHistoryExtends | src/llm.py:225-229 | Converting a history with one more turn appends exactly one message. |
| LlmHistory.RequestMessages | src/llm.py:236-241 | The request is the converted history followed by the prompt as the last, "user", message. |
| LlmHistory.RequestRoles | src/llm.py:236-241 | Every message of a request carries one of the roles the API accepts. |
| LlmHistory.GeminiHistory | src/llm.py:427-434 | Gemini's conversion keeps turn order and content, with role "user" for the user and "model" for every other speaker. |
| LlmHistory.ConsoleRolesDiffer | src/llm.py:431 | A console turn is a system message for g4f but a model message for Gemini. |
| LlmHistory.GeminiInstruction | src/llm.py:451-453 | The non-streaming system instruction is never `None`, because of the "\n" prefix. The streaming one is `None` exactly when the joined prompts are empty. |
| LlmHistory.GeminiInstructionNoPrompts | src/llm.py:480-482 | With no prompts, the non-streaming instruction is "\n" and the streaming one is `None`. |
| LlmHistory.PrefixedText | src/llm.py:248-249 | A reply is returned as is; a failure is the given prefix followed by exactly the exception text. |
| LlmHistory.G4fText | src/llm.py:248-249 | A g4f failure comes back as "Error: " followed by the exception text. |
| LlmHistory.GeminiText | src/llm.py:462-463 | A Gemini failure comes back as "Message blocked: " followed by the exception text. |
| LlmHistory.OllamaText | src/llm.py:647-648 | An Ollama failure comes back as the bare exception text. |
| LlmHistory.Gpt3AnyText | src/llm.py:339-348 | GPT3Any catches nothing: it succeeds exactly when the provider replies. |
| LlmHistory.ErrorsLookLikeReplies | src/llm.py:647-648 | For each provider, some reply yields the same text as a failure, so the caller cannot tell the two apart. |
| LlmHistory.StreamEnabled | src/llm.py:29-34 | `stream_enabled()` is never `None`, and its truth value is that of the stored setting. |
| LlmHistory.WebSearchEnabled | src/llm.py:27 | The flag's truth value is that of the stored setting, and a truthy setting is kept as it is. |
| LlmHistory.FreshLlmSettings | src/llm.py:505-537 | On an empty or unparseable document, the custom-command model streams and does not search, and Ollama's endpoint is `http://localhost:11434`. |
| LlmStream.RunThrottled | src/llm.py:262-271 | After any sequence of chunks, the loop invariant holds, and `full_message` is the concatenation of the chunks. The invariant says: the reported text is a prefix of the full text and at most one character short; there are at most half as many callbacks as reported characters; every callback argument is a prefix of the stripped full text; the last one is the stripped reported text. |
| LlmStream.StepReports | src/llm.py:265-269 | A chunk that leaves the reported text two or more characters behind reports the stripped full text and keeps the invariant. |
| LlmStream.StepQuiet | src/llm.py:264-270 | A chunk that leaves it at most one character behind changes only the full text and keeps the invariant. |
| LlmStream.StepThrottled | src/llm.py:264-270 | One chunk preserves that invariant and appends the chunk to the full text. |
| LlmStream.UpdatesOrdered | src/llm.py:262-270 | The callbacks arrive in generation order: each argument is a prefix of every later one. |
| LlmStream.ThrottledStream | src/llm.py:262-271 | When the stream is exhausted, the loop returns the stripped concatenation of all chunks. Every callback argument is a prefix of that result and of every later argument; there are at most half as many callbacks as characters; the last callback shows the stripped reported text, which is at most one character short. |
| LlmStream.StreamLoop | src/llm.py:264-270 | The imperative loop leaves `full_message`, `prev_message` and the callbacks equal to those of the fold. |
| LlmStream.RunWhole | src/llm.py:262-271 | The invariant, restated for the whole input. |
| LlmStream.LastUpdateLags | src/llm.py:268-271 | A chunk of at least two characters followed by one more character: the only callback shows the first chunk, while the returned text has the extra character. |
| LlmStream.GeminiRun | src/llm.py:488-493 | Gemini calls back once per chunk. Every argument is a prefix of the stripped result, and the last argument is the result itself. |
| LlmStream.ThrottledLagsGeminiDoesNot | src/llm.py:489-493 | On the same two chunks, Gemini's last callback shows the whole text while the throttled loop's lags one character. |
| LlmStream.GeminiOrdered | src/llm.py:488-493 | Gemini's callbacks also arrive in generation order: each argument is a prefix of every later one. |
| LlmStream.RaisedStreamKeepsCallbacks | src/llm.py:256-273 | An exception after some chunks, from the iterator or from `on_update`, keeps the callbacks already made: exactly those of a stream ending there normally, in order, each a prefix of the text so far. The returned text is the error text instead of that text: "Error: " and the exception for g4f, "Message blocked: " and the exception for Gemini (src/llm.py:494-495), the bare exception for Ollama (src/llm.py:672-673). |
| LlmStream.FailureAfterOneChunk | src/llm.py:484-495 | One trimmed chunk of two or more characters and then an exception: the callback has already shown the chunk, and each provider returns only its error text. |
| LlmStream.OneChunk | src/llm.py:664-671 | A single chunk of two or more characters makes both loops call back once, with the stripped chunk. |
| LlmSearch.Summary | src/llm.py:185 | The summary is empty without a snippet, and otherwise ends in ".". |
| LlmSearch.SummaryIsFirstSentence | src/llm.py:185 | The summary is the beginning of the stripped snippet, cut before its first ". ". |
| LlmSearch.FormatHit | src/llm.py:186 | Each hit is one "- "-prefixed entry ending in a newline. |
| LlmSearch.FormatResultsEmpty | src/llm.py:179-187 | The search text is empty exactly when no result block has a link. |
| LlmSearch.PerformWebSearch | src/llm.py:188-191 | A request error and a processing error come back as text behind their fixed prefixes. |
| LlmSearch.AugmentMessage | src/llm.py:105-108 | The outgoing message always starts with the user's message. |
| LlmSearch.AugmentUnchanged | src/llm.py:123-126 | The message goes out unchanged exactly when search is off or the search text is empty. Otherwise the search text follows the fixed "Web Search Results" header. |
| LlmSearch.SearchFailureAugments | src/llm.py:188-191 | A failed search is appended like a result and is not skipped. |
| LlmSuggest.LastFour | src/llm.py:142 | The context is the last four turns, or the whole history when it is shorter. |
| LlmSuggest.SuggestionPrompt | src/llm.py:142-145 | The prompt sent on every attempt ends with "\n\n" and the request prompt. |
| LlmSuggest.StringsOf | src/llm.py:152-154 | Only string elements of the parsed array are kept. |
| LlmSuggest.TakeStringsIsPrefix | src/llm.py:152-157 | The inner loop keeps a prefix of the string elements, exactly `min(amount - start, #strings)` of them. |
| LlmSuggest.AttemptBound | src/llm.py:151-157 | Attempt `k` (0-based) contributes at most `amount - k` suggestions. |
| LlmSuggest.SuggestionsUpToBound | src/llm.py:144-157 | The first `n` attempts together yield at most the sum of `amount - k` over `k < n`. |
| LlmSuggest.SuggestionsBound | src/llm.py:144-158 | In total at most amount·(amount+1)/2 suggestions come back. |
| LlmSuggest.SuggestionsExceedAmount | src/llm.py:144-157 | Asking for 2 from a model that always answers `["a","b"]` returns three suggestions. |
| LlmSuggest.GetSuggestions | src/llm.py:139-158 | The nested loops compute exactly the modelled result, within the triangular bound. |
| LlmSuggest.TakeLoop | src/llm.py:152-157 | The inner loop, run imperatively, equals its functional definition. |
| LlmSuggest.CappedIsFirstStrings | src/llm.py:144-157 | With a counter of accepted suggestions, the result is the first `amount` strings that all attempts produced, in order. |
| LlmSuggest.CappedSuggestionsBound | src/llm.py:144-157 | With the counter fixed, never more than `amount` suggestions, and they are a prefix of all strings produced. |
| LlmCustom.SuggestionCommand | src/llm.py:550-556 | An empty suggestion command runs nothing (the result is `[]`); any other command runs. |
| LlmCustom.CommandWithoutPlaceholders | src/llm.py:543-547 | A command without "{0}" and "{1}" runs exactly as written. |
| LlmCustom.HistoryReachesShell | src/llm.py:545 | The command "{0}" gives the shell one word whose value is the JSON of the history. |
| LlmCustom.HistoryPlaceholderRewritten | src/llm.py:545-546 | Substitution is sequential: a "{1}" inside the inserted history is rewritten too, so the shell no longer sees the history's text. |
| LlmCustom.SuggestionAmount | src/llm.py:556 | "{2}" becomes the amount in decimal. |
| Extra.QuoteString | src/extra.py:29-33 | The quoted text starts and ends with a single quote and is at least two characters longer. |
| Extra.QuoteStringEscapesEveryQuote | src/extra.py:29-33 | Both branches equal "'" + s with every `'` turned into `'\''` + "'". |
| Extra.QuoteStringRoundTrip | src/extra.py:29-33 | Round trip: a POSIX shell reads the quoted text as one word whose value is the original string. |
| Extra.QuoteStringInjective | src/extra.py:29-33 | Distinct strings quote differently. |
| Extra.ReadQuotedEscaped | src/extra.py:31 | The escaped body followed by the closing quote reads back as the original text. |
| Extra.ReplaceVariablesLoop | src/extra.py:35-39 | The loop over the dictionary equals the left fold of `replace("{k}", str(v))` in insertion order. |
| Extra.ReplaceVariablesConcat | src/extra.py:37-38 | Substituting with a concatenated dictionary is substituting with the first part, then with the second. |
| Extra.ReplaceVariablesNoBrace | src/extra.py:35-39 | Text without "{" is returned unchanged, whatever the variables. |
| Extra.ReplaceVariablesIsSequential | src/extra.py:37-38 | A value that contains a later placeholder is itself substituted. |
| Extra.OverridePrompts | src/extra.py:118-123 | The result has exactly the default prompts' keys. Each value is the override when one exists and the default otherwise; extra override keys are dropped. |
| Extra.HumanReadableUnit | src/extra.py:66-73 | The unit is the `k`-th of B..PiB, and value·1024^k equals the truncated size. Below PiB the value is under 1024, and the size reached each power taken. |
| Json.UnescapeEscapeString | src/llm.py:545-546 | Round trip: decoding the body of `json.dumps(s)` gives back `s`. |
| Json.DumpsStringInjective | src/llm.py:545-546 | Distinct strings have distinct `json.dumps` texts. |
| Json.EscapeStringIsAscii | src/llm.py:545-546 | With `ensure_ascii`, the encoded text is printable ASCII. |
| ExtensionManager.HandleFileOperations | src/extension.py:10-15 | The call's value is returned. FileNotFoundError, a JSON error and any other OSError give `None`; every other exception propagates. |
| ExtensionManager.LoadExtensionData | src/extension.py:17-23 | `None` exactly for a missing file or bad JSON. |
| ExtensionManager.LoadIsNarrower | src/extension.py:10-23 | The two wrappers differ exactly on OSErrors other than those two. |
| ExtensionManager.ListExtensionsSpec | src/extension.py:65-71 | The listing succeeds exactly when no manifest read raises an uncaught error. It then shows the directories whose manifest is non-empty, in listing order. |
| ExtensionManager.PlainFileBreaksListing | src/extension.py:66-69 | A plain file in the extension directory makes the listing fail. |
| ExtensionManager.ListExtensionsCheckedSpec | src/extension.py:65-71 | With the directory test first, only directories' manifests matter, and the same rows are shown. |
| ExtensionManager.StatusShown | src/extension.py:54 | A manifest without `status` shows as disabled. |
| ExtensionManager.ProcessFolder | src/extension.py:102-140 | A manifest that cannot be read raises. |
| ExtensionManager.ProcessFolderSpec | src/extension.py:113-136 | The folder is refused as wrong exactly when a required field is empty. A successful install stores the manifest with `status` false under `root/name` and leaves other packages alone. |
| ExtensionManager.AbsoluteNameEscapesRoot | src/extension.py:122 | An absolute name installs the package outside the extension directory. |
| ExtensionManager.FailedReinstallLosesPackage | src/extension.py:123-134 | When the copy fails after the old package was removed, the old package is gone and "error copying" is shown. |
| ExtensionManager.ChangeStatus | src/extension.py:79-88 | The written manifest gains exactly `status` = the switch state and keeps every other field. The registry keeps its keys; the entry named like the directory, when present, becomes its old value with `status` set, and every other entry is unchanged. With no manifest the registry is unchanged. |
| ExtensionManager.SwitchMissesRenamedPackage | src/extension.py:85-86 | When the directory name is not a registry key, the file changes but the running registry does not. |
| ExtensionManager.DeleteNeverNotifies | src/extension.py:90-94 | `rmtree` returns `None`, so "has been removed" never appears. |
| ExtensionGenerator.GenerationPrompt | newelle_extension_generator.py:15-25 | The name, description and functionality occur verbatim at their fixed positions in the prompt. |
| ExtensionGenerator.StripCodeFencesRoundTrip | newelle_extension_generator.py:27 | Round trip: a backtick-free body fenced as the prompt asks comes back unchanged. |
| ExtensionGenerator.GenerateExtensionCode | newelle_extension_generator.py:12-32 | A failing model gives `("", False)`. A successful one gives the reply with its code fences stripped, paired with the checker's verdict on that code. |
| ExtensionGenerator.LastSegment | newelle_extension_generator.py:41 | `path.split("/")[-1]` has no "/" and ends the path. |
| ExtensionGenerator.InstallExtension | newelle_extension_generator.py:38-61 | The name is rejected before any disk access exactly when the last segment is not `[A-Za-z0-9_]+`, the empty name included. For a good name, installing succeeds exactly when the directory, the manifest and the code can all be made. The manifest is the fixed four-field one, written to `main.json` in the directory, and the code is written verbatim to `<name>.py` there. A failing code write leaves the manifest behind. |
| ExtensionGenerator.GeneratedManifestIncomplete | newelle_extension_generator.py:54 | A generated manifest has no status (shown off), and its empty prompt and description make it not installable through the folder chooser. |
| SettingsWindow.EditPrompt | src/settings.py:291-298 | Fails with KeyError exactly for an unknown name, or for the default text with no override to delete. On success the name is overridden exactly when the text differs from the default, and every other override is kept. |
| SettingsWindow.EditThenEffective | src/settings.py:291-298 | After an edit the prompt shown is the typed text, and every other prompt shows what it showed before. |
| SettingsWindow.OnEntryChanged | src/settings.py:291-298 | One "changed" event of a prompt entry: the edit handler's new overrides and the one settings write, or nothing at all when the handler raises (a GTK handler's exception is only logged). |
| SettingsWindow.RestorePrompt | src/settings.py:300-303 | Restoring fails exactly when the prompt has no default. Otherwise setting the entry's text runs the change handler once for clearing a non-empty text and once for inserting a non-empty default. |
| SettingsWindow.RestoreRemovesOverride | src/settings.py:291-303 | Whenever at least one "changed" event fires, the restore ends with the override removed and the default shown. When neither fires, nothing changes. |
| SettingsWindow.RestoreWritesTwice | src/settings.py:291-303 | With a non-empty shown text and default, the settings are written twice: first with the prompt overridden by "", then with the override gone. |
| SettingsWindow.InitialVirtualization | src/settings.py:132-136 | Without sandbox escape the flag is forced on; otherwise the stored value is kept. |
| SettingsWindow.ToggleVirtualization | src/settings.py:305-311 | The stored flag is on exactly when the switch is on or there is no sandbox escape. |
| SettingsWindow.VirtualizationInvariant | src/settings.py:305-311 | Without escape the flag stays on through any toggles; with escape it is the switch's last position. |
| SettingsWindow.RowSelectable | src/settings.py:169-170 | A handler's button is sensitive exactly when the handler is installed and either the sandbox can be escaped or the handler does not need it. |
| SettingsWindow.CustomLlmNeedsEscape | src/llm.py:500-503 | The custom-command model is never selectable inside the sandbox. |
| SettingsWindow.TableOfName | src/settings.py:187-197 | Exactly "llm", "stt" and "tts" are accepted; any other name raises. |
| SettingsWindow.TableNamesBijective | src/settings.py:187-206 | The two directions of `convert_constants` are inverse to each other. |
| SettingsWindow.ChooseRow | src/settings.py:218-228 | The table's selection key is set to the row's handler, and nothing else changes; an unknown table stores nothing. |
| SettingsWindow.SelectionKeysDistinct | src/settings.py:220-225 | Different tables store under different keys. |
| SettingsWindow.InstallModelAsync | src/settings.py:383-401 | A dialog opens exactly for an "Error" text result. A refresh happens exactly when there is no error and the handler is installed, and the install button always ends insensitive with the radio button sensitive. |
| SettingsWindow.FailedInstallUnlocksRow | src/settings.py:396-401 | After a failed install, the row's radio button is sensitive although the row was built insensitive. |
| Downloads.PressDownload | src/settings.py:474-478 | Starting a download rebinds the button to removal and starts the thread, touching no file. |
| Downloads.PressRemove | src/settings.py:503-525 | Afterwards nothing is downloading and no model file remains. The button returns to download exactly when a model file existed, and a running thread is killed. |
| Downloads.StepConsistent | src/settings.py:474-525 | Every event, a failing fetch included, keeps the state consistent. Consistent means: a fetching thread has the flag set, and the flag is set otherwise only after the fetch raised; while it is set, and while a download is pending, the button is bound to removal with no model file; and a download button has no file behind it. Without a failing fetch the flag is set exactly while the thread fetches. A fetch that raises leaves the flag set with the thread gone. |
| Downloads.RunConsistent | src/settings.py:474-525 | Any sequence of events keeps that consistency. A sequence without a failing fetch keeps the flag set exactly while the thread fetches. |
| Downloads.CancelKeepsRemoveBinding | src/settings.py:505-525 | A press while the flag is set clears it and kills a fetching thread (a dead thread stays dead). With no model file the button stays bound to removal. |
| Downloads.FailedDownloadScenario | src/settings.py:491-525 | Press, start and a fetch that raises leave the flag set with no thread, so the poller never stops. The next press clears the flag, but the button stays on removal for good. |
| Downloads.PressesAfterCancel | src/settings.py:512-525 | After a cancel, any number of presses changes nothing. |
| Downloads.CancelledDownloadScenario | src/settings.py:481 | Press, start, press leaves the button on removal with a stray ".part" file. |
| Downloads.CompletedDownloadScenario | src/settings.py:491-523 | A completed download followed by a press deletes the file and restores the download button. |
| Downloads.Poll | src/settings.py:480-489 | The poller shows at most one non-negative fraction per round. |
| Downloads.PollInOrder | src/settings.py:480-489 | The fractions shown are exactly `partSize / filesize` of the active rounds with a readable size and a non-zero expected size, one per such round, in round order. |
| Downloads.PollNonDecreasing | src/settings.py:480-489 | When the ".part" file never shrinks, the fractions shown never decrease. |
| Downloads.ActiveRounds | src/settings.py:482 | The number of leading rounds with the flag on. |
| Downloads.PollOnlyWhileDownloading | src/settings.py:482-489 | What the poller shows depends only on the rounds before the flag first goes false. |
| PosixPath.PathJoin | src/extension.py:122 | An absolute second part replaces the first; otherwise the result extends the first part and ends with the second. |
| PosixPath.NormPath | src/window.py:466 | `normpath` never returns the empty string. |
| PosixPath.NormCompsNormal | src/window.py:466 | The normalised components are non-empty, not "." and slash-free. ".." occurs only as a leading run, and never in a rooted path. |
| PosixPath.NormPathEndsDotDot | src/window.py:474 | A normalised path ends in "/.." only when every component it keeps is "..". |
| PosixPath.Forward | src/window.py:473-476 | "Forward" moves exactly when the path ends in "/..". |
| PosixPath.ForwardAfterBack | src/window.py:465-476 | Right after "back", "forward" can move only for a relative path made of ".." components alone. |
| PosixPath.ForwardAfterBackDotDot | src/window.py:465-476 | From "..", "back" gives "../.." and "forward" does return to "..". |
| PosixPath.ExpandUser | src/window.py:414 | A path not starting with "~" is not expanded. |
| PosixPath.ExpandHome | src/window.py:414 | "~/rest" becomes the home directory (trailing slashes dropped) followed by "/rest". |
| PosixPath.ResolveCancelsTilde | src/window.py:414 | Normalising before expanding lets ".." cancel the "~": "~/../x" opens "x" in the current directory. |
| MainWindow.LoadChatHistory | src/window.py:41-53 | A readable chat file is used as stored; a missing or unreadable one gives the single empty "Chat 1". |
| MainWindow.PyIndex | src/window.py:322 | A Python index is valid exactly within `-n..n-1`, and a negative one counts from the end. |
| MainWindow.ActiveIndex | src/window.py:319-322 | The active chat exists exactly when there are chats and the stored id is at least `-len`. An id within range selects itself, and an id past the end selects the last chat. |
| MainWindow.FallbackHistoryActive | src/window.py:322 | With the fallback history every id ≥ -1 selects its one empty chat. |
| MainWindow.DropTurns | src/window.py:455-458 | One turn per existing dropped path: user Folder or File as `isdir` says, message " " + path; missing paths add nothing. |
| MainWindow.DropTurnsInOrder | src/window.py:455-458 | There are exactly as many turns as existing paths, and the turn of the k-th existing path is at position k. |
| MainWindow.HandleFileDrag | src/window.py:451-463 | A drop is refused exactly while a reply is being generated. It never changes the number of chats, and it can only raise when the stored id is past the last chat. |
| MainWindow.DropAppendsToActive | src/window.py:455-460 | The dropped turns are appended to the active chat, and every other chat is untouched. |
| MainWindow.DropPastLastChat | src/window.py:460 | With the stored id past the end, the first file lands in the last chat and the write-back raises IndexError. |
| MainWindow.NoContinueAfterDrop | src/window.py:484-489 | Right after files are dropped, "continue" is refused. |
| MainWindow.DroppedLastBlocksContinue | src/window.py:485 | A chat ending in a dropped file cannot be continued. |
| Json.PyEqEquivalence | src/window.py:367 | Dictionary key equality (`==`, with booleans equal to 0 and 1) is reflexive, symmetric and transitive. |
| Json.PyEqBoolInt | src/window.py:367 | `True` and `1` are the same key, as are `False` and `0`; `True` is not `2` and `"1"` is not `1`. |
| MainWindow.FindKey | src/window.py:367 | Dictionary lookup finds the first position whose key equals the given key under Python's `==`, or reports that none does. |
| MainWindow.FindKeyCongruent | src/window.py:367 | Keys equal under `==` are found at the same position. |
| MainWindow.Put | src/window.py:367 | Dictionary assignment keeps every key object in place, including the original key when an equal one is assigned, changes only the entry equal to the key, appends a new key last exactly when none is equal, and the key then reads back as the value. |
| MainWindow.LookupAfterPut | src/window.py:367 | Assigning one key leaves every key not equal to it alone. |
| MainWindow.LookupAfterPutSame | src/window.py:367 | After assigning a key, every key equal to it reads the new value. |
| MainWindow.TrueAndOneShareEntry | src/window.py:355-367 | Manifests named `True` and `1` share one registry entry: the key of the first, the entry of the second. |
| MainWindow.LastNamed | src/window.py:355-367 | No entry exists exactly when no manifest with that name registers. |
| MainWindow.LoadExtensionsSpec | src/window.py:355-367 | The registry holds, for each name, the entry of the last manifest with a truthy `api` carrying that name. |
| MainWindow.BotPrompts | src/window.py:348 | The active prompts are those of the registered entries with a truthy status; there are none exactly when no status is truthy. |
| MainWindow.BotPromptsInOrder | src/window.py:348 | There are exactly as many prompts as entries with a truthy status, and the prompt of the k-th such entry is at position k. |
| MainWindow.SetHistoryCalls | src/window.py:349-350 | `set_history` is never called exactly when no registered extension has a truthy status. |
| MainWindow.GeneratedExtensionInactive | src/window.py:366-367 | A generated extension registers under its name with no status, so it adds no prompt. |
| MainWindow.ChooseModel | src/window.py:341-346 | The chosen model is the configured key when it is registered, else the first registered provider; there is no choice exactly when the key is unregistered and there are no providers. |
| MainWindow.ChosenRowIsLoaded | src/window.py:341-342 | Choosing a model's row in the settings makes it the model loaded next. |
| MainWindow.SpokenInput | src/window.py:305-310 | A recognition result is sent exactly when it is a non-empty string, and then verbatim. |
| Tts.VoiceDefault | src/tts.py:31-43 | The voice default is "" without voices, and otherwise the first voice's id, which is available. |
| Tts.VoiceAvailableLoop | src/tts.py:48-49 | `voice_available(v)` holds exactly when some voice's id is `v`. |
| Tts.CurrentVoice | src/tts.py:93-95 | A truthy stored voice is used. Otherwise the current voice is the first voice's id when voices exist, else `None`. |
| Tts.DefaultVoiceIsCurrent | src/tts.py:93-95 | Before any choice, the current voice is the first voice (`None` without voices). |
| Tts.Connect | src/tts.py:65-69 | Only "start" and "stop" replace a callback; any other signal changes nothing. |
| Tts.Playsound | src/tts.py:71-84 | Playback is bracketed: the lock and `on_start` come first, and `on_stop` and the release come last, whatever failed in between. |
| Tts.ConnectedCallbacksBracket | src/tts.py:65-84 | The callbacks connected last bracket the next playback, even when loading fails. |
| Tts.TempFileName | src/tts.py:100-103 | The temporary name ends in ".mp3" and is 21 characters longer than the timestamp. |
| Tts.TempFileNameParses | src/tts.py:100-103 | The name splits at its one "_" into the timestamp and the hex part, and the timestamp reads back as the seconds. |
| Tts.AllPresent | src/tts.py:140 | The voices are all parsed or none: one missing value gives `None`. |
| Tts.ParseVoiceLines | src/tts.py:140-144 | Each line gives the voice made of its fourth and fifth words, in order. A line with fewer than five words gives no list at all. |
| Tts.EspeakVoices | src/tts.py:132-144 | Cached voices win; a handler that is not installed, or a failing command, gives no voices. |
| Tts.EspeakHeaderSkipped | src/tts.py:138-140 | The first line of the listing is skipped and the rest parsed. |
| Tts.EspeakInstalled | src/tts.py:163-171 | espeak counts as installed exactly when the sandbox can be escaped, `whereis` succeeds and its stripped output contains ":". |
| Tts.EspeakPlayAsWritten | src/tts.py:146-153 | As written, espeak playback always raises NameError. |
| Tts.EspeakPlay | src/tts.py:146-153 | With the import fixed, espeak is started with the message as its own argument. |
| Tts.EspeakPlayDiffers | src/tts.py:149 | As written nothing is spoken; the corrected call runs espeak with the current voice. |
| Tts.CustomPlayAsWritten | src/tts.py:197-206 | An empty command does nothing; a non-empty one raises NameError. |
| Tts.CustomPlay | src/tts.py:197-206 | With the import fixed, a falsy command does nothing, a non-string one raises AttributeError, and a non-empty one runs `bash -c` on the host with "{0}" replaced by the message. |
| Tts.CustomPlayMessageUnquoted | src/tts.py:202 | The message is spliced into the command raw: "{0}" runs the message itself, and a command without "{0}" ignores it. |
| Tts.SandboxedVoices | src/tts.py:128-130 | Inside the sandbox only gTTS is selectable. |
| Stt.RecognisersInstalled | src/stt.py:66-70 | Sphinx is installed exactly when `pocketsphinx` resolves, and Vosk exactly when `vosk` resolves; Google always is. |
| Stt.SphinxResult | src/stt.py:85-97 | Audio Sphinx cannot understand is reported as a message; only a failure gives `None`. |
| Stt.ServiceResult | src/stt.py:122-136 | The other recognisers return text exactly for a transcription. |
| Stt.SphinxErrorIsSent | src/stt.py:92-94 | Sphinx's "could not understand" message is sent to the model as if spoken, while the others lead to the notice. |
| Stt.GoogleKey | src/stt.py:127-129 | The key "default" (or none stored) selects the built-in key; any other value is passed on. |
| Stt.FreshGoogleSettings | src/stt.py:103-120 | With nothing stored, Google uses the built-in key and "en-US". |
| Stt.CustomRecognize | src/stt.py:266-275 | A falsy command runs nothing. A result is the stripped output of bash running the command with the path for "{0}", and a failing command gives `None`. |
| Stt.BlankOutputNotSent | src/stt.py:270-271 | Whitespace-only output strips to "" and is not sent. |
| Stt.FreshCustomRecogniserIdle | src/stt.py:251-260 | The default command is empty, so a fresh custom recogniser runs nothing. |
| Widgets.IconName | src/gtkobj.py:30-46 | Directories take the special-folder icon or "folder". A file is an image icon exactly when its name ends in .png or .jpg, ignoring case, and text otherwise. |
| Widgets.GetIconName | src/gtkobj.py:30-31 | The icon lookup fails with AttributeError exactly when the widget's `path` is unset; otherwise it is the icon of the "~"-expanded directory joined with the entry's name. |
| Widgets.NewFileAsWritten | src/gtkobj.py:20-23 | As written, constructing the file widget always raises AttributeError: the icon is looked up before `self.path` is assigned. |
| Widgets.NewFile | src/gtkobj.py:20-24 | Corrected, the widget keeps its directory and name. Its icon is a folder icon exactly when the joined location is a directory, and a special folder's own icon for the special folders. |
| Widgets.DirectoryIconIsFolder | src/gtkobj.py:32-44 | No special-folder icon, nor "folder", is one of the two file icons. |
| Widgets.ImageExtensionIgnoresCase | src/gtkobj.py:46 | "x.PNG", "x.png" and "x.JPG" are all images. |
| Widgets.StyleFrom | src/gtkobj.py:177-182 | A language no key matches gets "success". |
| Widgets.StyleClassSpec | src/gtkobj.py:170-182 | The style is "accent", "warning", "error", "" or "success" by language family, as listed. |
| Widgets.MaxOf | src/gtkobj.py:283 | `max(values)` is one of the values and bounds them all. |
| Widgets.ChartMax | src/gtkobj.py:283-285 | The maximum bounds every value. It is 1 for an empty chart and the largest value otherwise; for percentages it is 100 when every value is at most 100, and otherwise the largest value. |
| Widgets.BarsWithinRange | src/gtkobj.py:290 | Non-negative values give bar fractions between 0 and 1. |
| Widgets.InitialIndex | src/gtkobj.py:319-320 | The initial index is the first option whose value equals the stored setting. It is 0 when there is none, which includes a stored `None` or a non-string value. |
| Widgets.OnSelectedAsWritten | src/gtkobj.py:329-331 | As written, selecting an option always fails. |
| Widgets.OnSelected | src/gtkobj.py:329-331 | Corrected, selecting option `i` emits its value, and fails only when there is no such option. |
| Widgets.ComboChange | src/settings.py:249-250 | A failed selection stores nothing. |
| Widgets.VoiceChoiceLostAsWritten | src/gtkobj.py:330 | As written, picking a voice does not change the current voice. |
| Widgets.VoiceChoiceStored | src/gtkobj.py:329-331 | Corrected, the picked voice becomes current, and reopening the settings selects an option with that value. |

## Left out

- Widgets, toasts, dialogs, CSS and GTK signal wiring are not modelled.
  Each operation returns the values it would store or show.
- Threads and locks are left out. The download button is a sequential
  state machine, with one event at a time, and the
  `PyThreadState_SetAsyncExc` kill is a single event. The playback
  semaphore appears only as events in a trace.
- Processes, the network and the file system are parameters:
  - the provider SDKs;
  - `requests` with BeautifulSoup;
  - `check_output` and `Popen`;
  - pip and wget;
  - `os.listdir`, `open` and pickle;
  - `shutil`.
- `perform_web_search` does not URL-encode the query. The model starts
  from the parsed result blocks, so the URL is not modelled.
- Audio recording and playback, pygame's mixer, and gTTS's voice list
  and `save_audio` are not modelled. The base `play_audio` file handling
  (temporary file, save, play, remove) is left out apart from the file
  name.
- `markwon_to_pango` is driven by regular expressions and an XML parser,
  and is not modelled.
- Floating point is not modelled. Progress fractions, bar fractions and
  `human_readable_size` use exact rationals, and the "%.2f" formatting
  is left out.
- Extra.HumanReadableUnit returns the scaled value and the unit, not the
  formatted text.
- Validation of generated code is a predicate parameter:
  `validate_python_code` is imported from `src/extra.py` but not defined
  there.
- `load_extension` and `get_extension_metadata` of the generator are
  left out, since no modelled code calls them.
- The extension window's `generate_extension` (src/extension.py:142-172)
  is left out: it passes the model object where a callable is expected.
- The one-argument `replace_variables` call in `_load_model`
  (src/window.py:348) raises TypeError. MainWindow.BotPrompts is the
  prompt list the call is evidently meant to build, without substitution.
- `_load_model` reads `self.extensions` before `_load_extensions` first
  sets it (src/window.py:337-338). The model takes the registry as an
  input.
- The provider tables (`AVAILABLE_LLMS`, `AVAILABLE_STT`,
  `AVAILABLE_TTS`) and the GPT4All handler are not part of this model.
  Providers are their keys, in table order.
- src/llm.py and src/window.py end mid-definition. Nothing past
  `OllamaHandler` and `continue_message` is modelled.
- OpenAI, Nexra, Airforce, Wit.ai, Vosk and Whisper are left out as
  handlers; only their error conventions and requirements are kept.
  `generate_chat_name` is also left out.
- Annotations that name `List` and `Dict` without importing them are
  assumed to evaluate; the modules are taken to load. This affects
  src/stt.py, src/extension.py and newelle_extension_generator.py.
- `json.loads` of stored settings is abstracted. A settings document is
  either malformed or an object of objects of scalars; other JSON shapes
  are not modelled.
- Manifests and registry entries hold scalar values only.
- `str.lower()` is ASCII-only in the model (Text.AsciiLower). The
  suffix test compares only against ASCII letters.
- A role is computed from the speaker by cases ("Assistant" gives
  "assistant", "User" gives "user"), not by lower-casing.
- Web-search failures are appended to the message. The code returns
  non-empty error strings, and `send_message` appends every non-empty
  result; the model follows the code, not a reading in which failures
  leave the message unaugmented.
- Empty chunks in the Ollama and custom-command streams are skipped
  rather than appended. Appending "" changes neither the text nor the
  length difference, so the callbacks are the same.
- The custom-command model's output is used unstripped in
  `generate_text`. Its suggestions are `json.loads` of the output, an
  oracle.
- The explorer's file buttons for directories use "folder" only
  (src/window.py:421). The special-folder icons (Widgets.IconName) belong
  to the `File` widget of src/gtkobj.py:19-31, which the window imports
  (src/window.py:6) but never constructs in the files modelled here; as
  written its constructor raises before any icon is chosen (see
  "## Findings").
- `copytree` is all-or-nothing in the model. A partial copy left behind
  by a failure is not modelled.
- Downloads.Poll: the poller's one-second sleep and the progress-bar
  widget are left out; only the sequence of fractions is kept.
- What a raising `download_model` leaves on disk depends on the GPT4All
  handler, which is not part of this model. A failing fetch
  (Downloads.ThreadFails) keeps the ".part" file and writes no model
  file.
- `restore_prompt` is modelled through the entry's change handler, which
  setting the text runs once for the deletion and once for the insertion
  (SettingsWindow.RestorePrompt); an exception in the handler is only
  logged. The `self.prompts` update is not modelled separately.

## Findings

| source | as written | input that shows it | evidently intended | confidence | as-written member | corrected member |
|---|---|---|---|---|---|---|
| src/llm.py:144-157 | The loop variable `i` of `for i in range(amount)` is incremented per accepted suggestion and compared against `amount`, but the next attempt resets it. Attempt `k` can therefore add `amount - k` more. | amount 2, model always answers `["a","b"]` → `["a","b","a"]` | at most `amount` suggestions, the first ones produced | not executed | LlmSuggest.SuggestionsExceedAmount | LlmSuggest.CappedSuggestionsBound |
| src/extension.py:66-69 | The manifest `name/main.json` is opened before the `isdir(name)` check. For a plain file, `open` raises NotADirectoryError, an OSError that `load_extension_data` does not catch. | the extension directory holds a plain file `notes.txt` | plain files are skipped | not executed | ExtensionManager.PlainFileBreaksListing | ExtensionManager.ListExtensionsCheckedSpec |
| src/tts.py:149 | `stderr=subprocess.STDOUT`, but only `check_output` and `CalledProcessError` are imported from `subprocess`. Evaluating the argument raises NameError, which the `except CalledProcessError` does not catch. | espeak selected, any message | espeak speaks the message | not executed | Tts.EspeakPlayDiffers | Tts.EspeakPlay |
| src/tts.py:202 | The same unimported `subprocess.STDOUT` in the custom handler: every non-empty command raises NameError. | command `"espeak {0}"`, any message | the command runs | not executed | Tts.CustomPlayAsWritten | Tts.CustomPlay |
| src/gtkobj.py:330 | `self.__combo` is mangled to `_ComboRowHelper__combo`, which is never assigned (the constructor sets `self.combo`). Selecting an option raises AttributeError before "changed" is emitted. | open the TTS settings and pick any other voice | the picked value is emitted and stored | not executed | Widgets.VoiceChoiceLostAsWritten | Widgets.VoiceChoiceStored |
| src/gtkobj.py:21-23 | `File.__init__` calls `_get_icon_name` (line 21), which reads `self.path` (line 31), before `self.path = path` (line 23). Construction raises AttributeError. | `File("~", "Documents")` | the path is stored first and the icon is chosen from it | not executed | Widgets.NewFileAsWritten | Widgets.NewFile |
