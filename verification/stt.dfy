/** Speech-to-text handlers (src/stt.py): which recognisers count as
    installed, what each returns when the audio is not understood, the
    Google recogniser's key handling and the custom command recogniser.
    Recording and the recognition services are not modelled: a service
    call is given by its outcome. */
module Stt {
  import opened Wrappers
  import opened Text
  import opened Json
  import Handler
  import MainWindow

  // ---------------------------------------------------------------------------
  // Declarations
  // ---------------------------------------------------------------------------

  const GoogleSettings: seq<Handler.Descriptor> :=
    [Handler.Descriptor("api", VStr("default")), Handler.Descriptor("language", VStr("en-US"))]

  const SphinxInfo: Handler.HandlerInfo := Handler.HandlerInfo("Sphinx", "stt-settings", [], ["pocketsphinx"], false)
  const GoogleInfo: Handler.HandlerInfo := Handler.HandlerInfo("google_sr", "stt-settings", GoogleSettings, [], false)
  const VoskInfo: Handler.HandlerInfo :=
    Handler.HandlerInfo("vosk", "stt-settings", [Handler.Descriptor("path", VStr(""))], ["vosk"], false)
  const CustomSttInfo: Handler.HandlerInfo :=
    Handler.HandlerInfo("custom_command", "stt-settings", [Handler.Descriptor("command", VStr(""))], [], true)

  /** `is_installed` is the base class's requirement check: Sphinx needs
      `pocketsphinx` to resolve, Google needs nothing. */
  lemma RecognisersInstalled(resolves: string -> bool)
    ensures Handler.IsInstalled(SphinxInfo.requirements, resolves) <==> resolves("pocketsphinx")
    ensures Handler.IsInstalled(GoogleInfo.requirements, resolves)
    ensures Handler.IsInstalled(VoskInfo.requirements, resolves) <==> resolves("vosk")
  {
  }

  // ---------------------------------------------------------------------------
  // Recognition results
  // ---------------------------------------------------------------------------

  /** What the recognition service did with the recorded audio. */
  datatype Recognition = Heard(text: string) | NotUnderstood | Failed

  /** The message Sphinx returns for audio it cannot understand
      (untranslated). */
  const NotUnderstoodText: string := "Could not understand the audio"

  /** Sphinx's `recognize_file`: unintelligible audio is reported as text. */
  function SphinxResult(rec: Recognition): (r: Option<string>)
    ensures r.None? <==> rec.Failed?
    ensures rec.Heard? ==> r == Some(rec.text)
    ensures rec.NotUnderstood? ==> r == Some(NotUnderstoodText)
  {
    match rec
    case Heard(t) => Some(t)
    case NotUnderstood => Some(NotUnderstoodText)
    case Failed => None
  }

  /** Google, Wit.ai, Vosk and the Whisper API: anything but a
      transcription gives `None`. */
  function ServiceResult(rec: Recognition): (r: Option<string>)
    ensures r.Some? <==> rec.Heard?
    ensures rec.Heard? ==> r == Some(rec.text)
  {
    match rec
    case Heard(t) => Some(t)
    case _ => None
  }

  /** When Sphinx does not understand the recording, the window sends its
      error message to the model as if the user had said it; the other
      recognisers lead to the "could not recognize" notice instead. */
  lemma SphinxErrorIsSent()
    ensures MainWindow.SpokenInput(SphinxResult(NotUnderstood)) == Some(NotUnderstoodText)
    ensures MainWindow.SpokenInput(ServiceResult(NotUnderstood)) == None
  {
  }

  /** The `key` passed to Google: the stored value, except that "default"
      selects the library's built-in key (`None`). */
  function GoogleKey(stored: Value): (r: Value)
    ensures r == VNone <==> stored == VStr("default") || stored == VNone
    ensures r != VNone ==> r == stored
  {
    if stored == VStr("default") then VNone else stored
  }

  /** With nothing stored, Google recognition uses the built-in key and
      American English. */
  lemma FreshGoogleSettings(blob: Handler.Store)
    requires blob.Malformed? || blob == Handler.Doc(map[])
    ensures GoogleKey(Handler.GetSetting(GoogleInfo, blob, "api")) == VNone
    ensures Handler.GetSetting(GoogleInfo, blob, "language") == VStr("en-US")
  {
    Handler.DefaultLastWinsSpec(GoogleSettings, "api", 0);
    Handler.DefaultLastWinsSpec(GoogleSettings, "language", 1);
  }

  // ---------------------------------------------------------------------------
  // The custom command recogniser
  // ---------------------------------------------------------------------------

  /** The argument vector: the command with the audio path spliced in for
      every "{0}", run by bash on the host. */
  function RecogniserArgv(command: string, path: string): seq<string> {
    ["flatpak-spawn", "--host", "bash", "-c", Replace(command, "{0}", path)]
  }

  /** `recognize_file` of the custom recogniser.  `run(argv)` is the
      command's output, `None` when it fails.  A falsy command runs
      nothing; a non-string one fails inside the `try` and gives `None`. */
  function CustomRecognize(command: Value, path: string, run: seq<string> -> Option<string>): (r: Option<string>)
    ensures !Truthy(command) ==> r.None?
    ensures r.Some? ==> command.VStr? && run(RecogniserArgv(command.s, path)).Some?
    ensures r.Some? ==> r.value == Strip(run(RecogniserArgv(command.s, path)).value)
    ensures command.VStr? && command.s != "" && run(RecogniserArgv(command.s, path)).Some? ==> r.Some?
  {
    if !Truthy(command) then None
    else if !command.VStr? then None
    else
      match run(RecogniserArgv(command.s, path))
      case None => None
      case Some(out) => Some(Strip(out))
  }

  /** Output that is only whitespace strips to "", which the window
      treats as nothing recognised. */
  lemma BlankOutputNotSent(command: string, path: string, run: seq<string> -> Option<string>)
    requires command != ""
    requires run(RecogniserArgv(command, path)).Some? && AllSpace(run(RecogniserArgv(command, path)).value)
    ensures CustomRecognize(VStr(command), path, run) == Some("")
    ensures MainWindow.SpokenInput(CustomRecognize(VStr(command), path, run)).None?
  {
  }

  /** The default command is empty, so a fresh custom recogniser never
      runs anything. */
  lemma FreshCustomRecogniserIdle(blob: Handler.Store, path: string, run: seq<string> -> Option<string>)
    requires blob.Malformed? || blob == Handler.Doc(map[])
    ensures CustomRecognize(Handler.GetSetting(CustomSttInfo, blob, "command"), path, run) == None
  {
    Handler.DefaultLastWinsSpec(CustomSttInfo.extraSettings, "command", 0);
  }
}
