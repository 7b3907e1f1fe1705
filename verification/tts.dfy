/** Text-to-speech handlers (src/tts.py): voice selection, the callbacks
    around playback, temporary file names, parsing espeak's voice list and
    the commands the espeak and custom handlers run.  Audio, the mixer and
    processes are not modelled: a command is the argument vector it would
    be started with. */
module Tts {
  import opened Wrappers
  import opened Text
  import opened Json
  import Handler
  import SettingsWindow

  /** A `(title, id)` pair as `get_voices()` returns it. */
  datatype Voice = Voice(title: string, id: string)

  // ---------------------------------------------------------------------------
  // Voices
  // ---------------------------------------------------------------------------

  /** The declared default of the "voice" setting: the id of the first
      voice, or "" when there is none. */
  function VoiceDefault(voices: seq<Voice>): (r: string)
    ensures voices == [] ==> r == ""
    ensures voices != [] ==> r == voices[0].id && VoiceAvailable(voices, r)
  {
    if |voices| == 0 then "" else voices[0].id
  }

  /** `voice_available(v)`: some voice has id `v`. */
  predicate VoiceAvailable(voices: seq<Voice>, v: string) {
    exists i :: 0 <= i < |voices| && voices[i].id == v
  }

  /** `voice_available` as the loop `any(...)` runs it. */
  function VoiceAvailableLoop(voices: seq<Voice>, v: string): (r: bool)
    ensures r <==> VoiceAvailable(voices, v)
    decreases |voices|
  {
    if voices == [] then false
    else if voices[0].id == v then true
    else
      var r := VoiceAvailableLoop(voices[1..], v);
      assert VoiceAvailable(voices[1..], v) ==> VoiceAvailable(voices, v) by {
        if VoiceAvailable(voices[1..], v) {
          var i :| 0 <= i < |voices| - 1 && voices[1..][i].id == v;
          assert voices[i + 1].id == v;
        }
      }
      assert VoiceAvailable(voices, v) ==> VoiceAvailable(voices[1..], v) by {
        if VoiceAvailable(voices, v) {
          var i :| 0 <= i < |voices| && voices[i].id == v;
          assert i != 0;
          assert voices[1..][i - 1].id == v;
        }
      }
      r
  }

  /** `get_current_voice`: the stored "voice" when truthy, else the first
      cached voice's id, else `None`. */
  function CurrentVoice(stored: Value, voices: seq<Voice>): (r: Value)
    ensures Truthy(stored) ==> r == stored
    ensures !Truthy(stored) && voices != [] ==> r == VStr(voices[0].id) && VoiceAvailable(voices, r.s)
    ensures !Truthy(stored) && voices == [] ==> r == VNone
  {
    if Truthy(stored) then stored
    else if |voices| > 0 then VStr(voices[0].id)
    else VNone
  }

  /** Before the user picks a voice the stored value is the declared
      default, and the current voice is that default, or `None` for a
      handler without voices. */
  lemma DefaultVoiceIsCurrent(voices: seq<Voice>)
    ensures voices != [] && voices[0].id != "" ==> CurrentVoice(VStr(VoiceDefault(voices)), voices) == VStr(voices[0].id)
    ensures voices == [] ==> CurrentVoice(VStr(VoiceDefault(voices)), voices) == VNone
  {
  }

  // ---------------------------------------------------------------------------
  // Playback callbacks
  // ---------------------------------------------------------------------------

  /** The two callbacks, by identity. */
  datatype Callbacks = Callbacks(onStart: nat, onStop: nat)

  /** `connect(signal, callback)`: only "start" and "stop" are recognised. */
  function Connect(cbs: Callbacks, signal: string, cb: nat): (r: Callbacks)
    ensures r.onStart == (if signal == "start" then cb else cbs.onStart)
    ensures r.onStop == (if signal == "stop" then cb else cbs.onStop)
  {
    if signal == "start" then cbs.(onStart := cb)
    else if signal == "stop" then cbs.(onStop := cb)
    else cbs
  }

  datatype PlayEvent = MixerStop | Acquire | Started(starter: nat) | Load | Play | Stopped(stopper: nat) | Release

  /** The events of `playsound`: a busy mixer is stopped, the play lock is
      taken and `on_start` called; `okSteps` says how many of load and play
      succeed before an exception; `on_stop` and the release always follow. */
  function Playsound(cbs: Callbacks, busy: bool, okSteps: nat): (trace: seq<PlayEvent>)
    ensures Bracketed(trace, cbs)
  {
    var body := if okSteps == 0 then [] else if okSteps == 1 then [Load] else [Load, Play];
    assert forall e :: e in body ==> e == Load || e == Play;
    (if busy then [MixerStop] else []) + [Acquire, Started(cbs.onStart)] + body + [Stopped(cbs.onStop), Release]
  }

  /** At most a mixer stop, then the lock and `on_start`; the trace
      ends with `on_stop` and the release, whatever failed in between. */
  predicate Bracketed(trace: seq<PlayEvent>, cbs: Callbacks) {
    var core := if |trace| > 0 && trace[0] == MixerStop then trace[1..] else trace;
    && |core| >= 4
    && core[0] == Acquire && core[1] == Started(cbs.onStart)
    && core[|core| - 2] == Stopped(cbs.onStop) && core[|core| - 1] == Release
    && forall i :: 2 <= i < |core| - 2 ==> core[i] == Load || core[i] == Play
  }

  /** Whatever callbacks were connected last are the ones that bracket the
      next playback, even when loading the file fails. */
  lemma ConnectedCallbacksBracket(cbs: Callbacks, a: nat, b: nat, busy: bool)
    ensures Bracketed(Playsound(Connect(Connect(cbs, "start", a), "stop", b), busy, 0), Callbacks(a, b))
  {
  }

  // ---------------------------------------------------------------------------
  // Temporary file names
  // ---------------------------------------------------------------------------

  /** `_generate_temp_filename`: whole seconds since the epoch, "_", the
      eight random bytes in lower-case hex, ".mp3". */
  function TempFileName(seconds: nat, random: seq<nat>): (name: string)
    requires |random| == 8 && forall i :: 0 <= i < 8 ==> random[i] < 256
    ensures EndsWith(name, ".mp3")
    ensures |name| == |NatToString(seconds)| + 21
  {
    NatToString(seconds) + "_" + BytesHex(random) + ".mp3"
  }

  /** The name splits at its single "_" into the timestamp and the hex
      part, and the timestamp reads back as the seconds it was made from. */
  lemma TempFileNameParses(seconds: nat, random: seq<nat>)
    requires |random| == 8 && forall i :: 0 <= i < 8 ==> random[i] < 256
    ensures Split(TempFileName(seconds, random), "_") == [NatToString(seconds), BytesHex(random) + ".mp3"]
    ensures ParseNat(Split(TempFileName(seconds, random), "_")[0]) == seconds
  {
    var ts := NatToString(seconds);
    var tail := BytesHex(random) + ".mp3";
    assert '_' !in ts;
    assert '_' !in tail;
    assert TempFileName(seconds, random) == ts + ['_'] + tail;
    SplitCharFirst(ts, '_', tail);
    SplitCharAbsent(tail, '_');
    ParseNatToString(seconds);
  }

  // ---------------------------------------------------------------------------
  // espeak
  // ---------------------------------------------------------------------------

  /** One line of `espeak --voices` as `(split()[3], split()[4])`; `None`
      where indexing raises `IndexError`. */
  function VoiceOfLine(line: string): Option<Voice> {
    var w := Words(line);
    if |w| < 5 then None else Some(Voice(w[3], w[4]))
  }

  /** The values of a sequence of options, or `None` when any is missing. */
  function AllPresent(parsed: seq<Option<Voice>>): (r: Option<seq<Voice>>)
    ensures r.Some? <==> forall i :: 0 <= i < |parsed| ==> parsed[i].Some?
    ensures r.Some? ==> |r.value| == |parsed| && forall i :: 0 <= i < |parsed| ==> r.value[i] == parsed[i].value
    decreases |parsed|
  {
    if parsed == [] then Some([])
    else
      var rest := AllPresent(parsed[1..]);
      assert forall i :: 1 <= i < |parsed| ==> parsed[1..][i - 1] == parsed[i];
      if parsed[0].None? || rest.None? then None
      else Some([parsed[0].value] + rest.value)
  }

  /** All voice lines, or `None` when any line is too short. */
  function ParseVoiceLines(lines: seq<string>): (r: Option<seq<Voice>>)
    ensures r.Some? <==> forall i :: 0 <= i < |lines| ==> VoiceOfLine(lines[i]).Some?
    ensures r.Some? ==> |r.value| == |lines| && forall i :: 0 <= i < |lines| ==> r.value[i] == VoiceOfLine(lines[i]).value
  {
    var parsed := seq(|lines|, i requires 0 <= i < |lines| => VoiceOfLine(lines[i]));
    assert forall i :: 0 <= i < |lines| ==> parsed[i] == VoiceOfLine(lines[i]);
    AllPresent(parsed)
  }

  /** espeak's `get_voices`: cached voices win; a handler that is not
      installed keeps its (empty) cache; otherwise the header line of the
      stripped output is skipped and each further line parsed.  A failing
      command (`output == None`) or a short line gives no voices. */
  function EspeakVoices(cached: seq<Voice>, installed: bool, output: Option<string>): (r: seq<Voice>)
    ensures cached != [] ==> r == cached
    ensures cached == [] && (!installed || output.None?) ==> r == []
  {
    if cached != [] then cached
    else if !installed then cached
    else match output
      case None => []
      case Some(o) => ParseVoiceLines(Split(Strip(o), "\n")[1..]).GetOr([])
  }

  /** After the header line, each line of the listing becomes one voice in
      order; one malformed line empties the whole list. */
  lemma EspeakHeaderSkipped(o: string, header: string, body: string)
    requires Strip(o) == header + "\n" + body && '\n' !in header
    ensures EspeakVoices([], true, Some(o)) == ParseVoiceLines(Split(body, "\n")).GetOr([])
  {
    assert header + "\n" + body == header + ['\n'] + body;
    SplitCharFirst(header, '\n', body);
  }

  /** `is_installed` for espeak: sandbox escape, and `whereis espeak`
      printing a line with ":". */
  function EspeakInstalled(canEscape: bool, whereis: Option<string>): (r: bool)
    ensures r <==> canEscape && whereis.Some? && ':' in Strip(whereis.value)
    ensures !canEscape ==> !r
  {
    canEscape && whereis.Some? && ':' in Strip(whereis.value)
  }

  // ---------------------------------------------------------------------------
  // Commands
  // ---------------------------------------------------------------------------

  /** What a play request does. */
  datatype PlayOutcome =
    | Silent                          // nothing is run
    | Executed(argv: seq<string>)     // `check_output(argv)` is called
    | Raised(error: string)           // an uncaught exception (the play lock is released)

  /** The espeak argument vector: the message is one argument, never
      parsed by a shell. */
  function EspeakArgv(voice: Value, message: string): seq<string> {
    ["flatpak-spawn", "--host", "espeak", "-v" + ToStr(voice), message]
  }

  /** espeak's `play_audio` as written: building the keyword argument
      `stderr=subprocess.STDOUT` raises `NameError` because only two names
      are imported from `subprocess`, so no command ever runs. */
  function EspeakPlayAsWritten(voice: Value, message: string): (r: PlayOutcome)
    ensures r == Raised("NameError")
  {
    Raised("NameError")
  }

  /** espeak's `play_audio` with `subprocess` imported. */
  function EspeakPlay(voice: Value, message: string): (r: PlayOutcome)
    ensures r.Executed? && |r.argv| == 5 && r.argv[4] == message
  {
    Executed(EspeakArgv(voice, message))
  }

  /** As written, espeak never speaks; with the import it speaks the message
      with the current voice. */
  lemma EspeakPlayDiffers(voice: Value, message: string)
    ensures EspeakPlayAsWritten(voice, message).Raised?
    ensures EspeakPlay(voice, message) == Executed(["flatpak-spawn", "--host", "espeak", "-v" + ToStr(voice), message])
  {
  }

  /** The custom command with the message spliced in for every "{0}". */
  function CustomArgv(command: string, message: string): seq<string> {
    ["flatpak-spawn", "--host", "bash", "-c", Replace(command, "{0}", message)]
  }

  /** The custom handler's `play_audio` as written: a falsy command does
      nothing; a string command is substituted and then `NameError` is
      raised while the call's keyword arguments are built; any other value
      has no `replace` method. */
  function CustomPlayAsWritten(command: Value, message: string): (r: PlayOutcome)
    ensures r.Silent? <==> !Truthy(command)
    ensures !r.Silent? ==> r.Raised?
    ensures command.VStr? && command.s != "" ==> r == Raised("NameError")
  {
    if !Truthy(command) then Silent
    else if command.VStr? then Raised("NameError")
    else Raised("AttributeError")
  }

  /** The custom handler's `play_audio` with `subprocess` imported. */
  function CustomPlay(command: Value, message: string): (r: PlayOutcome)
    ensures r.Silent? <==> !Truthy(command)
    ensures command.VStr? && command.s != "" ==> r.Executed? && |r.argv| == 5 && r.argv[..4] == ["flatpak-spawn", "--host", "bash", "-c"]
    ensures command.VStr? && command.s != "" ==> r.argv[4] == Replace(command.s, "{0}", message)
    ensures Truthy(command) && !command.VStr? ==> r == Raised("AttributeError")
  {
    if !Truthy(command) then Silent
    else if command.VStr? then Executed(CustomArgv(command.s, message))
    else Raised("AttributeError")
  }

  /** As written the custom command never runs; with the import, the raw
      message is handed to the shell: a command of just "{0}" executes the
      message itself, and a command without "{0}" ignores it. */
  lemma CustomPlayMessageUnquoted(command: string, message: string)
    requires command != ""
    ensures CustomPlayAsWritten(VStr(command), message) == Raised("NameError")
    ensures command == "{0}" ==> CustomPlay(VStr(command), message).argv[4] == message
    ensures !Contains(command, "{0}") ==> CustomPlay(VStr(command), message).argv[4] == command
  {
    if command == "{0}" {
      assert command[..|command|] == command;
      assert command[|command|..] == "";
      assert OccursAt(command, "{0}", 0);
    }
    if !Contains(command, "{0}") {
      ReplaceAbsent(command, "{0}", message);
    }
  }

  // ---------------------------------------------------------------------------
  // Handler declarations
  // ---------------------------------------------------------------------------

  const GttsInfo: Handler.HandlerInfo := Handler.HandlerInfo("gtts", "tts-voice", [], [], false)
  const EspeakInfo: Handler.HandlerInfo := Handler.HandlerInfo("espeak", "tts-voice", [], [], true)
  const CustomTtsInfo: Handler.HandlerInfo :=
    Handler.HandlerInfo("custom_command", "tts-voice", [Handler.Descriptor("command", VStr(""))], [], true)

  /** Inside the sandbox only gTTS can be chosen; espeak and the custom
      command need to run programs on the host. */
  lemma SandboxedVoices(installed: bool)
    ensures !SettingsWindow.RowSelectable(false, EspeakInfo, installed)
    ensures !SettingsWindow.RowSelectable(false, CustomTtsInfo, installed)
    ensures SettingsWindow.RowSelectable(false, GttsInfo, true)
  {
  }
}
