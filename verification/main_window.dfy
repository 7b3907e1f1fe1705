/** The main window's session state (src/window.py): the saved chats and
    which one is active, dropping files into a chat, the "continue" guard,
    the registry of installed extensions and the choice of language model.
    Widgets, toasts and threads are not modelled; each operation returns
    the state it leaves behind. */
module MainWindow {
  import opened Wrappers
  import opened Text
  import opened Json
  import opened Chat
  import ExtensionManager
  import ExtensionGenerator
  import SettingsWindow

  // ---------------------------------------------------------------------------
  // Saved chats and the active chat
  // ---------------------------------------------------------------------------

  /** One entry of the pickled chat list: `{"name": ..., "chat": [...]}`. */
  datatype SavedChat = SavedChat(name: string, chat: seq<Turn>)

  /** The list used when no chat file exists or it cannot be read (the
      untranslated name). */
  const FallbackChats: seq<SavedChat> := [SavedChat("Chat 1", [])]

  /** `_load_chat_history`: `stored` is `None` when the file does not exist,
      `Some(None)` when unpickling raises, and `Some(Some(chats))` when it
      loads. */
  function LoadChatHistory(stored: Option<Option<seq<SavedChat>>>): (r: seq<SavedChat>)
    ensures stored.Some? && stored.value.Some? ==> r == stored.value.value
    ensures stored.None? || stored.value.None? ==> r == FallbackChats
  {
    match stored
    case Some(Some(chats)) => chats
    case _ => FallbackChats
  }

  function Min(a: int, b: int): int {
    if a <= b then a else b
  }

  /** Which element `xs[i]` denotes for a list of length `n`, with Python's
      negative indices; `None` where Python raises `IndexError`. */
  function PyIndex(n: nat, i: int): (r: Option<nat>)
    ensures r.Some? <==> -(n as int) <= i < n
    ensures r.Some? ==> r.value < n
    ensures 0 <= i < n ==> r == Some(i)
    ensures -(n as int) <= i < 0 ==> r == Some(i + n)
  {
    if 0 <= i < n then Some(i)
    else if -(n as int) <= i < 0 then Some(i + n)
    else None
  }

  /** The chat `update_settings` makes current:
      `chats[min(chat_id, len(chats) - 1)]`.  The stored id is clamped from
      above only. */
  function ActiveIndex(chats: seq<SavedChat>, chatId: int): (r: Option<nat>)
    ensures r.Some? <==> |chats| > 0 && chatId >= -|chats|
    ensures r.Some? ==> r.value < |chats|
    ensures 0 <= chatId < |chats| ==> r == Some(chatId)
    ensures 0 < |chats| <= chatId ==> r == Some(|chats| - 1)
  {
    PyIndex(|chats|, Min(chatId, |chats| - 1))
  }

  /** With the fallback history every non-negative stored id (and -1)
      selects its single empty chat. */
  lemma FallbackHistoryActive(chatId: int)
    requires chatId >= -1
    ensures ActiveIndex(FallbackChats, chatId) == Some(0)
    ensures FallbackChats[0].chat == []
  {
  }

  // ---------------------------------------------------------------------------
  // Dropping files
  // ---------------------------------------------------------------------------

  /** The turn recorded for a dropped path. */
  function DroppedTurn(path: string, isDir: bool): Turn {
    Turn(if isDir then "Folder" else "File", " " + path)
  }

  /** The loop of `handle_file_drag`: for each path in order, one turn
      when it exists.  `probe(p)` is `None` when `os.path.exists(p)` is
      false, else `Some(isdir(p))`. */
  function NewTurns(paths: seq<string>, probe: string -> Option<bool>): seq<Turn>
    decreases |paths|
  {
    if paths == [] then []
    else
      var rest := NewTurns(paths[1..], probe);
      match probe(paths[0])
      case None => rest
      case Some(isDir) => [DroppedTurn(paths[0], isDir)] + rest
  }

  /** Every turn of the loop records an existing dropped path with its
      kind, and every existing path is recorded. */
  lemma {:induction false} NewTurnsFromPaths(paths: seq<string>, probe: string -> Option<bool>)
    ensures var r := NewTurns(paths, probe);
      && |r| <= |paths|
      && (forall t :: t in r ==>
        && |t.message| >= 1 && t.message[0] == ' ' && t.message[1..] in paths
        && probe(t.message[1..]).Some?
        && t.user == (if probe(t.message[1..]).value then "Folder" else "File"))
      && (forall i :: 0 <= i < |paths| && probe(paths[i]).Some? ==>
        DroppedTurn(paths[i], probe(paths[i]).value) in r)
    decreases |paths|
  {
    if paths != [] {
      NewTurnsFromPaths(paths[1..], probe);
      assert forall i :: 1 <= i < |paths| ==> paths[i] == paths[1..][i - 1];
      assert (" " + paths[0])[1..] == paths[0];
    }
  }

  /** The turns a drop adds, in order: one per path that exists. */
  function DropTurns(paths: seq<string>, probe: string -> Option<bool>): (r: seq<Turn>)
    ensures |r| <= |paths|
    ensures forall t :: t in r ==>
      && |t.message| >= 1 && t.message[0] == ' ' && t.message[1..] in paths
      && probe(t.message[1..]).Some?
      && t.user == (if probe(t.message[1..]).value then "Folder" else "File")
    ensures forall i :: 0 <= i < |paths| && probe(paths[i]).Some? ==>
      DroppedTurn(paths[i], probe(paths[i]).value) in r
  {
    NewTurnsFromPaths(paths, probe);
    NewTurns(paths, probe)
  }

  /** The number of paths among the first `n` that exist: the reference
      count for `NewTurns`, counted from the end. */
  function ExistingBefore(paths: seq<string>, probe: string -> Option<bool>, n: nat): nat
    requires n <= |paths|
  {
    if n == 0 then 0 else ExistingBefore(paths, probe, n - 1) + (if probe(paths[n - 1]).Some? then 1 else 0)
  }

  lemma {:induction false} ExistingBeforeTail(paths: seq<string>, probe: string -> Option<bool>, n: nat)
    requires n < |paths|
    ensures ExistingBefore(paths, probe, n + 1) ==
      (if probe(paths[0]).Some? then 1 else 0) + ExistingBefore(paths[1..], probe, n)
  {
    if n > 0 {
      ExistingBeforeTail(paths, probe, n - 1);
      assert paths[1..][n - 1] == paths[n];
    }
  }

  /** The loop adds exactly one turn per existing path. */
  lemma {:induction false} NewTurnsCount(paths: seq<string>, probe: string -> Option<bool>)
    ensures |NewTurns(paths, probe)| == ExistingBefore(paths, probe, |paths|)
    decreases |paths|
  {
    if paths != [] {
      NewTurnsCount(paths[1..], probe);
      ExistingBeforeTail(paths, probe, |paths| - 1);
    }
  }

  /** The turn of an existing path sits right after the turns of the
      existing paths before it. */
  lemma {:induction false} NewTurnAt(paths: seq<string>, probe: string -> Option<bool>, i: nat)
    requires i < |paths| && probe(paths[i]).Some?
    ensures ExistingBefore(paths, probe, i) < |NewTurns(paths, probe)|
    ensures NewTurns(paths, probe)[ExistingBefore(paths, probe, i)] == DroppedTurn(paths[i], probe(paths[i]).value)
    decreases |paths|
  {
    if i > 0 {
      var tail := paths[1..];
      assert tail[i - 1] == paths[i];
      NewTurnAt(tail, probe, i - 1);
      ExistingBeforeTail(paths, probe, i - 1);
    }
  }

  /** A drop adds exactly one turn per existing path, in drop order. */
  lemma DropTurnsInOrder(paths: seq<string>, probe: string -> Option<bool>)
    ensures |DropTurns(paths, probe)| == ExistingBefore(paths, probe, |paths|)
    ensures forall i :: 0 <= i < |paths| && probe(paths[i]).Some? ==>
      && ExistingBefore(paths, probe, i) < |DropTurns(paths, probe)|
      && DropTurns(paths, probe)[ExistingBefore(paths, probe, i)] == DroppedTurn(paths[i], probe(paths[i]).value)
  {
    NewTurnsCount(paths, probe);
    forall i | 0 <= i < |paths| && probe(paths[i]).Some?
      ensures ExistingBefore(paths, probe, i) < |NewTurns(paths, probe)|
      ensures NewTurns(paths, probe)[ExistingBefore(paths, probe, i)] == DroppedTurn(paths[i], probe(paths[i]).value)
    {
      NewTurnAt(paths, probe, i);
    }
  }

  /** What a drop does to the saved chats. */
  datatype DropOutcome =
    | Refused                         // a reply is still being generated
    | Accepted(chats: seq<SavedChat>)
    | Raised(chats: seq<SavedChat>)   // `IndexError` at the write-back, after one append

  /** `handle_file_drag`.  The current chat is the list object stored in the
      active entry, so appending to it updates that entry; each append is
      followed by `chats[chat_id]["chat"] = chat`, which indexes the list
      with the unclamped stored id.  The window only exists once an active
      chat was found, hence the precondition. */
  function HandleFileDrag(status: bool, data: string, probe: string -> Option<bool>,
                          chats: seq<SavedChat>, chatId: int): (r: DropOutcome)
    requires ActiveIndex(chats, chatId).Some?
    ensures !status <==> r.Refused?
    ensures r.Accepted? || r.Raised? ==> |r.chats| == |chats|
    ensures r.Raised? ==> chatId >= |chats|
    ensures status && chatId < |chats| ==> r.Accepted?
  {
    if !status then Refused
    else
      var a := ActiveIndex(chats, chatId).value;
      var turns := DropTurns(Split(data, "\n"), probe);
      if turns == [] then Accepted(chats)
      else if PyIndex(|chats|, chatId).None? then
        Raised(chats[a := chats[a].(chat := chats[a].chat + turns[..1])])
      else
        Accepted(chats[a := chats[a].(chat := chats[a].chat + turns)])
  }

  /** A drop appends one turn per existing path to the active chat and
      leaves every other chat alone. */
  lemma DropAppendsToActive(data: string, probe: string -> Option<bool>,
                            chats: seq<SavedChat>, chatId: int, other: nat)
    requires -|chats| <= chatId < |chats|
    requires other < |chats| && other != ActiveIndex(chats, chatId).value
    ensures HandleFileDrag(true, data, probe, chats, chatId).Accepted?
    ensures HandleFileDrag(true, data, probe, chats, chatId).chats[ActiveIndex(chats, chatId).value].chat ==
      chats[ActiveIndex(chats, chatId).value].chat + DropTurns(Split(data, "\n"), probe)
    ensures HandleFileDrag(true, data, probe, chats, chatId).chats[other] == chats[other]
  {
  }

  /** A stored id past the last chat selects the last chat, but the
      write-back after the first dropped file raises `IndexError`: that one
      file lands in the last chat and the rest of the drop is lost. */
  lemma DropPastLastChat(path: string, rest: string, probe: string -> Option<bool>,
                         chats: seq<SavedChat>, chatId: int)
    requires 0 < |chats| <= chatId
    requires '\n' !in path && probe(path).Some?
    ensures HandleFileDrag(true, path + "\n" + rest, probe, chats, chatId) ==
      Raised(chats[|chats| - 1 := chats[|chats| - 1].(chat := chats[|chats| - 1].chat + [DroppedTurn(path, probe(path).value)])])
  {
    SplitCharFirst(path, '\n', rest);
    assert path + "\n" + rest == path + ['\n'] + rest;
  }

  // ---------------------------------------------------------------------------
  // Continuing a reply
  // ---------------------------------------------------------------------------

  /** `continue_message` starts a new request only when the chat is
      non-empty and its last speaker is the assistant, the console or the
      user. */
  predicate ContinueAllowed(chat: seq<Turn>) {
    |chat| > 0 && chat[|chat| - 1].user in {"Assistant", "Console", "User"}
  }

  /** Right after files were dropped, "continue" is refused. */
  lemma NoContinueAfterDrop(data: string, probe: string -> Option<bool>,
                            chats: seq<SavedChat>, chatId: int)
    requires -|chats| <= chatId < |chats|
    requires DropTurns(Split(data, "\n"), probe) != []
    ensures HandleFileDrag(true, data, probe, chats, chatId).Accepted?
    ensures !ContinueAllowed(HandleFileDrag(true, data, probe, chats, chatId).chats[ActiveIndex(chats, chatId).value].chat)
  {
    var a := ActiveIndex(chats, chatId).value;
    var turns := DropTurns(Split(data, "\n"), probe);
    assert HandleFileDrag(true, data, probe, chats, chatId).chats[a].chat == chats[a].chat + turns;
    DroppedLastBlocksContinue(chats[a].chat, Split(data, "\n"), probe);
  }

  lemma DroppedLastBlocksContinue(prev: seq<Turn>, paths: seq<string>, probe: string -> Option<bool>)
    requires DropTurns(paths, probe) != []
    ensures !ContinueAllowed(prev + DropTurns(paths, probe))
  {
    var turns := DropTurns(paths, probe);
    var chat := prev + turns;
    var last := turns[|turns| - 1];
    assert chat[|chat| - 1] == last;
    assert last in turns;
    DropUserNotContinuable(last.user);
  }

  /** Neither "Folder" nor "File" is a user after which "continue" is allowed. */
  lemma DropUserNotContinuable(u: string)
    requires u == "Folder" || u == "File"
    ensures u !in {"Assistant", "Console", "User"}
  {
    assert u[0] == 'F';
  }

  // ---------------------------------------------------------------------------
  // The extension registry
  // ---------------------------------------------------------------------------

  /** `{"api": ..., "status": ..., "prompt": ...}` as the registry keeps it. */
  datatype Registered = Registered(api: Value, status: Value, prompt: Value)

  /** A Python dict keyed by the manifest's `name` value, in insertion
      order.  Keys are compared with Python's `==` (`PyEq`). */
  type Registry = seq<(Value, Registered)>

  /** The position of key `k`, if present. */
  function FindKey(d: Registry, k: Value): (r: Option<nat>)
    ensures r.Some? ==> r.value < |d| && PyEq(d[r.value].0, k) && forall j :: 0 <= j < r.value ==> !PyEq(d[j].0, k)
    ensures r.None? ==> forall j :: 0 <= j < |d| ==> !PyEq(d[j].0, k)
    decreases |d|
  {
    if d == [] then None
    else if PyEq(d[0].0, k) then Some(0)
    else
      match FindKey(d[1..], k)
      case None => None
      case Some(i) => Some(i + 1)
  }

  /** The position `FindKey` reports is the only one meeting its contract. */
  lemma FindKeyDetermined(d: Registry, k: Value, o: Option<nat>)
    requires o.Some? ==> o.value < |d| && PyEq(d[o.value].0, k) && forall j :: 0 <= j < o.value ==> !PyEq(d[j].0, k)
    requires o.None? ==> forall j :: 0 <= j < |d| ==> !PyEq(d[j].0, k)
    ensures FindKey(d, k) == o
  {
  }

  /** Keys Python considers equal are found at the same position. */
  lemma FindKeyCongruent(d: Registry, j: Value, k: Value)
    requires PyEq(j, k)
    ensures FindKey(d, j) == FindKey(d, k)
  {
    match FindKey(d, k)
    case None =>
      forall x | 0 <= x < |d| ensures !PyEq(d[x].0, j) {
        PyEqEquivalence(d[x].0, j, k);
      }
    case Some(i) =>
      PyEqEquivalence(d[i].0, k, j);
      PyEqEquivalence(j, k, j);
      forall x | 0 <= x < i ensures !PyEq(d[x].0, j) {
        PyEqEquivalence(d[x].0, j, k);
      }
  }

  /** `d.get(k)`. */
  function Lookup(d: Registry, k: Value): Option<Registered> {
    match FindKey(d, k)
    case None => None
    case Some(i) => Some(d[i].1)
  }

  /** `d[k] = v`: an existing key keeps its position and its original key
      object (so `d[1] = v` after `d[True] = u` leaves the key `True`); a new
      key goes last. */
  function Put(d: Registry, k: Value, v: Registered): (r: Registry)
    ensures |d| <= |r| <= |d| + 1
    ensures forall i :: 0 <= i < |d| ==> r[i].0 == d[i].0
    ensures forall i :: 0 <= i < |d| && !PyEq(d[i].0, k) ==> r[i] == d[i]
    ensures |r| == |d| + 1 <==> FindKey(d, k).None?
    ensures |r| == |d| + 1 ==> r[|d|] == (k, v)
    ensures Lookup(r, k) == Some(v)
  {
    match FindKey(d, k)
    case Some(i) => d[i := (d[i].0, v)]
    case None => d + [(k, v)]
  }

  /** Writing one key changes no other key's entry. */
  lemma LookupAfterPut(d: Registry, k: Value, v: Registered, j: Value)
    requires !PyEq(j, k)
    ensures Lookup(Put(d, k, v), j) == Lookup(d, j)
  {
    var r := Put(d, k, v);
    PyEqEquivalence(j, k, j);
    if |r| == |d| + 1 {
      assert !PyEq(r[|d|].0, j);
    }
    var o := FindKey(d, j);
    if o.Some? {
      PyEqEquivalence(d[o.value].0, j, k);
      assert r[o.value] == d[o.value];
    }
    FindKeyDetermined(r, j, o);
  }

  /** Writing a key is read back under every key Python considers equal. */
  lemma LookupAfterPutSame(d: Registry, k: Value, v: Registered, j: Value)
    requires PyEq(j, k)
    ensures Lookup(Put(d, k, v), j) == Some(v)
  {
    FindKeyCongruent(Put(d, k, v), j, k);
  }

  /** Whether a manifest (absent when `main.json` is missing or cannot be
      loaded) gets registered: only when its `api` value is truthy. */
  predicate Registers(found: Option<ExtensionManager.Manifest>) {
    found.Some? && Truthy(ExtensionManager.Get(found.value, "api"))
  }

  function EntryOf(m: ExtensionManager.Manifest): Registered {
    Registered(ExtensionManager.Get(m, "api"), ExtensionManager.Get(m, "status"), ExtensionManager.Get(m, "prompt"))
  }

  /** `_load_extensions` over the directories in listing order. */
  function LoadExtensions(found: seq<Option<ExtensionManager.Manifest>>): Registry
    decreases |found|
  {
    if found == [] then []
    else
      var d := LoadExtensions(found[..|found| - 1]);
      var last := found[|found| - 1];
      if Registers(last) then Put(d, ExtensionManager.Get(last.value, "name"), EntryOf(last.value)) else d
  }

  /** The independent reading: the entry registered under `k` is the one
      of the LAST registering manifest named `k`. */
  function LastNamed(found: seq<Option<ExtensionManager.Manifest>>, k: Value): (r: Option<Registered>)
    ensures r.None? <==> forall i :: 0 <= i < |found| ==>
      !(Registers(found[i]) && PyEq(ExtensionManager.Get(found[i].value, "name"), k))
    decreases |found|
  {
    if found == [] then None
    else
      var last := found[|found| - 1];
      assert forall i :: 0 <= i < |found| - 1 ==> found[..|found| - 1][i] == found[i];
      if Registers(last) && PyEq(ExtensionManager.Get(last.value, "name"), k) then Some(EntryOf(last.value))
      else LastNamed(found[..|found| - 1], k)
  }

  /** The registry holds exactly the last registering manifest of each name. */
  lemma {:induction false} LoadExtensionsSpec(found: seq<Option<ExtensionManager.Manifest>>, k: Value)
    ensures Lookup(LoadExtensions(found), k) == LastNamed(found, k)
    decreases |found|
  {
    if found != [] {
      var init := found[..|found| - 1];
      var last := found[|found| - 1];
      LoadExtensionsSpec(init, k);
      if Registers(last) {
        var name := ExtensionManager.Get(last.value, "name");
        PyEqEquivalence(name, k, name);
        if PyEq(name, k) {
          LookupAfterPutSame(LoadExtensions(init), name, EntryOf(last.value), k);
        } else {
          LookupAfterPut(LoadExtensions(init), name, EntryOf(last.value), k);
        }
      }
    }
  }

  /** The prompts `_load_model` activates: those of registered entries with
      a truthy status, in registry order (before variable substitution). */
  function BotPrompts(d: Registry): (r: seq<Value>)
    ensures |r| <= |d|
    ensures forall i :: 0 <= i < |d| && Truthy(d[i].1.status) ==> d[i].1.prompt in r
    ensures r == [] <==> forall i :: 0 <= i < |d| ==> !Truthy(d[i].1.status)
    decreases |d|
  {
    if d == [] then []
    else
      var rest := BotPrompts(d[1..]);
      assert forall i :: 1 <= i < |d| ==> d[i] == d[1..][i - 1];
      if Truthy(d[0].1.status) then [d[0].1.prompt] + rest else rest
  }

  /** The number of entries among the first `n` with a truthy status: the
      reference count for `BotPrompts`, counted from the end. */
  function ActiveBefore(d: Registry, n: nat): nat
    requires n <= |d|
  {
    if n == 0 then 0 else ActiveBefore(d, n - 1) + (if Truthy(d[n - 1].1.status) then 1 else 0)
  }

  lemma {:induction false} ActiveBeforeTail(d: Registry, n: nat)
    requires n < |d|
    ensures ActiveBefore(d, n + 1) == (if Truthy(d[0].1.status) then 1 else 0) + ActiveBefore(d[1..], n)
  {
    if n > 0 {
      ActiveBeforeTail(d, n - 1);
      assert d[1..][n - 1] == d[n];
    }
  }

  /** The active prompts are exactly the prompts of the entries with a
      truthy status, one each, in registry order: the prompt of entry `i`
      sits after those of the active entries before it. */
  lemma {:induction false} BotPromptsInOrder(d: Registry)
    ensures |BotPrompts(d)| == ActiveBefore(d, |d|)
    ensures forall i :: 0 <= i < |d| && Truthy(d[i].1.status) ==>
      ActiveBefore(d, i) < |BotPrompts(d)| && BotPrompts(d)[ActiveBefore(d, i)] == d[i].1.prompt
    decreases |d|
  {
    if d != [] {
      var tail := d[1..];
      BotPromptsInOrder(tail);
      ActiveBeforeTail(d, |d| - 1);
      forall i | 0 < i < |d| && Truthy(d[i].1.status)
        ensures ActiveBefore(d, i) < |BotPrompts(d)| && BotPrompts(d)[ActiveBefore(d, i)] == d[i].1.prompt
      {
        ActiveBeforeTail(d, i - 1);
        assert tail[i - 1] == d[i];
      }
    }
  }

  /** `set_history` is called once per active prompt, so never when no
      extension is switched on. */
  function SetHistoryCalls(d: Registry): (n: nat)
    ensures n == 0 <==> forall i :: 0 <= i < |d| ==> !Truthy(d[i].1.status)
  {
    |BotPrompts(d)|
  }

  /** An extension written by the generator registers (its `api` names the
      code file) but has no status, so it contributes no prompt until it is
      switched on. */
  lemma GeneratedExtensionInactive(seg: string)
    ensures Registers(Some(ExtensionGenerator.GeneratedManifest(seg)))
    ensures Lookup(LoadExtensions([Some(ExtensionGenerator.GeneratedManifest(seg))]), VStr(seg)) ==
      Some(Registered(VStr(seg + ".py"), VNone, VStr("")))
    ensures SetHistoryCalls(LoadExtensions([Some(ExtensionGenerator.GeneratedManifest(seg))])) == 0
  {
    var m := ExtensionGenerator.GeneratedManifest(seg);
    assert ExtensionManager.Get(m, "api") == VStr(seg + ".py");
    assert "status" !in m;
    assert ExtensionManager.Get(m, "name") == VStr(seg);
    assert [Some(m)][..0] == [];
    assert LoadExtensions([Some(m)]) == Put([], VStr(seg), EntryOf(m));
    assert Put([], VStr(seg), EntryOf(m)) == [(VStr(seg), EntryOf(m))];
  }

  /** When writing the code file fails after `main.json` was written,
      `install_extension` reports failure, yet the manifest left behind is
      registered at the next load under the extension's name, pointing at
      a code file that does not exist. */
  lemma OrphanManifestRegisters(code: string, path: string)
    requires ExtensionGenerator.IsExtensionName(ExtensionGenerator.LastSegment(path))
    ensures var r := ExtensionGenerator.InstallExtension(code, path, true, true, false);
      var seg := ExtensionGenerator.LastSegment(path);
      && r.CodeFailed?
      && Registers(Some(r.manifest))
      && Lookup(LoadExtensions([Some(r.manifest)]), VStr(seg)) == Some(Registered(VStr(seg + ".py"), VNone, VStr("")))
  {
    GeneratedExtensionInactive(ExtensionGenerator.LastSegment(path));
  }

  /** Manifests named `true` and `1` share one registry entry: the key is
      the first one, the entry the second manifest's. */
  lemma TrueAndOneShareEntry(m1: ExtensionManager.Manifest, m2: ExtensionManager.Manifest)
    requires ExtensionManager.Get(m1, "name") == VBool(true) && Truthy(ExtensionManager.Get(m1, "api"))
    requires ExtensionManager.Get(m2, "name") == VInt(1) && Truthy(ExtensionManager.Get(m2, "api"))
    ensures LoadExtensions([Some(m1), Some(m2)]) == [(VBool(true), EntryOf(m2))]
  {
    assert [Some(m1), Some(m2)][..1] == [Some(m1)];
    assert [Some(m1)][..0] == [];
    assert LoadExtensions([Some(m1)]) == [(VBool(true), EntryOf(m1))];
  }

  // ---------------------------------------------------------------------------
  // The language model
  // ---------------------------------------------------------------------------

  /** `_load_model`: the configured provider key when it is registered, else
      the first registered provider (an empty table raises `IndexError`). */
  function ChooseModel(languageModel: string, providers: seq<string>): (r: Result<string, string>)
    ensures languageModel in providers ==> r == Success(languageModel)
    ensures languageModel !in providers && providers != [] ==> r == Success(providers[0])
    ensures r.Failure? <==> languageModel !in providers && providers == []
  {
    if languageModel in providers then Success(languageModel)
    else if providers == [] then Failure("IndexError")
    else Success(providers[0])
  }

  /** Choosing a registered LLM's row in the settings window makes it the
      model the main window loads next. */
  lemma ChosenRowIsLoaded(settings: map<string, string>, key: string, providers: seq<string>)
    requires key in providers
    ensures "language-model" in SettingsWindow.ChooseRow(settings, Some(SettingsWindow.LlmTable), key)
    ensures ChooseModel(SettingsWindow.ChooseRow(settings, Some(SettingsWindow.LlmTable), key)["language-model"], providers) ==
      Success(key)
  {
  }

  // ---------------------------------------------------------------------------
  // Speech input
  // ---------------------------------------------------------------------------

  /** After recording stops, a truthy recognition result is put in the input
      box and sent; `None` or "" shows a toast instead. */
  function SpokenInput(result: Option<string>): (r: Option<string>)
    ensures r.Some? <==> result.Some? && result.value != ""
    ensures r.Some? ==> r.value == result.value
  {
    match result
    case Some(text) => if text == "" then None else Some(text)
    case None => None
  }
}
