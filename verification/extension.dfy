/** The extension manager window of `src/extension.py`: listing installed
    extensions, installing one from a chosen folder, switching one on or
    off and deleting one. The file system is reduced to the manifests of
    the installed packages, keyed by directory path; what `open`,
    `json.load`, `rmtree` and `copytree` do is given as outcomes. */
module ExtensionManager {
  import opened Wrappers
  import opened Text
  import opened Json
  import opened PosixPath

  /** A `main.json` manifest: a JSON object with scalar values. */
  type Manifest = map<string, Value>

  /** `manifest.get(key)`. */
  function Get(m: Manifest, key: string): Value {
    if key in m then m[key] else VNone
  }

  /** What a file-system call did: returned a value, or raised one of the
      exceptions the module distinguishes. */
  datatype FileOutcome<T> =
    | Done(value: T)
    | NotFound                        // FileNotFoundError
    | BadJson                         // json.JSONDecodeError
    | OtherOSError(message: string)   // any other OSError
    | OtherError(message: string)     // any other exception

  /** `handle_file_operations`: the call's result, `None` for the file
      errors it logs, and any other exception raised on. */
  function HandleFileOperations<T>(o: FileOutcome<T>): (r: Result<Option<T>, string>)
    ensures r.Failure? <==> o.OtherError?
    ensures o.Done? <==> r.Success? && r.value.Some?
  {
    match o
    case Done(v) => Success(Some(v))
    case NotFound => Success(None)
    case BadJson => Success(None)
    case OtherOSError(_) => Success(None)
    case OtherError(e) => Failure(e)
  }

  /** `load_extension_data`: catches only a missing file and bad JSON. */
  function LoadExtensionData(o: FileOutcome<Manifest>): (r: Result<Option<Manifest>, string>)
    ensures r.Success? && r.value.None? <==> o.NotFound? || o.BadJson?
  {
    match o
    case Done(m) => Success(Some(m))
    case NotFound => Success(None)
    case BadJson => Success(None)
    case OtherOSError(e) => Failure(e)
    case OtherError(e) => Failure(e)
  }

  /** The two wrappers agree except on other `OSError`s (a permission
      problem, a path through a plain file), which only
      `handle_file_operations` swallows. */
  lemma LoadIsNarrower(o: FileOutcome<Manifest>)
    ensures LoadExtensionData(o) != HandleFileOperations(o) <==> o.OtherOSError?
  {
  }

  // ---------------------------------------------------------------------
  // Listing
  // ---------------------------------------------------------------------

  /** One name in the extension directory: whether it is a directory, and
      what reading `name/main.json` gave. */
  datatype DirEntry = DirEntry(name: string, isDir: bool, manifest: FileOutcome<Manifest>)

  /** The rows `update` shows: entries whose manifest loads non-empty and
      which are directories, in listing order. The manifest is read before
      the directory test, so an error it does not catch ends the listing. */
  function ListExtensions(entries: seq<DirEntry>): (r: Result<seq<(string, Manifest)>, string>)
  {
    if |entries| == 0 then Success([])
    else
      var e := entries[0];
      match LoadExtensionData(e.manifest)
      case Failure(err) => Failure(err)
      case Success(loaded) =>
        match ListExtensions(entries[1..])
        case Failure(err) => Failure(err)
        case Success(rest) =>
          if loaded.Some? && loaded.value != map[] && e.isDir then Success([(e.name, loaded.value)] + rest)
          else Success(rest)
  }

  /** A row of the listing that is shown. */
  predicate Shown(e: DirEntry) {
    e.isDir && e.manifest.Done? && e.manifest.value != map[]
  }

  function ShownRows(entries: seq<DirEntry>): seq<(string, Manifest)> {
    if |entries| == 0 then []
    else (if Shown(entries[0]) then [(entries[0].name, entries[0].manifest.value)] else []) + ShownRows(entries[1..])
  }

  /** The listing succeeds exactly when no manifest read raises an
      uncaught error, and then shows the directories with a non-empty
      manifest. */
  lemma {:induction false} ListExtensionsSpec(entries: seq<DirEntry>)
    ensures ListExtensions(entries).Success? <==>
      forall i :: 0 <= i < |entries| ==> !entries[i].manifest.OtherOSError? && !entries[i].manifest.OtherError?
    ensures ListExtensions(entries).Success? ==> ListExtensions(entries).value == ShownRows(entries)
  {
    if |entries| > 0 {
      ListExtensionsSpec(entries[1..]);
      assert forall i :: 1 <= i < |entries| ==> entries[1..][i - 1] == entries[i];
    }
  }

  /** The listing with the directory test first: plain files are skipped
      without reading a manifest through them. */
  function ListExtensionsChecked(entries: seq<DirEntry>): (r: Result<seq<(string, Manifest)>, string>)
  {
    if |entries| == 0 then Success([])
    else
      var e := entries[0];
      if !e.isDir then ListExtensionsChecked(entries[1..])
      else
        match LoadExtensionData(e.manifest)
        case Failure(err) => Failure(err)
        case Success(loaded) =>
          match ListExtensionsChecked(entries[1..])
          case Failure(err) => Failure(err)
          case Success(rest) =>
            if loaded.Some? && loaded.value != map[] then Success([(e.name, loaded.value)] + rest)
            else Success(rest)
  }

  /** Opening `name/main.json` when `name` is a plain file raises
      `NotADirectoryError`, an `OSError` the loader does not catch: one
      stray file in the extension directory makes the listing fail. */
  lemma PlainFileBreaksListing(entries: seq<DirEntry>, k: nat)
    requires k < |entries| && !entries[k].isDir && entries[k].manifest.OtherOSError?
    ensures ListExtensions(entries).Failure?
  {
    ListExtensionsSpec(entries);
  }

  /** With the directory test first, plain files never matter and the
      rows shown are the same. */
  lemma {:induction false} ListExtensionsCheckedSpec(entries: seq<DirEntry>)
    ensures ListExtensionsChecked(entries).Success? <==>
      forall i :: 0 <= i < |entries| && entries[i].isDir ==> !entries[i].manifest.OtherOSError? && !entries[i].manifest.OtherError?
    ensures ListExtensionsChecked(entries).Success? ==> ListExtensionsChecked(entries).value == ShownRows(entries)
  {
    if |entries| > 0 {
      ListExtensionsCheckedSpec(entries[1..]);
      assert forall i :: 1 <= i < |entries| ==> entries[1..][i - 1] == entries[i];
    }
  }

  /** The switch of a row: a missing `status` shows as off. */
  function StatusShown(m: Manifest): (r: Value)
    ensures "status" !in m ==> r == VBool(false)
    ensures "status" in m ==> r == m["status"]
  {
    if "status" in m then m["status"] else VBool(false)
  }

  // ---------------------------------------------------------------------
  // Installing from a folder
  // ---------------------------------------------------------------------

  /** The notice `process_folder` shows. */
  datatype Notice = NotAnExtension | WrongExtension | CopyFailed | Added

  datatype Install = Install(notice: Notice, packages: map<string, Manifest>)

  /** The four fields an installable manifest must have non-empty. */
  predicate Complete(m: Manifest) {
    Truthy(Get(m, "name")) && Truthy(Get(m, "about")) && Truthy(Get(m, "prompt")) && Truthy(Get(m, "api"))
  }

  /** `process_folder` after the user accepted a folder. `loaded` is what
      reading its manifest gave; `removable` says whether `rmtree` can
      delete an existing package of that name, and `copyOk` whether
      `copytree` succeeds on a free destination. A name that is not a
      string makes `os.path.join` raise. */
  function ProcessFolder(root: string, loaded: Result<Option<Manifest>, string>, packages: map<string, Manifest>,
                         removable: bool, copyOk: bool): (r: Result<Install, string>)
    ensures loaded.Failure? ==> r.Failure?
  {
    match loaded
    case Failure(e) => Failure(e)
    case Success(None) => Success(Install(NotAnExtension, packages))
    case Success(Some(m)) =>
      if m == map[] then Success(Install(NotAnExtension, packages))
      else if !Complete(m) then Success(Install(WrongExtension, packages))
      else if !Get(m, "name").VStr? then Failure("TypeError")
      else
        var dest := PathJoin(root, Get(m, "name").s);
        var kept := if removable then packages - {dest} else packages;
        if dest in kept || !copyOk then Success(Install(CopyFailed, kept))
        else Success(Install(Added, kept[dest := m["status" := VBool(false)]]))
  }

  /** A folder is taken (copied or at least attempted) exactly when its
      manifest is complete; a successful install stores the manifest with
      `status` off under `root/name` and leaves the other packages alone. */
  lemma ProcessFolderSpec(root: string, m: Manifest, packages: map<string, Manifest>, removable: bool, copyOk: bool)
    requires m != map[] && (Get(m, "name").VStr? || !Truthy(Get(m, "name")))
    ensures var r := ProcessFolder(root, Success(Some(m)), packages, removable, copyOk);
      && r.Success?
      && (r.value.notice == WrongExtension <==> !Complete(m))
      && (r.value.notice == Added ==>
            var dest := PathJoin(root, Get(m, "name").s);
            && r.value.packages[dest] == m["status" := VBool(false)]
            && forall p :: p in packages && p != dest ==> p in r.value.packages && r.value.packages[p] == packages[p])
  {
  }

  /** The name is not checked: an absolute name installs the package at
      that path, outside the extension directory. */
  lemma AbsoluteNameEscapesRoot(root: string, m: Manifest, rest: string, packages: map<string, Manifest>)
    requires Complete(m) && Get(m, "name") == VStr("/" + rest)
    requires "/" + rest !in packages
    ensures ProcessFolder(root, Success(Some(m)), packages, true, true).Success?
    ensures "/" + rest in ProcessFolder(root, Success(Some(m)), packages, true, true).value.packages
  {
    assert StartsWith("/" + rest, "/");
  }

  /** Reinstalling removes the old package first: when the copy then
      fails, the old package is gone. */
  lemma FailedReinstallLosesPackage(root: string, m: Manifest, packages: map<string, Manifest>)
    requires Complete(m) && Get(m, "name").VStr?
    requires PathJoin(root, Get(m, "name").s) in packages
    ensures var r := ProcessFolder(root, Success(Some(m)), packages, true, false);
      r.Success? && r.value.notice == CopyFailed && PathJoin(root, Get(m, "name").s) !in r.value.packages
  {
  }

  // ---------------------------------------------------------------------
  // Switching and deleting
  // ---------------------------------------------------------------------

  /** `change_status` for the switch of the row named `dirName`: the
      manifest written back (if it loaded non-empty) and the window's
      in-memory registry, which is keyed by manifest name. */
  function ChangeStatus(dirName: string, active: bool, loaded: Option<Manifest>, registry: map<string, Manifest>)
    : (r: (Option<Manifest>, map<string, Manifest>))
    ensures r.0.Some? <==> loaded.Some? && loaded.value != map[]
    ensures r.0.Some? ==> r.0.value.Keys == loaded.value.Keys + {"status"} && r.0.value["status"] == VBool(active)
    ensures r.0.Some? ==> forall k :: k in loaded.value && k != "status" ==> r.0.value[k] == loaded.value[k]
    ensures r.1.Keys == registry.Keys
    ensures forall k :: k in registry && k != dirName ==> r.1[k] == registry[k]
    ensures r.0.Some? && dirName in registry ==> r.1[dirName] == registry[dirName]["status" := VBool(active)]
    ensures r.0.None? ==> r.1 == registry
  {
    match loaded
    case Some(m) =>
      if m == map[] then (None, registry)
      else
        var reg := if dirName in registry then registry[dirName := registry[dirName]["status" := VBool(active)]] else registry;
        (Some(m["status" := VBool(active)]), reg)
    case None => (None, registry)
  }

  /** The registry is keyed by the manifest's `name` but the switch looks
      up its directory's name: for a package whose directory is named
      differently, the switch updates the file and not the running
      window. */
  lemma SwitchMissesRenamedPackage(dirName: string, active: bool, m: Manifest, registry: map<string, Manifest>)
    requires m != map[] && dirName !in registry
    ensures ChangeStatus(dirName, active, Some(m), registry).1 == registry
    ensures ChangeStatus(dirName, active, Some(m), registry).0 == Some(m["status" := VBool(active)])
  {
  }

  /** Whether `delete_extension` shows "has been removed". */
  predicate DeleteNotifies(o: FileOutcome<Value>) {
    var r := HandleFileOperations(o);
    r.Success? && r.value.Some? && Truthy(r.value.value)
  }

  /** `shutil.rmtree` returns `None`, so the notice never appears. */
  lemma DeleteNeverNotifies(o: FileOutcome<Value>)
    requires o.Done? ==> o.value == VNone
    ensures !DeleteNotifies(o)
  {
  }
}
