/** The handler base class of `src/handler.py`: the per-handler settings
    store, declared defaults, requirement checks and installation. */
module Handler {
  import opened Wrappers
  import opened Text
  import opened Json

  /** One entry of `get_extra_settings()`; only the fields the store reads. */
  datatype Descriptor = Descriptor(key: string, default: Value)

  /** What a handler class declares. */
  datatype HandlerInfo = HandlerInfo(
    key: string,                 // namespace inside the settings document
    schemaKey: string,           // the GSettings key holding the document
    extraSettings: seq<Descriptor>,
    requirements: seq<string>,   // `get_extra_requirements()`
    requiresSandboxEscape: bool)

  /** The JSON document stored under one schema key, as `json.loads` sees
      it: either not valid JSON, or an object mapping each handler key to
      an object of settings. */
  datatype Store = Malformed | Doc(entries: map<string, map<string, Value>>)

  // ---------------------------------------------------------------------
  // Declared defaults
  // ---------------------------------------------------------------------

  /** The dictionary `{s["key"]: s["default"] for s in descriptors}`: a
      later descriptor with the same key overwrites an earlier one. */
  function DefaultsMap(ds: seq<Descriptor>): (m: map<string, Value>)
    ensures forall k :: k in m <==> exists i :: 0 <= i < |ds| && ds[i].key == k
    decreases |ds|
  {
    if |ds| == 0 then map[]
    else
      var init := ds[..|ds| - 1];
      var m0 := DefaultsMap(init);
      assert forall i :: 0 <= i < |init| ==> init[i] == ds[i];
      m0[ds[|ds| - 1].key := ds[|ds| - 1].default]
  }

  /** `Handler.get_default_setting(key)`: the default of the last
      descriptor declaring `key`, or `None`. */
  function DefaultLastWins(ds: seq<Descriptor>, key: string): Value {
    var m := DefaultsMap(ds);
    if key in m then m[key] else VNone
  }

  /** `LLMHandler.get_default_setting(key)`: the loop returns the default
      of the first descriptor declaring `key`, or `None`. */
  function DefaultFirstWins(ds: seq<Descriptor>, key: string): (r: Value)
    ensures (forall i :: 0 <= i < |ds| ==> ds[i].key != key) ==> r == VNone
    ensures forall i :: 0 <= i < |ds| && ds[i].key == key ==>
      (forall j :: 0 <= j < i ==> ds[j].key != key) ==> r == ds[i].default
    decreases |ds|
  {
    if |ds| == 0 then VNone
    else if ds[0].key == key then ds[0].default
    else
      var tail := ds[1..];
      assert forall i :: 1 <= i < |ds| ==> tail[i - 1] == ds[i];
      DefaultFirstWins(tail, key)
  }

  /** The last descriptor declaring `key` gives `get_default_setting`; an
      undeclared key gives `None`. */
  lemma {:induction false} DefaultLastWinsSpec(ds: seq<Descriptor>, key: string, i: int)
    requires 0 <= i < |ds| && ds[i].key == key
    requires forall j :: i < j < |ds| ==> ds[j].key != key
    ensures DefaultLastWins(ds, key) == ds[i].default
    decreases |ds|
  {
    var n := |ds| - 1;
    if i < n {
      var init := ds[..n];
      assert init[i] == ds[i];
      assert forall j :: i < j < |init| ==> init[j] == ds[j];
      DefaultLastWinsSpec(init, key, i);
    }
  }

  lemma DefaultLastWinsUndeclared(ds: seq<Descriptor>, key: string)
    requires forall i :: 0 <= i < |ds| ==> ds[i].key != key
    ensures DefaultLastWins(ds, key) == VNone
  {
  }

  predicate UniqueKeys(ds: seq<Descriptor>) {
    forall i, j :: 0 <= i < j < |ds| ==> ds[i].key != ds[j].key
  }

  /** With distinct keys, the base class and the language-model class
      report the same default. */
  lemma DefaultsAgree(ds: seq<Descriptor>, key: string)
    requires UniqueKeys(ds)
    ensures DefaultLastWins(ds, key) == DefaultFirstWins(ds, key)
  {
    if i :| 0 <= i < |ds| && ds[i].key == key {
      DefaultLastWinsSpec(ds, key, i);
    }
  }

  /** With a repeated key the two readings differ. */
  lemma DefaultsDisagreeOnDuplicates()
    ensures
      var ds := [Descriptor("model", VStr("a")), Descriptor("model", VStr("b"))];
      DefaultLastWins(ds, "model") == VStr("b") && DefaultFirstWins(ds, "model") == VStr("a")
  {
    var ds := [Descriptor("model", VStr("a")), Descriptor("model", VStr("b"))];
    DefaultLastWinsSpec(ds, "model", 1);
  }

  // ---------------------------------------------------------------------
  // get_setting / set_setting
  // ---------------------------------------------------------------------

  /** `Handler.get_setting(key)` reading the document `blob`; `default`
      is the handler's `get_default_setting`. */
  function GetSettingWith(h: HandlerInfo, blob: Store, key: string, default: string -> Value): (r: Value)
    ensures blob.Doc? && h.key in blob.entries && key in blob.entries[h.key] ==> r == blob.entries[h.key][key]
    ensures blob.Malformed? || h.key !in blob.entries || key !in blob.entries[h.key] ==> r == default(key)
  {
    match blob
    case Malformed => default(key)
    case Doc(j) =>
      if h.key !in j || key !in j[h.key] then default(key) else j[h.key][key]
  }

  /** `get_setting` with the base-class default. */
  function GetSetting(h: HandlerInfo, blob: Store, key: string): Value {
    GetSettingWith(h, blob, key, k => DefaultLastWins(h.extraSettings, k))
  }

  /** `Handler.set_setting(key, value)`: the new document, or the old one
      unchanged when it is not valid JSON. */
  function SetSetting(h: HandlerInfo, blob: Store, key: string, value: Value): (r: Store)
    ensures blob.Malformed? <==> r.Malformed?
    ensures blob.Malformed? ==> r == blob
    ensures r.Doc? ==> h.key in r.entries && r.entries.Keys == blob.entries.Keys + {h.key}
  {
    match blob
    case Malformed => Malformed
    case Doc(j) =>
      var entry := if h.key in j then j[h.key] else map[];
      Doc(j[h.key := entry[key := value]])
  }

  /** Round trip: a value written is the value read back. */
  lemma GetAfterSet(h: HandlerInfo, blob: Store, key: string, value: Value, default: string -> Value)
    requires blob.Doc?
    ensures GetSettingWith(h, SetSetting(h, blob, key, value), key, default) == value
  {
  }

  /** A write touches only `j[h.key][key]`: every other setting of every
      handler sharing the document reads as before. */
  lemma SetSettingFrame(h: HandlerInfo, blob: Store, key: string, value: Value,
                        other: HandlerInfo, otherKey: string, default: string -> Value)
    requires other.key != h.key || otherKey != key
    ensures GetSettingWith(other, SetSetting(h, blob, key, value), otherKey, default)
         == GetSettingWith(other, blob, otherKey, default)
  {
  }

  /** The stored document after a write differs from the old one only in
      the writer's entry, and that entry only at `key`. */
  lemma SetSettingNothingElse(h: HandlerInfo, j: map<string, map<string, Value>>, key: string, value: Value)
    ensures
      var r := SetSetting(h, Doc(j), key, value).entries;
      && (forall k :: k in j && k != h.key ==> k in r && r[k] == j[k])
      && (forall s :: h.key in j && s in j[h.key] && s != key ==> s in r[h.key] && r[h.key][s] == j[h.key][s])
      && r[h.key].Keys == (if h.key in j then j[h.key].Keys else {}) + {key}
  {
  }

  // ---------------------------------------------------------------------
  // Requirements
  // ---------------------------------------------------------------------

  /** `is_installed`: walks the requirements and stops at the first one
      `find_module` cannot resolve. */
  function IsInstalled(requirements: seq<string>, resolves: string -> bool): (r: bool)
    ensures r <==> forall i :: 0 <= i < |requirements| ==> resolves(requirements[i])
    decreases |requirements|
  {
    if |requirements| == 0 then true
    else if !resolves(requirements[0]) then false
    else
      var r := IsInstalled(requirements[1..], resolves);
      assert forall i :: 1 <= i < |requirements| ==> requirements[1..][i - 1] == requirements[i];
      r
  }

  /** What `install()` returns: the failing `install_module` output, or
      the result of `_custom_install()`. */
  datatype InstallResult = InstallError(message: string) | Installed(ok: bool)

  predicate IsErrorText(s: string) {
    Contains(s, "Error")
  }

  /** Requirement `i` is the first whose installation output reports an error. */
  predicate FirstError(requirements: seq<string>, installModule: string -> string, i: int) {
    && 0 <= i < |requirements|
    && IsErrorText(installModule(requirements[i]))
    && forall j :: 0 <= j < i ==> !IsErrorText(installModule(requirements[j]))
  }

  /** `install()`: runs `install_module` (given as the text it returns for
      each requirement) in order and stops at the first output containing
      "Error"; otherwise defers to `_custom_install()`. */
  function Install(requirements: seq<string>, installModule: string -> string, customInstall: bool): (r: InstallResult)
    ensures r.Installed? <==> forall i :: 0 <= i < |requirements| ==> !IsErrorText(installModule(requirements[i]))
    ensures r.Installed? ==> r.ok == customInstall
    ensures r.InstallError? ==> exists i :: FirstError(requirements, installModule, i) && r.message == installModule(requirements[i])
    decreases |requirements|
  {
    if |requirements| == 0 then Installed(customInstall)
    else if IsErrorText(installModule(requirements[0])) then InstallError(installModule(requirements[0]))
    else
      var r := Install(requirements[1..], installModule, customInstall);
      assert forall i :: 1 <= i < |requirements| ==> requirements[1..][i - 1] == requirements[i];
      assert r.InstallError? ==> exists i :: FirstError(requirements, installModule, i) && r.message == installModule(requirements[i]) by {
        if r.InstallError? {
          var i :| FirstError(requirements[1..], installModule, i) && r.message == installModule(requirements[1..][i]);
          assert FirstError(requirements, installModule, i + 1);
        }
      }
      r
  }

  /** The base class's `_custom_install()`. */
  const DefaultCustomInstall: bool := true

  /** With no requirement failing, a handler that does not override
      `_custom_install` reports success. */
  lemma InstallDefaultSucceeds(requirements: seq<string>, installModule: string -> string)
    requires forall i :: 0 <= i < |requirements| ==> !IsErrorText(installModule(requirements[i]))
    ensures Install(requirements, installModule, DefaultCustomInstall) == Installed(true)
  {
  }
}
