/** The decision logic inside the custom widgets of src/gtkobj.py: file
    icons in the explorer, the style class of a code block, the scale of
    a bar chart, and the combo row used for choice settings.  Drawing is
    not modelled. */
module Widgets {
  import opened Wrappers
  import opened Text
  import opened Json
  import Handler
  import Tts
  import PosixPath

  // ---------------------------------------------------------------------------
  // File icons
  // ---------------------------------------------------------------------------

  /** Special folders of the home directory and their icons. */
  const FolderIcons: map<string, string> := map[
    "Desktop" := "user-desktop",
    "Documents" := "folder-documents",
    "Downloads" := "folder-download",
    "Music" := "folder-music",
    "Pictures" := "folder-pictures",
    "Public" := "folder-publicshare",
    "Templates" := "folder-templates",
    "Videos" := "folder-videos",
    ".var/app/io.github.qwersyk.Newelle/Newelle" := "user-bookmarks"]

  predicate IsImageName(fileName: string) {
    var lower := AsciiLower(fileName);
    EndsWith(lower, ".png") || EndsWith(lower, ".jpg")
  }

  /** `_get_icon_name`: a directory's icon by its name, a file's by its
      extension. */
  function IconName(isDir: bool, fileName: string): (r: string)
    ensures isDir ==> r == (if fileName in FolderIcons then FolderIcons[fileName] else "folder")
    ensures !isDir ==> (r == "image-x-generic" <==> IsImageName(fileName))
    ensures !isDir ==> r in {"image-x-generic", "text-x-generic"}
  {
    if isDir then (if fileName in FolderIcons then FolderIcons[fileName] else "folder")
    else if IsImageName(fileName) then "image-x-generic" else "text-x-generic"
  }

  /** Where the explorer's file widget looks: the widget's directory,
      "~" expanded, joined with the entry's name. */
  function FileLocation(path: string, fileName: string, home: string, lookup: string -> Option<string>): string {
    PosixPath.PathJoin(PosixPath.ExpandUser(path, home, lookup), fileName)
  }

  /** `_get_icon_name` as a method of the widget: it reads the `path`
      attribute, which raises AttributeError while it is unset (`None`
      here). `isDir` answers `os.path.isdir`. */
  function GetIconName(path: Option<string>, fileName: string, home: string,
                       lookup: string -> Option<string>, isDir: string -> bool): (r: Result<string, string>)
    ensures r.Failure? <==> path.None?
    ensures path.Some? ==> r.value == IconName(isDir(FileLocation(path.value, fileName, home, lookup)), fileName)
  {
    match path
    case None => Failure("AttributeError")
    case Some(p) => Success(IconName(isDir(FileLocation(p, fileName, home, lookup)), fileName))
  }

  /** The attributes a constructed `File` widget holds. */
  datatype FileImage = FileImage(path: string, fileName: string, iconName: string)

  /** `File(path, file_name)` as written: the icon is looked up before
      `self.path` is assigned, so construction always raises. */
  function NewFileAsWritten(path: string, fileName: string, home: string,
                            lookup: string -> Option<string>, isDir: string -> bool): (r: Result<FileImage, string>)
    ensures r == Failure("AttributeError")
  {
    var unset: Option<string> := None;
    match GetIconName(unset, fileName, home, lookup, isDir)
    case Failure(e) => Failure(e)
    case Success(icon) => Success(FileImage(path, fileName, icon))
  }

  /** `File(path, file_name)` with `self.path` assigned first: the widget
      keeps its directory and name, and shows a folder icon exactly when
      the joined location is a directory, the special folder's own icon
      for a special folder. */
  function NewFile(path: string, fileName: string, home: string,
                   lookup: string -> Option<string>, isDir: string -> bool): (r: FileImage)
    ensures r.path == path && r.fileName == fileName
    ensures r.iconName in {"image-x-generic", "text-x-generic"} <==> !isDir(FileLocation(path, fileName, home, lookup))
    ensures isDir(FileLocation(path, fileName, home, lookup)) && fileName in FolderIcons ==> r.iconName == FolderIcons[fileName]
  {
    DirectoryIconIsFolder(fileName);
    FileImage(path, fileName, GetIconName(Some(path), fileName, home, lookup, isDir).value)
  }

  /** No special folder shares an icon with files. */
  lemma DirectoryIconIsFolder(fileName: string)
    ensures IconName(true, fileName) !in {"image-x-generic", "text-x-generic"}
  {
    if fileName in FolderIcons {
      assert FolderIcons[fileName] in FolderIcons.Values;
    }
  }

  /** The extension test ignores case: "photo.PNG" is an image like
      "photo.png", and so is "scan.JPG". */
  lemma ImageExtensionIgnoresCase(stem: string)
    ensures IconName(false, stem + ".PNG") == IconName(false, stem + ".png") == "image-x-generic"
    ensures IconName(false, stem + ".JPG") == "image-x-generic"
  {
    AsciiLowerConcat(stem, ".PNG");
    AsciiLowerConcat(stem, ".png");
    AsciiLowerConcat(stem, ".JPG");
    assert AsciiLower(".PNG") == ".png";
    assert AsciiLower(".png") == ".png";
    assert AsciiLower(".JPG") == ".jpg";
    var l := AsciiLower(stem);
    assert (l + ".png")[|l + ".png"| - 4..] == ".png";
    assert (l + ".jpg")[|l + ".jpg"| - 4..] == ".jpg";
  }

  // ---------------------------------------------------------------------------
  // Code block styles
  // ---------------------------------------------------------------------------

  /** A key of the style map: a tuple of language names, or one name. */
  datatype StyleKey = Group(langs: seq<string>) | Single(lang: string)

  datatype StyleEntry = StyleEntry(key: StyleKey, style: string)

  /** The style map in its insertion order. */
  const StyleMap: seq<StyleEntry> := [
    StyleEntry(Group(["python", "cpp", "php", "objc", "go", "typescript", "lua", "perl", "r", "dart", "sql"]), "accent"),
    StyleEntry(Group(["java", "javascript", "kotlin", "rust"]), "warning"),
    StyleEntry(Group(["ruby", "swift", "scala"]), "error"),
    StyleEntry(Single("console"), "")]

  predicate KeyMatches(k: StyleKey, lang: string) {
    match k
    case Group(ls) => lang in ls
    case Single(l) => lang == l
  }

  /** The loop of `_get_style_class`: the style of the first matching key,
      "success" when none matches. */
  function StyleFrom(entries: seq<StyleEntry>, lang: string): (r: string)
    ensures (forall i :: 0 <= i < |entries| ==> !KeyMatches(entries[i].key, lang)) ==> r == "success"
    decreases |entries|
  {
    if entries == [] then "success"
    else if KeyMatches(entries[0].key, lang) then entries[0].style
    else
      assert forall i :: 1 <= i < |entries| ==> entries[1..][i - 1] == entries[i];
      StyleFrom(entries[1..], lang)
  }

  function StyleClass(lang: string): string {
    StyleFrom(StyleMap, lang)
  }

  const AccentLangs: set<string> := {"python", "cpp", "php", "objc", "go", "typescript", "lua", "perl", "r", "dart", "sql"}
  const WarningLangs: set<string> := {"java", "javascript", "kotlin", "rust"}
  const ErrorLangs: set<string> := {"ruby", "swift", "scala"}

  /** The style classes by language family, independent of the map's
      layout; every language not listed, the empty name included, is
      "success". */
  lemma StyleClassSpec(lang: string)
    ensures StyleClass(lang) ==
      if lang in AccentLangs then "accent"
      else if lang in WarningLangs then "warning"
      else if lang in ErrorLangs then "error"
      else if lang == "console" then ""
      else "success"
  {
    var g0 := ["python", "cpp", "php", "objc", "go", "typescript", "lua", "perl", "r", "dart", "sql"];
    var g1 := ["java", "javascript", "kotlin", "rust"];
    var g2 := ["ruby", "swift", "scala"];
    assert lang in g0 <==> lang in AccentLangs;
    assert lang in g1 <==> lang in WarningLangs;
    assert lang in g2 <==> lang in ErrorLangs;
    assert StyleMap[1..][1..][1..] == [StyleEntry(Single("console"), "")];
  }

  // ---------------------------------------------------------------------------
  // Bar charts
  // ---------------------------------------------------------------------------

  /** `max(values)`. */
  function MaxOf(values: seq<real>): (m: real)
    requires |values| > 0
    ensures m in values
    ensures forall i :: 0 <= i < |values| ==> values[i] <= m
    decreases |values|
  {
    if |values| == 1 then values[0]
    else
      var rest := MaxOf(values[1..]);
      assert forall i :: 1 <= i < |values| ==> values[i] == values[1..][i - 1];
      if values[0] >= rest then values[0] else rest
  }

  /** The value a full bar stands for: the largest value (1 for an empty
      chart), raised to 100 for a percentage chart whose values fit. */
  function ChartMax(values: seq<real>, percentages: bool): (m: real)
    ensures forall i :: 0 <= i < |values| ==> values[i] <= m
    ensures percentages ==> m >= 100.0
    ensures percentages ==> m == 100.0 || m in values
    ensures !percentages && values != [] ==> m in values
    ensures !percentages && values == [] ==> m == 1.0
  {
    var m := if |values| > 0 then MaxOf(values) else 1.0;
    if percentages && m <= 100.0 then 100.0 else m
  }

  /** The fraction one bar is filled to; none is set when the maximum is 0. */
  function BarFraction(value: real, m: real): Option<real> {
    if m != 0.0 then Some(value / m) else None
  }

  /** Non-negative values give bars between empty and full. */
  lemma BarsWithinRange(values: seq<real>, percentages: bool, i: nat)
    requires i < |values| && 0.0 <= values[i]
    requires BarFraction(values[i], ChartMax(values, percentages)).Some?
    ensures 0.0 <= BarFraction(values[i], ChartMax(values, percentages)).value <= 1.0
  {
    var m := ChartMax(values, percentages);
    assert values[i] <= m;
    FractionAtMostOne(values[i], m);
  }

  lemma FractionAtMostOne(v: real, m: real)
    requires 0.0 <= v <= m && m != 0.0
    ensures 0.0 <= v / m <= 1.0
  {
    assert m > 0.0;
    assert v / m * m == v;
  }

  // ---------------------------------------------------------------------------
  // Combo rows
  // ---------------------------------------------------------------------------

  /** The combo's initially selected index: the first option whose value
      equals the stored setting, else 0.  Options are `(name, value)` pairs
      of strings; for the voice setting they are the handler's voices.  The
      stored setting is whatever `get_setting` returns, so `None` or a
      non-string value matches no option. */
  function InitialIndex(options: seq<Tts.Voice>, selected: Value): (i: nat)
    ensures |options| > 0 ==> i < |options|
    ensures selected.VStr? && Tts.VoiceAvailable(options, selected.s) ==>
      options[i].id == selected.s && forall j :: 0 <= j < i ==> options[j].id != selected.s
    ensures !(selected.VStr? && Tts.VoiceAvailable(options, selected.s)) ==> i == 0
  {
    match selected
    case VStr(s) => IndexOfVoice(options, s)
    case _ => 0
  }

  /** The first option whose value is `selected`, else 0. */
  function IndexOfVoice(options: seq<Tts.Voice>, selected: string): (i: nat)
    ensures |options| > 0 ==> i < |options|
    ensures Tts.VoiceAvailable(options, selected) ==>
      options[i].id == selected && forall j :: 0 <= j < i ==> options[j].id != selected
    ensures !Tts.VoiceAvailable(options, selected) ==> i == 0
    decreases |options|
  {
    if options == [] then 0
    else if options[0].id == selected then 0
    else
      var i := IndexOfVoice(options[1..], selected);
      assert forall j :: 1 <= j < |options| ==> options[j] == options[1..][j - 1];
      assert Tts.VoiceAvailable(options, selected) ==> Tts.VoiceAvailable(options[1..], selected) by {
        if Tts.VoiceAvailable(options, selected) {
          var j :| 0 <= j < |options| && options[j].id == selected;
          assert options[1..][j - 1].id == selected;
        }
      }
      if Tts.VoiceAvailable(options, selected) then i + 1 else 0
  }

  /** `__on_selected` as written: it reads `self.__combo`, which Python
      mangles to `_ComboRowHelper__combo`, an attribute never assigned (the
      constructor stores `self.combo`), so it raises `AttributeError` before
      emitting "changed". */
  function OnSelectedAsWritten(options: seq<Tts.Voice>, selected: nat): (r: Result<string, string>)
    ensures r.Failure?
  {
    Failure("AttributeError")
  }

  /** `__on_selected` reading the attribute the constructor set: emits the
      selected option's value (an empty combo has no selected item). */
  function OnSelected(options: seq<Tts.Voice>, selected: nat): (r: Result<string, string>)
    ensures r.Success? <==> selected < |options|
    ensures r.Success? ==> r.value == options[selected].id
  {
    if selected < |options| then Success(options[selected].id) else Failure("AttributeError")
  }

  /** The settings window's `setting_change_combo`, run when "changed" is
      emitted: the handler stores the value under the row's key. */
  function ComboChange(h: Handler.HandlerInfo, blob: Handler.Store, key: string,
                       selection: Result<string, string>): (r: Handler.Store)
    ensures selection.Failure? ==> r == blob
  {
    match selection
    case Success(v) => Handler.SetSetting(h, blob, key, VStr(v))
    case Failure(_) => blob
  }

  /** As written, picking a voice in the settings changes nothing the
      handler reads. */
  lemma VoiceChoiceLostAsWritten(h: Handler.HandlerInfo, blob: Handler.Store,
                                 options: seq<Tts.Voice>, selected: nat, voices: seq<Tts.Voice>)
    ensures Tts.CurrentVoice(Handler.GetSetting(h, ComboChange(h, blob, "voice", OnSelectedAsWritten(options, selected)), "voice"), voices)
         == Tts.CurrentVoice(Handler.GetSetting(h, blob, "voice"), voices)
  {
  }

  /** With the attribute fixed, the picked voice becomes the handler's
      current voice, and reopening the settings selects an option with that
      same value. */
  lemma VoiceChoiceStored(h: Handler.HandlerInfo, blob: Handler.Store,
                          options: seq<Tts.Voice>, selected: nat, voices: seq<Tts.Voice>)
    requires blob.Doc? && selected < |options| && options[selected].id != ""
    ensures Tts.CurrentVoice(Handler.GetSetting(h, ComboChange(h, blob, "voice", OnSelected(options, selected)), "voice"), voices)
         == VStr(options[selected].id)
    ensures options[InitialIndex(options, Handler.GetSetting(h, ComboChange(h, blob, "voice", OnSelected(options, selected)), "voice"))].id
         == options[selected].id
  {
    Handler.GetAfterSet(h, blob, "voice", VStr(options[selected].id), k => Handler.DefaultLastWins(h.extraSettings, k));
    assert Tts.VoiceAvailable(options, options[selected].id);
  }
}
