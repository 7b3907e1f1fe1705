/** `newelle_extension_generator.py`: asking the model for an extension's
    code and writing a generated extension to disk. The model and the
    Python syntax check are oracles; the written files are returned as
    values. */
module ExtensionGenerator {
  import opened Wrappers
  import opened Text
  import opened Json
  import opened PosixPath
  import opened ExtensionManager

  // ---------------------------------------------------------------------
  // generate_extension_code
  // ---------------------------------------------------------------------

  const PromptHead: string := "\nGenerate a Newelle extension named '"
  const PromptDescription: string := "' with the following specifications:\n\nDescription: "
  const PromptFunctionality: string := "\nFunctionality: "
  const PromptTail: string :=
    "\n\nThe extension should be a valid Python file that adheres to Newelle's extension guidelines.  "
    + "Include necessary imports and error handling.  The extension should be self-contained and easily "
    + "integrable into Newelle.\n\nExtension Code:\n```python\n"

  /** The authoring prompt, with the three inputs inserted verbatim. */
  function GenerationPrompt(name: string, description: string, functionality: string): (p: string)
    ensures OccursAt(p, name, |PromptHead|)
    ensures OccursAt(p, description, |PromptHead| + |name| + |PromptDescription|)
    ensures OccursAt(p, functionality, |PromptHead| + |name| + |PromptDescription| + |description| + |PromptFunctionality|)
  {
    var a := PromptHead + name;
    var b := a + PromptDescription + description;
    var c := b + PromptFunctionality + functionality;
    var i := |PromptHead|;
    var j := i + |name| + |PromptDescription|;
    var k := j + |description| + |PromptFunctionality|;
    assert |a + PromptDescription| == j && |b + PromptFunctionality| == k;
    OccursAppended(PromptHead, name);
    OccursExtend(a, name, i, PromptDescription);
    OccursExtend(a + PromptDescription, name, i, description);
    OccursAppended(a + PromptDescription, description);
    OccursExtend(b, name, i, PromptFunctionality);
    OccursExtend(b, description, j, PromptFunctionality);
    OccursExtend(b + PromptFunctionality, name, i, functionality);
    OccursExtend(b + PromptFunctionality, description, j, functionality);
    OccursAppended(b + PromptFunctionality, functionality);
    OccursExtend(c, name, i, PromptTail);
    OccursExtend(c, description, j, PromptTail);
    OccursExtend(c, functionality, k, PromptTail);
    c + PromptTail
  }

  /** Every "```python\n" and then every "\n```" is deleted, wherever it
      occurs in the reply. */
  function StripCodeFences(reply: string): string {
    Replace(Replace(reply, "```python\n", ""), "\n```", "")
  }

  /** `generate_extension_code`: the cleaned code and the checker's
      verdict on it, or `("", False)` when the model raises. */
  function GenerateExtensionCode(name: string, description: string, functionality: string,
                                 llm: string -> Result<string, string>, validate: string -> bool): (r: (string, bool))
    ensures llm(GenerationPrompt(name, description, functionality)).Failure? ==> r == ("", false)
    ensures llm(GenerationPrompt(name, description, functionality)).Success? ==>
      var code := StripCodeFences(llm(GenerationPrompt(name, description, functionality)).value);
      r == (code, validate(code))
    ensures r.1 ==> validate(r.0)
  {
    match llm(GenerationPrompt(name, description, functionality))
    case Failure(_) => ("", false)
    case Success(reply) =>
      var code := StripCodeFences(reply);
      (code, validate(code))
  }

  /** A body without backticks, fenced as the prompt asks, comes back
      unchanged. */
  lemma StripCodeFencesRoundTrip(body: string)
    requires '`' !in body
    ensures StripCodeFences("```python\n" + body + "\n```") == body
  {
    var open, close := "```python\n", "\n```";
    var inner := body + close;
    assert open + body + close == open + inner;
    assert (open + inner)[..|open|] == open && (open + inner)[|open|..] == inner;
    assert !Contains(inner, open) by {
      forall i | 0 <= i <= |inner| - |open| ensures !OccursAt(inner, open, i) {
        if i < |body| {
          assert inner[i] == body[i] && body[i] in body;
          assert inner[i..i + |open|][0] == inner[i];
        }
      }
    }
    ReplaceAbsent(inner, open, "");
    assert Replace(open + inner, open, "") == "" + Replace(inner, open, "");
    assert "" + inner == inner;
    ReplaceTrailing(body, close, "");
    assert body + "" == body;
  }

  // ---------------------------------------------------------------------
  // install_extension
  // ---------------------------------------------------------------------

  predicate NameChar(c: char) {
    ('a' <= c <= 'z') || ('A' <= c <= 'Z') || ('0' <= c <= '9') || c == '_'
  }

  /** `re.fullmatch(r"^[a-zA-Z0-9_]+$", s)`. */
  predicate IsExtensionName(s: string) {
    |s| > 0 && forall i :: 0 <= i < |s| ==> NameChar(s[i])
  }

  /** `path.split("/")[-1]`. */
  function LastSegment(path: string): (seg: string)
    ensures '/' !in seg && EndsWith(path, seg)
  {
    if '/' in path then
      var i := LastSlash(path, |path|);
      path[i + 1..]
    else path
  }

  /** The index of the last "/" before `end`. */
  function LastSlash(path: string, end: nat): (i: nat)
    requires end <= |path| && '/' in path[..end]
    ensures i < end && path[i] == '/'
    ensures forall j :: i < j < end ==> path[j] != '/'
  {
    if path[end - 1] == '/' then end - 1
    else
      assert '/' in path[..end - 1] by {
        var k :| 0 <= k < end && path[..end][k] == '/';
        assert k < end - 1 && path[..end - 1][k] == '/';
      }
      LastSlash(path, end - 1)
  }

  /** What `install_extension` leaves behind.  Only `Written` makes it
      return `True`. */
  datatype InstallOutcome =
    | BadName                          // rejected before touching the disk
    | NoDirectory                      // the directory is missing and cannot be created
    | ManifestFailed                   // writing main.json failed: nothing is written
    | CodeFailed(manifest: Manifest, manifestFile: string)
                                       // main.json written, the code file not
    | Written(manifest: Manifest, manifestFile: string, codeFile: string, code: string)

  /** The manifest written for a generated extension (written in the
      order name, prompt, api, about). */
  function GeneratedManifest(seg: string): Manifest {
    map["name" := VStr(seg), "prompt" := VStr(""), "api" := VStr(seg + ".py"), "about" := VStr("")]
  }

  /** `install_extension(code, path)`: `dirOk` says whether the directory
      exists or can be created, `manifestOk` and `codeOk` whether each of
      the two files, written in that order inside one `try`, can be
      written. */
  function InstallExtension(code: string, path: string, dirOk: bool, manifestOk: bool, codeOk: bool): (r: InstallOutcome)
    ensures r.BadName? <==> !IsExtensionName(LastSegment(path))
    ensures IsExtensionName(LastSegment(path)) ==> (r.Written? <==> dirOk && manifestOk && codeOk)
    ensures r.Written? ==>
      && r.manifest == GeneratedManifest(LastSegment(path)) && r.code == code
      && r.manifestFile == PathJoin(path, "main.json")
      && r.codeFile == PathJoin(path, LastSegment(path) + ".py")
    ensures r.CodeFailed? <==> IsExtensionName(LastSegment(path)) && dirOk && manifestOk && !codeOk
    ensures r.CodeFailed? ==> r.manifest == GeneratedManifest(LastSegment(path)) && r.manifestFile == PathJoin(path, "main.json")
  {
    var seg := LastSegment(path);
    if !IsExtensionName(seg) then BadName
    else if !dirOk then NoDirectory
    else if !manifestOk then ManifestFailed
    else if !codeOk then CodeFailed(GeneratedManifest(seg), PathJoin(path, "main.json"))
    else Written(GeneratedManifest(seg), PathJoin(path, "main.json"), PathJoin(path, seg + ".py"), code)
  }

  /** A generated extension cannot be installed through the folder
      chooser (its prompt and description are empty) and shows switched
      off (it has no status). */
  lemma GeneratedManifestIncomplete(seg: string)
    ensures !Complete(GeneratedManifest(seg))
    ensures StatusShown(GeneratedManifest(seg)) == VBool(false)
  {
  }
}
