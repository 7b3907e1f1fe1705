/** `posixpath.join`, `posixpath.normpath` and `posixpath.expanduser` as
    CPython implements them; the window's file explorer and the extension
    installer build their paths with these. */
module PosixPath {
  import opened Wrappers
  import opened Text

  /** `os.path.join(a, b)`: an absolute `b` replaces `a`; otherwise a
      separator is inserted unless `a` is empty or already ends in one. */
  function PathJoin(a: string, b: string): (r: string)
    ensures StartsWith(b, "/") ==> r == b
    ensures !StartsWith(b, "/") ==> a <= r && EndsWith(r, b)
  {
    if StartsWith(b, "/") then b
    else if a == "" || EndsWith(a, "/") then a + b
    else a + "/" + b
  }

  // ---------------------------------------------------------------------
  // normpath
  // ---------------------------------------------------------------------

  /** How many leading slashes normpath keeps: POSIX lets exactly two mean
      something implementation-defined, three or more mean one. */
  function InitialSlashes(p: string): (n: nat)
    ensures n <= 2
    ensures n > 0 <==> StartsWith(p, "/")
  {
    if StartsWith(p, "//") && !StartsWith(p, "///") then 2
    else if StartsWith(p, "/") then 1
    else 0
  }

  /** One component of the loop: empty and "." components vanish, ".."
      removes the previous component unless there is none to remove, in
      which case a relative path keeps it and a rooted one drops it. */
  function StepComp(acc: seq<string>, c: string, rooted: bool): seq<string> {
    if c == "" || c == "." then acc
    else if c != ".." || (!rooted && |acc| == 0) || (|acc| > 0 && acc[|acc| - 1] == "..") then acc + [c]
    else if |acc| > 0 then acc[..|acc| - 1]
    else acc
  }

  function FoldComps(acc: seq<string>, comps: seq<string>, rooted: bool): seq<string>
    decreases |comps|
  {
    if |comps| == 0 then acc else FoldComps(StepComp(acc, comps[0], rooted), comps[1..], rooted)
  }

  /** Components in normal form: none empty, none ".", no "/", and ".."
      only as a leading run, which a rooted path does not have. */
  predicate Normal(cs: seq<string>, rooted: bool) {
    && (forall i :: 0 <= i < |cs| ==> cs[i] != "" && cs[i] != "." && '/' !in cs[i])
    && (forall i, j :: 0 <= i < j < |cs| && cs[j] == ".." ==> cs[i] == "..")
    && (rooted ==> forall i :: 0 <= i < |cs| ==> cs[i] != "..")
  }

  lemma StepCompNormal(acc: seq<string>, c: string, rooted: bool)
    requires Normal(acc, rooted) && '/' !in c
    ensures Normal(StepComp(acc, c, rooted), rooted)
  {
    var r := StepComp(acc, c, rooted);
    if c != "" && c != "." && |acc| > 0 && c != ".." {
      assert r == acc + [c];
    } else if c != "" && c != "." && |acc| > 0 && acc[|acc| - 1] != ".." && c == ".." {
      assert r == acc[..|acc| - 1];
    }
  }

  lemma {:induction false} FoldCompsNormal(acc: seq<string>, comps: seq<string>, rooted: bool)
    requires Normal(acc, rooted)
    requires forall i :: 0 <= i < |comps| ==> '/' !in comps[i]
    ensures Normal(FoldComps(acc, comps, rooted), rooted)
    decreases |comps|
  {
    if |comps| > 0 {
      StepCompNormal(acc, comps[0], rooted);
      FoldCompsNormal(StepComp(acc, comps[0], rooted), comps[1..], rooted);
    }
  }

  function Slashes(n: nat): (r: string)
    ensures |r| == n && forall i :: 0 <= i < n ==> r[i] == '/'
  {
    if n == 0 then "" else "/" + Slashes(n - 1)
  }

  /** The normalised components of `p`. */
  function NormComps(p: string): seq<string> {
    FoldComps([], Split(p, "/"), InitialSlashes(p) > 0)
  }

  /** `os.path.normpath(p)`. */
  function NormPath(p: string): (r: string)
    ensures r != ""
  {
    if p == "" then "."
    else
      var r := Slashes(InitialSlashes(p)) + Join(NormComps(p), "/");
      if r == "" then "." else r
  }

  /** The pieces `split("/")` returns contain no "/". */
  lemma {:induction false} SplitSlashFree(s: string)
    ensures forall i :: 0 <= i < |Split(s, "/")| ==> '/' !in Split(s, "/")[i]
    decreases |s|
  {
    if |s| >= 1 {
      var rest := if s[..1] == "/" then s[1..] else s[1..];
      SplitSlashFree(rest);
      if s[..1] != "/" {
        var parts := Split(s[1..], "/");
        var r := ConsHead(s[0], parts);
        assert s[0] != '/' by { assert s[..1] == [s[0]]; }
        forall i | 0 <= i < |r| ensures '/' !in r[i] {
          if i == 0 {
            assert r[0] == [s[0]] + parts[0];
          } else {
            assert r[i] == parts[i];
          }
        }
      }
    }
  }

  lemma NormCompsNormal(p: string)
    ensures Normal(NormComps(p), InitialSlashes(p) > 0)
  {
    SplitSlashFree(p);
    FoldCompsNormal([], Split(p, "/"), InitialSlashes(p) > 0);
  }

  lemma {:induction false} JoinSnoc(cs: seq<string>, c: string, sep: string)
    ensures Join(cs + [c], sep) == if |cs| == 0 then c else Join(cs, sep) + sep + c
    decreases |cs|
  {
    if |cs| > 1 {
      assert (cs + [c])[1..] == cs[1..] + [c];
      JoinSnoc(cs[1..], c, sep);
    } else if |cs| == 1 {
      assert (cs + [c])[1..] == [c];
    }
  }

  /** A text whose last component `c` follows a "/" (or stands alone) and
      is normal cannot end in "/..". */
  lemma NoDotDotSuffix(y: string, c: string)
    requires c != "" && c != "." && c != ".." && '/' !in c
    requires y == "" || y[|y| - 1] == '/'
    ensures !EndsWith(y + c, "/..")
  {
    var r := y + c;
    if |c| >= 3 {
      assert c[|c| - 3] in c;
      assert r[|r| - 3] == c[|c| - 3];
      DiffersAt(r, 0);
    } else if |c| == 2 {
      if c[0] != '.' {
        assert r[|r| - 2] == c[0];
        if |r| >= 3 { DiffersAt(r, 1); }
      } else {
        assert c[1] != '.' by { assert c == [c[0], c[1]]; }
        assert r[|r| - 1] == c[1];
        if |r| >= 3 { DiffersAt(r, 2); }
      }
    } else if |y| > 0 {
      assert r[|r| - 2] == '/';
      if |r| >= 3 { DiffersAt(r, 1); }
    }
  }

  lemma DiffersAt(r: string, k: nat)
    requires |r| >= 3 && k < 3 && r[|r| - 3 + k] != "/.."[k]
    ensures !EndsWith(r, "/..")
  {
    assert r[|r| - 3..][k] == r[|r| - 3 + k];
  }

  /** `normpath` can only end in "/.." when every component it keeps is
      "..". */
  lemma NormPathEndsDotDot(q: string)
    requires EndsWith(NormPath(q), "/..")
    ensures |NormComps(q)| > 0 && forall i :: 0 <= i < |NormComps(q)| ==> NormComps(q)[i] == ".."
  {
    var cs := NormComps(q);
    if |cs| == 0 {
      NoCompsNoDotDot(q);
    } else {
      NormPathLastComp(q);
      NormCompsNormal(q);
      var n := |cs| - 1;
      forall i | 0 <= i < |cs| ensures cs[i] == ".." {
        if i < n {
          assert i < n && cs[n] == "..";
        }
      }
    }
  }

  /** When `normpath` ends in "/..", its last component is "..". */
  lemma NormPathLastComp(q: string)
    requires |NormComps(q)| > 0 && EndsWith(NormPath(q), "/..")
    ensures NormComps(q)[|NormComps(q)| - 1] == ".."
  {
    var cs := NormComps(q);
    NormCompsNormal(q);
    var s := Slashes(InitialSlashes(q));
    assert NormPath(q) == s + Join(cs, "/");
    var last := cs[|cs| - 1];
    assert last != "" && last != "." && '/' !in last;
    JoinLast(cs, "/");
    LastComponentDotDot(s, if |cs| == 1 then "" else Join(cs[..|cs| - 1], "/") + "/", last);
  }

  /** Without components, `normpath` gives at most two slashes or ".",
      too short to end in "/..". */
  lemma NoCompsNoDotDot(q: string)
    requires |NormComps(q)| == 0
    ensures |NormPath(q)| <= 2 && !EndsWith(NormPath(q), "/..")
  {
    assert Join(NormComps(q), "/") == "";
  }

  /** `Join` split before its last piece. */
  lemma JoinLast(cs: seq<string>, sep: string)
    requires |cs| > 0
    ensures Join(cs, sep) == (if |cs| == 1 then "" else Join(cs[..|cs| - 1], sep) + sep) + cs[|cs| - 1]
  {
    assert cs == cs[..|cs| - 1] + [cs[|cs| - 1]];
    JoinSnoc(cs[..|cs| - 1], cs[|cs| - 1], sep);
  }

  /** Slashes, then text that is empty or ends in "/", then one component:
      the whole ends in "/.." only when that component is "..". */
  lemma LastComponentDotDot(s: string, mid: string, last: string)
    requires last != "" && last != "." && '/' !in last
    requires forall i :: 0 <= i < |s| ==> s[i] == '/'
    requires mid == "" || mid[|mid| - 1] == '/'
    requires EndsWith(s + (mid + last), "/..")
    ensures last == ".."
  {
    var y := s + mid;
    assert s + (mid + last) == y + last;
    if last != ".." {
      assert y == "" || y[|y| - 1] == '/' by {
        if mid == "" { assert y == s; } else { assert y[|y| - 1] == mid[|mid| - 1]; }
      }
      NoDotDotSuffix(y, last);
      assert false;
    }
  }

  // ---------------------------------------------------------------------
  // The explorer's back and forward buttons
  // ---------------------------------------------------------------------

  /** "Back": the parent of the shown directory. */
  function Back(path: string): string {
    NormPath(path + "/..")
  }

  /** "Forward": only a path ending in "/.." moves, to what is left after
      dropping that suffix. */
  function Forward(path: string): (r: Option<string>)
    ensures r.Some? <==> EndsWith(path, "/..")
  {
    if EndsWith(path, "/..") then Some(NormPath(path[..|path| - 3])) else None
  }

  /** Right after "back" the "forward" button does nothing, unless the
      path is relative and consists of ".." components only. */
  lemma ForwardAfterBack(path: string)
    ensures Forward(Back(path)).Some? ==>
      && !StartsWith(path, "/")
      && forall i :: 0 <= i < |NormComps(path + "/..")| ==> NormComps(path + "/..")[i] == ".."
  {
    var q := path + "/..";
    if Forward(Back(path)).Some? {
      NormPathEndsDotDot(q);
      NormCompsNormal(q);
    }
  }

  lemma FoldTwoDotDots()
    ensures FoldComps([], ["..", ".."], false) == ["..", ".."]
  {
    var d := "..";
    assert StepComp([], d, false) == [d];
    assert [d, d][1..] == [d];
    assert FoldComps([], [d, d], false) == FoldComps([d], [d], false);
    assert StepComp([d], d, false) == [d, d];
    assert [d][1..] == [];
    assert FoldComps([d], [d], false) == FoldComps([d, d], [], false);
  }

  lemma FoldOneDotDot()
    ensures FoldComps([], [".."], false) == [".."]
  {
    assert StepComp([], "..", false) == [".."];
    assert [".."][1..] == [];
  }

  lemma NormPathTwoDotDots()
    ensures NormPath("../..") == "../.."
  {
    var d := "..";
    assert '/' !in d;
    SplitCharAbsent(d, '/');
    SplitCharFirst(d, '/', d);
    assert d + ['/'] + d == "../..";
    assert Split("../..", "/") == [d, d];
    assert InitialSlashes("../..") == 0;
    FoldTwoDotDots();
    assert Join([d, d], "/") == "../.." by {
      assert [d, d][1..] == [d];
    }
  }

  lemma NormPathDotDot()
    ensures NormPath("..") == ".."
  {
    assert '/' !in "..";
    SplitCharAbsent("..", '/');
    assert InitialSlashes("..") == 0;
    FoldOneDotDot();
  }

  /** Where "forward" does move: from ".." "back" gives "../.." and
      "forward" returns to "..". */
  lemma ForwardAfterBackDotDot()
    ensures Back("..") == "../.."
    ensures Forward("../..") == Some("..")
  {
    assert ".." + "/.." == "../..";
    NormPathTwoDotDots();
    NormPathDotDot();
    assert "../.."[..2] == "..";
  }

  // ---------------------------------------------------------------------
  // expanduser
  // ---------------------------------------------------------------------

  /** `path.find("/", from)`, or `|path|` when there is none. */
  function FindSlash(path: string, from: nat): (i: nat)
    requires from <= |path|
    ensures from <= i <= |path|
    ensures i < |path| ==> path[i] == '/'
    ensures forall j :: from <= j < i ==> path[j] != '/'
    decreases |path| - from
  {
    if from == |path| || path[from] == '/' then from else FindSlash(path, from + 1)
  }

  /** `s.rstrip("/")`. */
  function RStripSlash(s: string): (r: string)
    ensures r <= s && (|r| > 0 ==> r[|r| - 1] != '/')
    ensures forall j :: |r| <= j < |s| ==> s[j] == '/'
  {
    if |s| > 0 && s[|s| - 1] == '/' then RStripSlash(s[..|s| - 1]) else s
  }

  /** `os.path.expanduser(path)`: "~" is the user's home (`home`, from
      `$HOME`) and "~name" the home of user `name` (`lookup`, the password
      database); an unknown user leaves the path alone. */
  function ExpandUser(path: string, home: string, lookup: string -> Option<string>): (r: string)
    ensures !StartsWith(path, "~") ==> r == path
  {
    if !StartsWith(path, "~") then path
    else
      var i := FindSlash(path, 1);
      var userhome := if i == 1 then Some(home) else lookup(path[1..i]);
      match userhome
      case None => path
      case Some(h) =>
        var r := RStripSlash(h) + path[i..];
        if r == "" then "/" else r
  }

  /** "~/rest" is the home directory, without its trailing slashes,
      followed by "/rest". */
  lemma ExpandHome(rest: string, home: string, lookup: string -> Option<string>)
    ensures ExpandUser("~/" + rest, home, lookup) == RStripSlash(home) + "/" + rest
  {
    var p := "~/" + rest;
    assert p[..1] == "~";
    assert p[1] == '/';
    assert FindSlash(p, 1) == 1;
    assert p[1..] == "/" + rest;
  }

  /** The path a file button opens: a "./" path is taken relative to the
      explorer's directory, then normalised, then the "~" is expanded. */
  function ResolveFilePath(path: string, mainPath: string, home: string, lookup: string -> Option<string>): string {
    var joined := if StartsWith(path, "./") then mainPath + path[1..] else path;
    ExpandUser(NormPath(joined), home, lookup)
  }

  lemma SplitTildeDotDotX()
    ensures Split("~/../x", "/") == ["~", "..", "x"]
  {
    var t, d, x := "~", "..", "x";
    assert '/' !in t && '/' !in d && '/' !in x;
    SplitCharAbsent(x, '/');
    SplitCharFirst(d, '/', x);
    SplitCharFirst(t, '/', d + "/" + x);
    assert t + "/" + (d + "/" + x) == "~/../x";
  }

  lemma FoldTildeDotDotX()
    ensures FoldComps([], ["~", "..", "x"], false) == ["x"]
  {
    var t, d, x := "~", "..", "x";
    assert StepComp([], t, false) == [t];
    assert [t, d, x][1..] == [d, x];
    assert FoldComps([], [t, d, x], false) == FoldComps([t], [d, x], false);
    assert StepComp([t], d, false) == [];
    assert [d, x][1..] == [x];
    assert FoldComps([t], [d, x], false) == FoldComps([], [x], false);
    assert StepComp([], x, false) == [x];
    assert [x][1..] == [];
    assert FoldComps([], [x], false) == FoldComps([x], [], false);
  }

  lemma NormPathTildeDotDotX()
    ensures NormPath("~/../x") == "x"
  {
    var p := "~/../x";
    SplitTildeDotDotX();
    assert InitialSlashes(p) == 0 by { assert p[0] == '~'; }
    FoldTildeDotDotX();
    assert Join(["x"], "/") == "x";
  }

  /** Normalising before expanding lets ".." cancel the "~" itself:
      "~/../x" opens "x" in the current directory, not next to the home
      directory. */
  lemma ResolveCancelsTilde(mainPath: string, home: string, lookup: string -> Option<string>)
    ensures ResolveFilePath("~/../x", mainPath, home, lookup) == "x"
  {
    assert !StartsWith("~/../x", "./") by { assert "~/../x"[0] == '~'; }
    NormPathTildeDotDotX();
    assert !StartsWith("x", "~");
  }
}
