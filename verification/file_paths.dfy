/** The pure path-string operations of the `File` class: Unix/local path
    normalisation, relative paths, the name without its suffix, building a
    path from parts and the `file://` URI. The host separator `Path.sep` is a
    parameter. */
module FilePaths {
  import opened Wrappers
  import opened Text

  /** Node's `Path.sep`: '/' on POSIX hosts, '\' on Windows hosts. */
  datatype Sep = Slash | Backslash

  function SepChar(sep: Sep): char
  {
    if sep == Slash then '/' else '\\'
  }

  predicate NotEndingWith(s: string, c: char)
  {
    |s| == 0 || s[|s| - 1] != c
  }

  predicate NotStartingWith(s: string, c: char)
  {
    |s| == 0 || s[0] != c
  }

  // ---------------------------------------------------------------------
  // ToUnixPath, first step: `path.replace(/\\{1,}/g, '/')`
  // ---------------------------------------------------------------------

  /** `s` without its leading characters `c`: no longer than `s`, and if
      anything is left it ends the way `s` ends. */
  function SkipRun(s: string, c: char): (r: string)
    ensures |r| <= |s|
    ensures |r| > 0 ==> r[|r| - 1] == s[|s| - 1]
    ensures NotStartingWith(r, c)
  {
    if |s| > 0 && s[0] == c then SkipRun(s[1..], c) else s
  }

  /** Each maximal run of backslashes becomes one '/', scanning left to right
      the way the global regular expression does. */
  function CollapseBackslashes(s: string): (r: string)
    ensures '\\' !in r
    decreases |s|
  {
    if |s| == 0 then ""
    else if s[0] == '\\' then "/" + CollapseBackslashes(SkipRun(s[1..], '\\'))
    else [s[0]] + CollapseBackslashes(s[1..])
  }

  lemma {:induction false} SkipRunAppend(s: string, y: string, c: char)
    requires |s| > 0 && NotEndingWith(s, c)
    ensures SkipRun(s + y, c) == SkipRun(s, c) + y
  {
    if s[0] == c {
      assert |s| > 1;
      assert (s + y)[1..] == s[1..] + y;
      SkipRunAppend(s[1..], y, c);
    }
  }

  lemma {:induction false} SkipRunRep(n: nat, y: string, c: char)
    requires NotStartingWith(y, c)
    ensures SkipRun(Rep(c, n) + y, c) == y
  {
    if n > 0 {
      var t := Rep(c, n - 1) + y;
      var s := Rep(c, n) + y;
      assert Rep(c, n) == [c] + Rep(c, n - 1);
      assert s == [c] + t;
      assert s[1..] == t;
      SkipRunRep(n - 1, y, c);
    } else {
      assert Rep(c, n) + y == y;
    }
  }

  /** A string without backslashes is left as it is. */
  lemma {:induction false} CollapseFree(s: string)
    requires '\\' !in s
    ensures CollapseBackslashes(s) == s
  {
    if |s| > 0 {
      assert s[0] in s;
      assert forall ch :: ch in s[1..] ==> ch in s;
      CollapseFree(s[1..]);
    }
  }

  /** Collapsing distributes over a cut that does not split a backslash run. */
  lemma {:induction false} CollapseAppend(x: string, y: string)
    requires NotEndingWith(x, '\\')
    ensures CollapseBackslashes(x + y) == CollapseBackslashes(x) + CollapseBackslashes(y)
    decreases |x|
  {
    if |x| == 0 {
      assert x + y == y;
    } else if x[0] == '\\' {
      assert (x + y)[1..] == x[1..] + y;
      SkipRunAppend(x[1..], y, '\\');
      var z := SkipRun(x[1..], '\\');
      assert NotEndingWith(z, '\\');
      CollapseAppend(z, y);
    } else {
      assert (x + y)[1..] == x[1..] + y;
      CollapseAppend(x[1..], y);
    }
  }

  lemma CollapseRep(n: nat, y: string)
    requires n >= 1 && NotStartingWith(y, '\\')
    ensures CollapseBackslashes(Rep('\\', n) + y) == "/" + CollapseBackslashes(y)
  {
    var s := Rep('\\', n) + y;
    assert s[0] == '\\';
    assert s[1..] == Rep('\\', n - 1) + y;
    SkipRunRep(n - 1, y, '\\');
  }

  /** Every maximal run of one or more backslashes becomes exactly one '/',
      and the text on either side is collapsed on its own. */
  lemma CollapseRun(x: string, n: nat, y: string)
    requires NotEndingWith(x, '\\') && n >= 1 && NotStartingWith(y, '\\')
    ensures CollapseBackslashes(x + Rep('\\', n) + y)
         == CollapseBackslashes(x) + "/" + CollapseBackslashes(y)
  {
    var run := Rep('\\', n);
    AppendAssoc(x, run, y);
    CollapseAppend(x, run + y);
    CollapseRep(n, y);
    AppendAssoc(CollapseBackslashes(x), "/", CollapseBackslashes(y));
  }

  // ---------------------------------------------------------------------
  // ToUnixPath, second step: DelRepeatedPath
  // ---------------------------------------------------------------------

  predicate DotSlashAt(s: string, i: int)
  {
    0 <= i && i + 1 < |s| && s[i] == '.' && s[i + 1] == '/'
  }

  /** `s.replace(/(?:\.\/){1,}/g, '')`: every occurrence of "./" in `s` is
      deleted, scanning left to right. */
  function DropDotSlash(s: string): string
    decreases |s|
  {
    if DotSlashAt(s, 0) then DropDotSlash(s[2..])
    else if |s| == 0 then ""
    else [s[0]] + DropDotSlash(s[1..])
  }

  /** Deleting "./" only ever removes characters. */
  lemma {:induction false} DropDotSlashChars(s: string)
    ensures multiset(DropDotSlash(s)) <= multiset(s)
    decreases |s|
  {
    if DotSlashAt(s, 0) {
      DropDotSlashChars(s[2..]);
      assert s == s[..2] + s[2..];
    } else if |s| > 0 {
      DropDotSlashChars(s[1..]);
      assert s == [s[0]] + s[1..];
    }
  }

  /** A string with no "./" is left as it is. */
  lemma {:induction false} DropDotSlashFree(s: string)
    requires forall i :: 0 <= i < |s| ==> !DotSlashAt(s, i)
    ensures DropDotSlash(s) == s
  {
    if |s| > 0 {
      var t := s[1..];
      forall i | 0 <= i < |t|
        ensures !DotSlashAt(t, i)
      {
        assert !DotSlashAt(s, i + 1);
      }
      DropDotSlashFree(t);
      assert !DotSlashAt(s, 0);
      DropDotSlashHead(s);
      assert s == [s[0]] + t;
    }
  }

  /** Unfolding DropDotSlash one step where no "./" starts. */
  lemma DropDotSlashHead(s: string)
    requires |s| > 0 && !DotSlashAt(s, 0)
    ensures DropDotSlash(s) == [s[0]] + DropDotSlash(s[1..])
  {
  }

  /** Unfolding DropDotSlash one step where a "./" starts. */
  lemma DropDotSlashSkip(s: string)
    requires DotSlashAt(s, 0)
    ensures DropDotSlash(s) == DropDotSlash(s[2..])
  {
  }

  /** Every "./" is deleted wherever it stands: the scan can never step over
      one, because a '/' cannot start another "./". */
  lemma {:induction false} DropDotSlashSplice(x: string, y: string)
    ensures DropDotSlash(x + "./" + y) == DropDotSlash(x) + DropDotSlash(y)
    decreases |x|
  {
    var ds := "./";
    var s := x + ds + y;
    AppendAssoc(x, ds, y);
    if |x| == 0 {
      assert s == ds + y;
      assert DotSlashAt(s, 0);
      DropDotSlashSkip(s);
      SliceAppend(ds, y, 2);
      assert DropDotSlash(x) == "";
    } else if DotSlashAt(x, 0) {
      assert DotSlashAt(s, 0) by { assert s[0] == x[0] && s[1] == x[1]; }
      DropDotSlashSkip(s);
      DropDotSlashSkip(x);
      SliceAppend(x, ds + y, 2);
      AppendAssoc(x[2..], ds, y);
      DropDotSlashSplice(x[2..], y);
    } else {
      assert s[0] == x[0];
      assert !DotSlashAt(s, 0) by {
        if |x| == 1 {
          assert s[1] == '.';
        } else {
          assert s[1] == x[1];
        }
      }
      DropDotSlashHead(s);
      DropDotSlashHead(x);
      SliceAppend(x, ds + y, 1);
      AppendAssoc(x[1..], ds, y);
      DropDotSlashSplice(x[1..], y);
      AppendAssoc([x[0]], DropDotSlash(x[1..]), DropDotSlash(y));
    }
  }

  /** `path.replace(/^\.\//g, '#')`: a leading "./" becomes a '#' placeholder. */
  function MarkLeadingDotSlash(s: string): string
  {
    if StartsWith(s, "./") then "#" + s[2..] else s
  }

  /** `s.replace(/^#/, './')`: a leading '#' becomes "./". */
  function RestoreMark(s: string): string
  {
    if |s| > 0 && s[0] == '#' then "./" + s[1..] else s
  }

  /** File.DelRepeatedPath: delete every "./" but keep one leading "./". */
  function DelRepeatedPath(path: string): string
  {
    RestoreMark(DropDotSlash(MarkLeadingDotSlash(path)))
  }

  /** What the '#' placeholder achieves: a leading "./" survives once, a
      leading '#' of the input also turns into "./", and otherwise every "./"
      is deleted. */
  lemma DelRepeatedPathShape(path: string)
    ensures StartsWith(path, "./") ==> DelRepeatedPath(path) == "./" + DropDotSlash(path[2..])
    ensures !StartsWith(path, "./") && StartsWith(path, "#")
            ==> DelRepeatedPath(path) == "./" + DropDotSlash(path[1..])
    ensures !StartsWith(path, "./") && !StartsWith(path, "#")
            ==> DelRepeatedPath(path) == DropDotSlash(path)
  {
    if StartsWith(path, "./") {
      var marked := "#" + path[2..];
      DropDotSlashHead(marked);
      assert marked[1..] == path[2..];
    } else if StartsWith(path, "#") {
      DropDotSlashHead(path);
    } else if |path| > 0 {
      assert !DotSlashAt(path, 0);
      DropDotSlashHead(path);
    }
  }

  /** File.ToUnixPath: backslash runs become '/', then DelRepeatedPath. The
      result never contains a backslash. */
  function ToUnixPath(path: string): (r: string)
    ensures '\\' !in r
  {
    var collapsed := CollapseBackslashes(path);
    DelRepeatedPathShape(collapsed);
    assert forall k :: 0 <= k <= |collapsed| ==> '\\' !in collapsed[k..] by {
      forall k | 0 <= k <= |collapsed|
        ensures '\\' !in collapsed[k..]
      {
        assert forall ch :: ch in collapsed[k..] ==> ch in collapsed;
      }
    }
    assert forall k :: 0 <= k <= |collapsed| ==> '\\' !in DropDotSlash(collapsed[k..]) by {
      forall k | 0 <= k <= |collapsed|
        ensures '\\' !in DropDotSlash(collapsed[k..])
      {
        DropDotSlashChars(collapsed[k..]);
        assert multiset(collapsed[k..])['\\'] == 0;
      }
    }
    DelRepeatedPath(collapsed)
  }

  predicate NoDotSlash(s: string)
  {
    forall i :: 0 <= i < |s| ==> !DotSlashAt(s, i)
  }

  lemma DropDotSlashLead(y: string)
    ensures DropDotSlash("./" + y) == DropDotSlash(y)
  {
    DropDotSlashSplice("", y);
    assert "" + "./" + y == "./" + y;
  }

  /** Two strings without "./" stay free of it when glued, unless a '.' ends
      the first and a '/' starts the second. */
  lemma NoDotSlashConcat(x: string, y: string)
    requires NoDotSlash(x) && NoDotSlash(y)
    requires NotEndingWith(x, '.') || NotStartingWith(y, '/')
    ensures NoDotSlash(x + y)
  {
    var s := x + y;
    forall i | 0 <= i < |s|
      ensures !DotSlashAt(s, i)
    {
      if i + 1 < |x| {
        assert DotSlashAt(s, i) == DotSlashAt(x, i);
      } else if i >= |x| {
        assert DotSlashAt(s, i) == DotSlashAt(y, i - |x|);
      }
    }
  }

  /** `n` copies of "./". */
  function DotSlashes(n: nat): (r: string)
    ensures |r| == 2 * n
  {
    if n == 0 then "" else "./" + DotSlashes(n - 1)
  }

  /** Any number of leading "./" vanish under DropDotSlash. */
  lemma {:induction false} DropDotSlashesLead(n: nat, z: string)
    ensures DropDotSlash(DotSlashes(n) + z) == DropDotSlash(z)
  {
    if n > 0 {
      AppendAssoc("./", DotSlashes(n - 1), z);
      DropDotSlashLead(DotSlashes(n - 1) + z);
      DropDotSlashesLead(n - 1, z);
    } else {
      assert DotSlashes(n) + z == z;
    }
  }

  /** DelRepeatedPath on a path that starts with "./", when the rest
      drops to the same text as `z`. */
  lemma DelRepeatedPathDotLeadAs(q: string, z: string)
    requires DropDotSlash(q) == DropDotSlash(z)
    ensures DelRepeatedPath("./" + q) == "./" + DropDotSlash(z)
  {
    DelRepeatedPathDotLead(q);
  }

  /** DelRepeatedPath on a path that starts with "./". */
  lemma DelRepeatedPathDotLead(q: string)
    ensures DelRepeatedPath("./" + q) == "./" + DropDotSlash(q)
  {
    var ds := "./";
    var p := ds + q;
    assert StartsWith(p, "./") by { assert p[..2] == ds; }
    DelRepeatedPathShape(p);
    assert p[2..] == q;
  }

  /** A path that starts with "./" keeps one "./" and loses all the
      others that follow it. */
  lemma DelRepeatedPathLeading(k: nat, z: string)
    ensures DelRepeatedPath("./" + (DotSlashes(k) + z)) == "./" + DropDotSlash(z)
  {
    DropDotSlashesLead(k, z);
    DelRepeatedPathDotLeadAs(DotSlashes(k) + z, z);
  }

  /** A run of "./" between two segments without "./" vanishes. */
  lemma DropDotSlashesBetween(a: string, m: nat, b: string)
    requires m >= 1
    requires NoDotSlash(a) && NoDotSlash(b)
    ensures DropDotSlash(a + DotSlashes(m) + b) == a + b
  {
    var ds := "./";
    var after := DotSlashes(m - 1) + b;
    AppendAssoc(a, DotSlashes(m), b);
    AppendAssoc(ds, DotSlashes(m - 1), b);
    assert a + DotSlashes(m) + b == a + ds + after;
    DropDotSlashSplice(a, after);
    DropDotSlashesLead(m - 1, b);
    DropDotSlashFree(a);
    DropDotSlashFree(b);
  }

  /** The worked example of the source comment on DelRepeatedPath,
      "./././aaaa/././././bbbb" => "./aaaa/bbbb", for any number of "./"
      around any two segments without "./": the leading "./" stays, all
      the others go. */
  lemma DelRepeatedPathExample(k: nat, m: nat, a: string, b: string)
    requires m >= 1
    requires NoDotSlash(a) && NoDotSlash(b)
    ensures DelRepeatedPath("./" + DotSlashes(k) + a + DotSlashes(m) + b) == "./" + a + b
  {
    var rest := a + DotSlashes(m) + b;
    PathRegroup("./", DotSlashes(k), a, DotSlashes(m), b);
    DelRepeatedPathLeading(k, rest);
    DropDotSlashesBetween(a, m, b);
    AppendAssoc("./", a, b);
  }

  lemma PathRegroup(s1: string, s2: string, s3: string, s4: string, s5: string)
    ensures s1 + s2 + s3 + s4 + s5 == s1 + (s2 + (s3 + s4 + s5))
  {
    AppendAssoc(s1 + s2, s3, s4);
    AppendAssoc(s1 + s2, s3 + s4, s5);
    AppendAssoc(s1, s2, s3 + s4 + s5);
  }

  /** ToUnixPath is not idempotent: "x..//y" becomes "x./y", which a second
      pass turns into "xy". */
  lemma ToUnixPathNotIdempotent(x: char, y: char)
    requires x != '.' && x != '\\' && x != '#' && y != '\\'
    ensures ToUnixPath([x, '.', '.', '/', '/', y]) == [x, '.', '/', y]
    ensures ToUnixPath([x, '.', '/', y]) == [x, y]
  {
    DoubleDotUnix(x, y);
    SingleDotUnix(x, y);
  }

  lemma DoubleDotUnix(x: char, y: char)
    requires x != '.' && x != '\\' && x != '#' && y != '\\'
    ensures ToUnixPath([x, '.', '.', '/', '/', y]) == [x, '.', '/', y]
  {
    var s := [x, '.', '.', '/', '/', y];
    ToUnixPathFree(s);
    DelRepeatedUnmarked([x, '.'], ['/', y]);
    assert [x, '.'] + "./" + ['/', y] == s;
    assert [x, '.'] + ['/', y] == [x, '.', '/', y];
  }

  lemma SingleDotUnix(x: char, y: char)
    requires x != '.' && x != '\\' && x != '#' && y != '\\'
    ensures ToUnixPath([x, '.', '/', y]) == [x, y]
  {
    var t := [x, '.', '/', y];
    ToUnixPathFree(t);
    DelRepeatedUnmarked([x], [y]);
    assert [x] + "./" + [y] == t;
  }

  /** On a string without backslashes ToUnixPath is just DelRepeatedPath. */
  lemma ToUnixPathFree(s: string)
    requires '\\' !in s
    ensures ToUnixPath(s) == DelRepeatedPath(s)
  {
    CollapseFree(s);
  }

  /** A leading '#' is taken for the placeholder and comes out as "./",
      whatever follows it; a tail already in Unix form without "./" is kept
      as it is. */
  lemma ToUnixPathLeadingHash(a: string)
    ensures ToUnixPath("#" + a) == "./" + DropDotSlash(CollapseBackslashes(a))
    ensures StartsWith(ToUnixPath("#" + a), "./")
    ensures '\\' !in a && NoDotSlash(a) ==> ToUnixPath("#" + a) == "./" + a
  {
    var s := "#" + a;
    CollapseHead(s);
    assert s[1..] == a;
    var c := CollapseBackslashes(a);
    assert CollapseBackslashes(s) == "#" + c;
    DelRepeatedPathHashLead(c);
    var r := ToUnixPath(s);
    assert r[..2] == "./";
    if '\\' !in a && NoDotSlash(a) {
      CollapseFree(a);
      DropDotSlashFree(a);
    }
  }

  lemma DelRepeatedPathHashLead(q: string)
    ensures DelRepeatedPath("#" + q) == "./" + DropDotSlash(q)
  {
    var p := "#" + q;
    assert !StartsWith(p, "./") by { assert p[0] == '#'; }
    assert StartsWith(p, "#") by { assert p[..1] == "#"; }
    DelRepeatedPathShape(p);
    assert p[1..] == q;
  }

  /** The "./" inside a leading "../" is deleted like any other. */
  lemma ToUnixPathParentDir(a: string)
    requires '\\' !in a && NoDotSlash(a)
    ensures ToUnixPath("../" + a) == "." + a
  {
    var s := "../" + a;
    assert '\\' !in s by { assert forall i :: 3 <= i < |s| ==> s[i] == a[i - 3]; }
    ToUnixPathFree(s);
    DelRepeatedPathParent(a);
    DropDotSlashFree(a);
  }

  lemma DelRepeatedPathParent(q: string)
    ensures DelRepeatedPath("../" + q) == "." + DropDotSlash(q)
  {
    var p := "../" + q;
    var dot, ds := ".", "./";
    assert "../" == dot + ds;
    AppendAssoc(dot, ds, q);
    DelRepeatedPathNoMark(p);
    DropDotSlashSplice(dot, q);
    DropDotSlashFree(dot);
  }

  lemma DelRepeatedPathNoMark(p: string)
    requires |p| >= 2 && p[0] == '.' && p[1] == '.'
    ensures DelRepeatedPath(p) == DropDotSlash(p)
  {
    assert p[..2] != "./" by { assert p[..2][1] == '.'; }
    assert p[..1] != "#" by { assert p[..1][0] == '.'; }
    DelRepeatedPathShape(p);
  }

  // ---------------------------------------------------------------------
  // ToLocalPath
  // ---------------------------------------------------------------------

  /** File.ToLocalPath: the Unix form, with every '/' turned into '\' when the
      host separator is '\'. */
  function ToLocalPath(path: string, sep: Sep): (r: string)
    ensures sep == Backslash ==> '/' !in r && ReplaceChar(r, '\\', '/') == ToUnixPath(path)
    ensures sep == Slash ==> r == ToUnixPath(path)
  {
    var res := ToUnixPath(path);
    if sep == Backslash then
      var local := ReplaceChar(res, '/', '\\');
      assert '/' !in local by {
        forall i | 0 <= i < |local|
          ensures local[i] != '/'
        {
        }
      }
      ReplaceCharRoundTrip(res, '/', '\\');
      local
    else
      res
  }

  // ---------------------------------------------------------------------
  // ToRelativePath
  // ---------------------------------------------------------------------

  /** The characters JavaScript's `\s` matches. */
  predicate IsJsSpace(c: char)
  {
    || c == ' ' || c == '\t' || c == '\n' || c == '\U{B}' || c == '\U{C}' || c == '\r'
    || c == '\U{A0}' || c == '\U{1680}' || ('\U{2000}' <= c <= '\U{200A}')
    || c == '\U{2028}' || c == '\U{2029}' || c == '\U{202F}' || c == '\U{205F}'
    || c == '\U{3000}' || c == '\U{FEFF}'
  }

  /** Where the run of trailing white space of `s` begins. */
  function SpaceTailStart(s: string): (k: nat)
    ensures k <= |s|
    ensures forall j :: k <= j < |s| ==> IsJsSpace(s[j])
    ensures k == 0 || !IsJsSpace(s[k - 1])
  {
    if |s| == 0 then 0
    else if IsJsSpace(s[|s| - 1]) then SpaceTailStart(s[..|s| - 1])
    else |s|
  }

  /** The regular expression `\/\s*$` matches `s` at position `i`. */
  predicate SlashSpaceTailAt(s: string, i: int)
  {
    0 <= i < |s| && s[i] == '/' && forall j :: i < j < |s| ==> IsJsSpace(s[j])
  }

  /** `s.replace(/\/\s*$/, '')`: cut at the match of `\/\s*$` if there is one. */
  function StripTrailingSlash(s: string): (r: string)
    ensures StartsWith(s, r)
    ensures forall i :: SlashSpaceTailAt(s, i) ==> r == s[..i]
    ensures (forall i :: 0 <= i < |s| ==> !SlashSpaceTailAt(s, i)) ==> r == s
  {
    var k := SpaceTailStart(s);
    assert forall i :: SlashSpaceTailAt(s, i) ==> i == k - 1;
    if k > 0 && s[k - 1] == '/' then
      assert SlashSpaceTailAt(s, k - 1);
      s[..k - 1]
    else
      s
  }

  /** The root a File compares other paths against in ToRelativePath: the
      Unix form of its path with a trailing '/' and white space cut, so a
      prefix of that Unix form. */
  function RelativeRoot(basePath: string): (r: string)
    ensures StartsWith(ToUnixPath(basePath), r)
  {
    StripTrailingSlash(ToUnixPath(basePath))
  }

  /** File.ToRelativePath, with `basePath` the File's own path: defined
      exactly when the root is a proper prefix of the Unix form of `path`,
      and then it is '.' followed by what comes after the root. */
  function ToRelativePath(basePath: string, path: string): (r: Option<string>)
    ensures r.Some? <==> |RelativeRoot(basePath)| < |ToUnixPath(path)|
                         && StartsWith(ToUnixPath(path), RelativeRoot(basePath))
    ensures r.Some? ==> |r.value| >= 2 && r.value[0] == '.'
                        && RelativeRoot(basePath) + r.value[1..] == ToUnixPath(path)
  {
    var root := RelativeRoot(basePath);
    var abspath := ToUnixPath(path);
    if |root| >= |abspath| then None
    else if StartsWith(abspath, root) then
      var r := "." + abspath[|root|..];
      assert r[1..] == abspath[|root|..];
      assert root + r[1..] == abspath by {
        assert abspath == abspath[..|root|] + abspath[|root|..];
      }
      Some(r)
    else None
  }

  /** A directory name with no backslash, '.' or '#'. */
  predicate PlainDir(dir: string)
  {
    '\\' !in dir && '.' !in dir && '#' !in dir
  }

  lemma PlainDirFacts(dir: string)
    requires PlainDir(dir)
    ensures NoDotSlash(dir) && NotEndingWith(dir, '.') && NotEndingWith(dir, '\\')
    ensures NoDotSlash(dir + "/")
    ensures CollapseBackslashes(dir) == dir
  {
    if |dir| > 0 {
      assert dir[|dir| - 1] in dir;
    }
    forall i | 0 <= i < |dir|
      ensures !DotSlashAt(dir, i)
    {
      assert dir[i] in dir;
    }
    NoDotSlashConcat(dir, "/");
    CollapseFree(dir);
  }

  /** A Unix-form string without "./" that starts with neither '.' nor '#'
      is its own ToUnixPath. */
  lemma UnixFixedPoint(s: string)
    requires '\\' !in s && NoDotSlash(s) && NotStartingWith(s, '.') && NotStartingWith(s, '#')
    ensures DelRepeatedPath(s) == s
    ensures ToUnixPath(s) == s
  {
    CollapseFree(s);
    DelRepeatedPathShape(s);
    DropDotSlashFree(s);
  }

  lemma PlainDirStart(dir: string, t: string)
    requires PlainDir(dir) && NotStartingWith(t, '.') && NotStartingWith(t, '#')
    ensures NotStartingWith(dir + t, '.') && NotStartingWith(dir + t, '#')
  {
    if |dir| > 0 {
      assert dir[0] in dir;
      assert (dir + t)[0] == dir[0];
    } else {
      assert dir + t == t;
    }
  }

  /** A Windows-style directory path: no '.' or '#', and no backslash at
      its end; its separators may be single backslashes or runs of them. */
  predicate DirPath(dir: string)
  {
    '.' !in dir && '#' !in dir && NotEndingWith(dir, '\\')
  }

  lemma {:induction false} SkipRunKeeps(s: string, c: char, x: char)
    requires x !in s
    ensures x !in SkipRun(s, c)
  {
    if |s| > 0 && s[0] == c {
      assert forall ch :: ch in s[1..] ==> ch in s;
      SkipRunKeeps(s[1..], c, x);
    }
  }

  /** Collapsing brings in no character other than '/'. */
  lemma {:induction false} CollapseKeeps(s: string, x: char)
    requires x != '/' && x !in s
    ensures x !in CollapseBackslashes(s)
    decreases |s|
  {
    if |s| > 0 {
      assert forall ch :: ch in s[1..] ==> ch in s;
      if s[0] == '\\' {
        SkipRunKeeps(s[1..], '\\', x);
        CollapseKeeps(SkipRun(s[1..], '\\'), x);
      } else {
        CollapseKeeps(s[1..], x);
      }
    }
  }

  /** The Unix form of a directory path is a plain directory name. */
  lemma DirPathUnix(dir: string)
    requires DirPath(dir)
    ensures PlainDir(CollapseBackslashes(dir))
  {
    CollapseKeeps(dir, '.');
    CollapseKeeps(dir, '#');
  }

  /** The Unix form of the base 'dir\.' and its root: the collapsed directory
      followed by "/.". */
  lemma DotRootUnix(dir: string)
    requires DirPath(dir)
    ensures ToUnixPath(dir + "\\.") == CollapseBackslashes(dir) + "/."
    ensures RelativeRoot(dir + "\\.") == CollapseBackslashes(dir) + "/."
  {
    var udir := CollapseBackslashes(dir);
    DirPathUnix(dir);
    PlainDirFacts(udir);
    assert dir + "\\." == dir + Rep('\\', 1) + ".";
    CollapseRun(dir, 1, ".");
    CollapseFree(".");
    var root := udir + "/.";
    assert udir + "/" + "." == root;
    assert CollapseBackslashes(dir + "\\.") == root;
    NoDotSlashConcat(udir, "/.");
    PlainDirStart(udir, "/.");
    assert '\\' !in root;
    UnixFixedPoint(root);
    assert !IsJsSpace(root[|root| - 1]);
    assert forall i :: 0 <= i < |root| ==> !SlashSpaceTailAt(root, i);
  }

  lemma CollapseHead(s: string)
    requires |s| > 0 && s[0] != '\\'
    ensures CollapseBackslashes(s) == [s[0]] + CollapseBackslashes(s[1..])
  {
  }

  /** '.\rest' collapses to "./" and the collapsed rest. */
  lemma DotTailCollapse(rest: string)
    requires NotStartingWith(rest, '\\')
    ensures CollapseBackslashes(['.', '\\'] + rest) == ['.', '/'] + CollapseBackslashes(rest)
  {
    var bsRest := ['\\'] + rest;
    var tail := ['.'] + bsRest;
    AppendAssoc(['.'], ['\\'], rest);
    assert ['.', '\\'] == ['.'] + ['\\'];
    CollapseHead(tail);
    assert tail[1..] == bsRest;
    assert Rep('\\', 1) == ['\\'];
    CollapseRep(1, rest);
    AppendAssoc(['.'], ['/'], CollapseBackslashes(rest));
    assert ['.', '/'] == ['.'] + ['/'];
  }

  lemma DotPathCollapse(dir: string, rest: string)
    requires DirPath(dir)
    requires NotStartingWith(rest, '\\')
    ensures CollapseBackslashes(dir + "\\.\\" + rest)
         == (CollapseBackslashes(dir) + "/") + "./" + CollapseBackslashes(rest)
  {
    var tail := ['.', '\\'] + rest;
    DotPathShape(dir, rest);
    CollapseRun(dir, 1, tail);
    DotTailCollapse(rest);
    DotPathRegroup(CollapseBackslashes(dir), CollapseBackslashes(rest));
  }

  lemma DotPathShape(dir: string, rest: string)
    ensures dir + "\\.\\" + rest == dir + Rep('\\', 1) + (['.', '\\'] + rest)
  {
    var one := Rep('\\', 1);
    var tail := ['.', '\\'] + rest;
    assert one == "\\";
    assert "\\.\\" + rest == one + tail;
    AppendAssoc(dir, "\\.\\", rest);
    AppendAssoc(dir, one, tail);
  }

  lemma DotPathRegroup(dir: string, rest: string)
    ensures dir + "/" + (['.', '/'] + rest) == (dir + "/") + "./" + rest
  {
    assert ['.', '/'] == "./";
    AppendAssoc(dir + "/", "./", rest);
  }

  /** The Unix form of the path 'dir\.\rest': the "./" goes away. */
  lemma DotPathUnix(dir: string, rest: string)
    requires DirPath(dir)
    requires NotStartingWith(rest, '\\') && NoDotSlash(CollapseBackslashes(rest))
    ensures ToUnixPath(dir + "\\.\\" + rest) == CollapseBackslashes(dir) + "/" + CollapseBackslashes(rest)
  {
    var udir := CollapseBackslashes(dir);
    DirPathUnix(dir);
    PlainDirFacts(udir);
    DotPathCollapse(dir, rest);
    var head := udir + "/";
    if |udir| > 0 {
      assert udir[0] in udir;
    }
    assert head[0] != '.' && head[0] != '#';
    DelRepeatedUnmarked(head, CollapseBackslashes(rest));
  }

  /** Below a directory prefix, DelRepeatedPath just deletes the "./". */
  lemma DelRepeatedUnmarked(head: string, rest: string)
    requires NoDotSlash(head) && NoDotSlash(rest)
    requires |head| > 0 && head[0] != '.' && head[0] != '#'
    ensures DelRepeatedPath(head + "./" + rest) == head + rest
  {
    var unix := head + "./" + rest;
    assert unix[0] == head[0];
    assert !StartsWith(unix, "./") by { assert unix[0] != '.'; }
    assert !StartsWith(unix, "#") by { assert unix[0] != '#'; }
    DelRepeatedPathShape(unix);
    DropDotSlashSplice(head, rest);
    DropDotSlashFree(head);
    DropDotSlashFree(rest);
  }

  /** The doc comment on ToRelativePath promises './def/a.c' for the base
      'd:\app\abc\.' and the path 'd:\app\abc\.\def\a.c'; the code gives
      undefined for every base 'dir\.' and path 'dir\.\rest' of that shape:
      the "./" in the path is deleted, so the root ending in "/." is no
      prefix of it. */
  lemma ToRelativePathDotRoot(dir: string, rest: string)
    requires DirPath(dir)
    requires NotStartingWith(rest, '\\') && NotStartingWith(rest, '.')
    requires NoDotSlash(CollapseBackslashes(rest))
    ensures ToRelativePath(dir + "\\.", dir + "\\.\\" + rest) == None
  {
    DotRootUnix(dir);
    DotPathUnix(dir, rest);
    var udir := CollapseBackslashes(dir);
    var urest := CollapseBackslashes(rest);
    var root := udir + "/.";
    var abspath := udir + "/" + urest;
    if |root| < |abspath| {
      CollapseHead(rest);
      assert abspath[|udir| + 1] == urest[0] == rest[0];
      assert abspath[|udir| + 1] != root[|udir| + 1];
      assert !StartsWith(abspath, root);
    }
  }

  /** The doc comment's own example. */
  lemma ToRelativePathCommentExample()
    ensures ToRelativePath("d:\\app\\abc\\.", "d:\\app\\abc\\.\\def\\a.c") == None
  {
    var dir, rest := "d:\\app\\abc", "def\\a.c";
    CommentExampleDir();
    CommentExampleRest();
    ToRelativePathDotRoot(dir, rest);
    CommentExampleShape();
  }

  lemma CommentExampleDir()
    ensures DirPath("d:\\app\\abc")
  {
  }

  lemma CommentExampleShape()
    ensures "d:\\app\\abc" + "\\." == "d:\\app\\abc\\."
    ensures "d:\\app\\abc" + "\\.\\" + "def\\a.c" == "d:\\app\\abc\\.\\def\\a.c"
  {
  }

  lemma CommentExampleRest()
    ensures CollapseBackslashes("def\\a.c") == "def/a.c"
    ensures NoDotSlash(CollapseBackslashes("def\\a.c"))
  {
    assert "def" + Rep('\\', 1) + "a.c" == "def\\a.c";
    CollapseRun("def", 1, "a.c");
    CollapseFree("def");
    CollapseFree("a.c");
    assert "def" + "/" + "a.c" == "def/a.c";
    var u := "def/a.c";
    forall i | 0 <= i < |u|
      ensures !DotSlashAt(u, i)
    {
    }
  }

  /** The root of the base 'dir\' is "dir": the trailing '/' is cut. */
  lemma SlashRootUnix(dir: string)
    requires PlainDir(dir)
    ensures RelativeRoot(dir + "\\") == dir
  {
    PlainDirFacts(dir);
    assert dir + "\\" == dir + Rep('\\', 1) + "";
    CollapseRun(dir, 1, "");
    assert CollapseBackslashes("") == "";
    var unixBase := dir + "/";
    assert dir + "/" + "" == unixBase;
    assert CollapseBackslashes(dir + "\\") == unixBase;
    PlainDirStart(dir, "/");
    assert '\\' !in unixBase;
    UnixFixedPoint(unixBase);
    assert SlashSpaceTailAt(unixBase, |dir|);
    assert unixBase[..|dir|] == dir;
  }

  /** The Unix form of the path 'dir\rest' is "dir/rest". */
  lemma SlashPathUnix(dir: string, rest: string)
    requires PlainDir(dir)
    requires '\\' !in rest && NoDotSlash(rest) && NotStartingWith(rest, '\\')
    ensures ToUnixPath(dir + "\\" + rest) == dir + "/" + rest
  {
    PlainDirFacts(dir);
    SlashPathShape(dir, rest);
    CollapseRun(dir, 1, rest);
    CollapseFree(rest);
    var unix := dir + "/" + rest;
    SlashPathUnixForm(dir, rest);
    UnixFixedPoint(unix);
  }

  lemma SlashPathShape(dir: string, rest: string)
    ensures dir + "\\" + rest == dir + Rep('\\', 1) + rest
  {
    assert Rep('\\', 1) == "\\";
  }

  /** "dir/rest" is already in Unix form. */
  lemma SlashPathUnixForm(dir: string, rest: string)
    requires PlainDir(dir)
    requires '\\' !in rest && NoDotSlash(rest)
    ensures '\\' !in dir + "/" + rest && NoDotSlash(dir + "/" + rest)
    ensures NotStartingWith(dir + "/" + rest, '.') && NotStartingWith(dir + "/" + rest, '#')
  {
    PlainDirFacts(dir);
    NoDotSlashConcat(dir + "/", rest);
    PlainDirStart(dir, "/" + rest);
    AppendAssoc(dir, "/", rest);
  }

  /** With a base ending in a separator the relative path is "./" and the
      rest of the path. */
  lemma ToRelativePathBelowDir(dir: string, rest: string)
    requires PlainDir(dir)
    requires '\\' !in rest && NoDotSlash(rest) && NotStartingWith(rest, '\\')
    ensures ToRelativePath(dir + "\\", dir + "\\" + rest) == Some("./" + rest)
  {
    SlashRootUnix(dir);
    SlashPathUnix(dir, rest);
    BelowDirShape(dir, rest);
  }

  lemma BelowDirShape(dir: string, rest: string)
    ensures |dir| < |dir + "/" + rest| && StartsWith(dir + "/" + rest, dir)
    ensures "." + (dir + "/" + rest)[|dir|..] == "./" + rest
  {
    var unix := dir + "/" + rest;
    assert unix[..|dir|] == dir;
    assert unix[|dir|..] == "/" + rest;
    assert "." + ("/" + rest) == "./" + rest;
  }

  // ---------------------------------------------------------------------
  // GetNoSuffixName and CreateFromArray
  // ---------------------------------------------------------------------

  /** File.GetNoSuffixName: split the name at '.', drop the last part and
      join the rest with '.'; a name without '.' is returned as it is. */
  function NoSuffixName(name: string): string
  {
    var parts := Split(name, '.');
    if |parts| > 1 then Join(parts[..|parts| - 1], ".") else name
  }

  /** The name without suffix is everything before the LAST '.'. */
  lemma NoSuffixNameSpec(name: string)
    ensures '.' !in name ==> NoSuffixName(name) == name
    ensures '.' in name ==> exists k :: 0 <= k < |name| && name[k] == '.' && '.' !in name[k + 1..]
                                        && NoSuffixName(name) == name[..k]
  {
    SplitCount(name, '.');
    var parts := Split(name, '.');
    if '.' in name {
      JoinSplit(name, '.');
      JoinLast(parts, ".");
      var last := parts[|parts| - 1];
      var front := Join(parts[..|parts| - 1], ".");
      assert name == front + "." + last;
      var k := |front|;
      assert name[k] == '.';
      assert name[k + 1..] == last;
      assert name[..k] == front;
    }
  }

  /** File.CreateFromArray: the path is the parts joined with the host
      separator. */
  function CreateFromArray(parts: seq<string>, sep: Sep): string
  {
    Join(parts, [SepChar(sep)])
  }

  /** CreateFromArray and splitting at the separator undo each other: parts
      without the separator come back from the path, and any path comes back
      from its parts. */
  lemma CreateFromArrayRoundTrip(parts: seq<string>, path: string, sep: Sep)
    ensures |parts| >= 1 && (forall i :: 0 <= i < |parts| ==> SepChar(sep) !in parts[i])
            ==> Split(CreateFromArray(parts, sep), SepChar(sep)) == parts
    ensures CreateFromArray(Split(path, SepChar(sep)), sep) == path
  {
    if |parts| >= 1 && (forall i :: 0 <= i < |parts| ==> SepChar(sep) !in parts[i]) {
      SplitJoin(parts, SepChar(sep));
    }
    JoinSplit(path, SepChar(sep));
  }

  // ---------------------------------------------------------------------
  // ToNoProtocolUri and ToUri
  // ---------------------------------------------------------------------

  /** `s.replace(new RegExp('//', 'g'), '/')`: each non-overlapping "//",
      scanning left to right, becomes "/". */
  function MergeSlashPairs(s: string): (r: string)
    ensures |r| <= |s|
    decreases |s|
  {
    if |s| >= 2 && s[0] == '/' && s[1] == '/' then "/" + MergeSlashPairs(s[2..])
    else if |s| == 0 then ""
    else [s[0]] + MergeSlashPairs(s[1..])
  }

  predicate SlashPairAt0(s: string)
  {
    |s| >= 2 && s[0] == '/' && s[1] == '/'
  }

  lemma MergePairHead(s: string)
    requires SlashPairAt0(s)
    ensures MergeSlashPairs(s) == "/" + MergeSlashPairs(s[2..])
  {
  }

  lemma MergeOtherHead(s: string)
    requires |s| > 0 && !SlashPairAt0(s)
    ensures MergeSlashPairs(s) == [s[0]] + MergeSlashPairs(s[1..])
  {
  }

  lemma {:induction false} MergeSlashPairsAppend(x: string, y: string)
    requires NotEndingWith(x, '/')
    ensures MergeSlashPairs(x + y) == MergeSlashPairs(x) + MergeSlashPairs(y)
    decreases |x|
  {
    var s := x + y;
    if |x| == 0 {
      assert s == y;
    } else if SlashPairAt0(x) {
      assert |x| > 2;
      assert SlashPairAt0(s) by { assert s[0] == x[0] && s[1] == x[1]; }
      MergePairHead(s);
      MergePairHead(x);
      SliceAppend(x, y, 2);
      MergeSlashPairsAppend(x[2..], y);
      AppendAssoc("/", MergeSlashPairs(x[2..]), MergeSlashPairs(y));
    } else {
      assert !SlashPairAt0(s) by {
        if |x| == 1 {
          assert s[0] == x[0] != '/';
        } else {
          assert s[0] == x[0] && s[1] == x[1];
        }
      }
      MergeOtherHead(s);
      MergeOtherHead(x);
      SliceAppend(x, y, 1);
      MergeSlashPairsAppend(x[1..], y);
      AppendAssoc([x[0]], MergeSlashPairs(x[1..]), MergeSlashPairs(y));
    }
  }

  lemma {:induction false} MergeSlashPairsRep(k: nat, y: string)
    requires NotStartingWith(y, '/')
    ensures MergeSlashPairs(Rep('/', k) + y) == Rep('/', (k + 1) / 2) + MergeSlashPairs(y)
  {
    var s := Rep('/', k) + y;
    if k == 0 {
      assert s == y;
    } else if k == 1 {
      assert Rep('/', 1) == ['/'];
      assert !SlashPairAt0(s);
      MergeOtherHead(s);
      assert s[1..] == y;
    } else {
      var t := Rep('/', k - 2) + y;
      assert Rep('/', k) == ['/'] + (['/'] + Rep('/', k - 2));
      AppendAssoc(['/'] + ['/'], Rep('/', k - 2), y);
      AppendAssoc(['/'], ['/'], Rep('/', k - 2));
      assert s == ['/', '/'] + t;
      MergePairHead(s);
      assert s[2..] == t;
      MergeSlashPairsRep(k - 2, y);
      assert Rep('/', (k + 1) / 2) == ['/'] + Rep('/', (k - 1) / 2);
      AppendAssoc(['/'], Rep('/', (k - 1) / 2), MergeSlashPairs(y));
    }
  }

  /** No '/' of `s` is followed by another '/'. */
  predicate NoSlashPair(s: string)
  {
    forall i :: 0 <= i < |s| - 1 ==> !(s[i] == '/' && s[i + 1] == '/')
  }

  /** A string without "//" is left as it is: every character other than a
      doubled slash survives the replace. */
  lemma {:induction false} MergeSlashPairsFree(s: string)
    requires NoSlashPair(s)
    ensures MergeSlashPairs(s) == s
  {
    if |s| > 0 {
      assert !SlashPairAt0(s) by {
        if |s| >= 2 {
          assert !(s[0] == '/' && s[1] == '/');
        }
      }
      MergeOtherHead(s);
      var t := s[1..];
      forall i | 0 <= i < |t| - 1
        ensures !(t[i] == '/' && t[i + 1] == '/')
      {
        assert t[i] == s[i + 1] && t[i + 1] == s[i + 2];
      }
      MergeSlashPairsFree(t);
      assert [s[0]] + t == s;
    }
  }

  /** On a '/' host a maximal run of k slashes becomes ceil(k/2) slashes. */
  lemma MergeSlashPairsRun(x: string, k: nat, y: string)
    requires NotEndingWith(x, '/') && NotStartingWith(y, '/')
    ensures MergeSlashPairs(x + Rep('/', k) + y)
         == MergeSlashPairs(x) + Rep('/', (k + 1) / 2) + MergeSlashPairs(y)
  {
    assert x + Rep('/', k) + y == x + (Rep('/', k) + y);
    MergeSlashPairsAppend(x, Rep('/', k) + y);
    MergeSlashPairsRep(k, y);
  }

  /** File.ToNoProtocolUri: '/' followed by the path with the pattern
      `sep + sep` replaced by '/'. On a '\' host that pattern is the escaped
      backslash and matches one backslash; on a '/' host it matches "//". */
  function ToNoProtocolUri(path: string, sep: Sep): (r: string)
    ensures |r| >= 1 && r[0] == '/'
    ensures sep == Backslash ==> '\\' !in r && |r| == |path| + 1
    ensures sep == Backslash ==> forall i :: 0 <= i < |path| ==> r[i + 1] == (if path[i] == '\\' then '/' else path[i])
    ensures sep == Slash ==> |r| <= |path| + 1
    ensures sep == Slash && NoSlashPair(path) ==> r == "/" + path
  {
    if sep == Backslash then
      var body := ReplaceChar(path, '\\', '/');
      assert '\\' !in body by {
        forall i | 0 <= i < |body|
          ensures body[i] != '\\'
        {
        }
      }
      "/" + body
    else
      assert NoSlashPair(path) ==> MergeSlashPairs(path) == path by {
        if NoSlashPair(path) {
          MergeSlashPairsFree(path);
        }
      }
      "/" + MergeSlashPairs(path)
  }

  /** File.ToUri: "file://" in front of ToNoProtocolUri, so every URI starts
      with "file:///". */
  function ToUri(path: string, sep: Sep): (r: string)
    ensures StartsWith(r, "file:///")
    ensures r[7..] == ToNoProtocolUri(path, sep)
  {
    "file://" + ToNoProtocolUri(path, sep)
  }
}
