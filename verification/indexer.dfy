/** The project indexer's file tree: which directory entries are hidden, which
    files count as code, and how each level of the tree is ordered. The
    directory is a value here, read once; symbol extraction is not modelled. */
module Indexer {
  import opened Wrappers
  import Text
  import Seqs

  // ---------------------------------------------------------------------------
  // Ignore patterns

  /** The ignore list, in its order. */
  const IgnorePatterns: seq<string> :=
    ["node_modules", ".git", ".DS_Store", "dist", "build", "*.log", ".env", ".vscode", ".idea"]

  /** The patterns without a wildcard: matched by name equality. */
  const ExactNames: seq<string> :=
    ["node_modules", ".git", ".DS_Store", "dist", "build", ".env", ".vscode", ".idea"]

  /** The first index of `c` in `s`. */
  function FirstIndex(s: string, c: char): (r: Option<nat>)
    ensures r.None? <==> c !in s
    ensures r.Some? ==> r.value < |s| && s[r.value] == c && c !in s[..r.value]
  {
    if |s| == 0 then None
    else if s[0] == c then Some(0)
    else
      var r := FirstIndex(s[1..], c);
      if r.Some? then
        assert s[..r.value + 1] == [s[0]] + s[1..][..r.value];
        Some(r.value + 1)
      else None
  }

  /** `s.replace(c, rep)` with a string pattern: only the first occurrence. */
  function ReplaceFirst(s: string, c: char, rep: string): string {
    match FirstIndex(s, c)
    case None => s
    case Some(i) => s[..i] + rep + s[i + 1..]
  }

  /** The regular-expression atoms the wildcard pattern compiles to: `.*`, `.`
      and a literal character. */
  datatype Atom = AnyRun | AnyChar | Lit(c: char)

  /** The regular-expression text an atom sequence spells. */
  function Render(atoms: seq<Atom>): string {
    if |atoms| == 0 then ""
    else
      (match atoms[0]
       case AnyRun => ".*"
       case AnyChar => "."
       case Lit(c) => [c])
      + Render(atoms[1..])
  }

  /** The characters an atom sequence must consume: all but the runs. */
  function Width(atoms: seq<Atom>): nat {
    if |atoms| == 0 then 0 else (if atoms[0].AnyRun? then 0 else 1) + Width(atoms[1..])
  }

  /** Only literal characters. */
  predicate AllLit(atoms: seq<Atom>) {
    forall k :: 0 <= k < |atoms| ==> atoms[k].Lit?
  }

  /** Reads a regular expression made of `.`, `.*` and literal characters:
      reading loses nothing, since rendering the atoms gives the text back, and
      a `.` is never taken literally. */
  function Compile(re: string): (r: seq<Atom>)
    ensures |r| <= |re|
    ensures Render(r) == re
    ensures Lit('.') !in r
  {
    if |re| == 0 then []
    else if re[0] == '.' && |re| >= 2 && re[1] == '*' then
      var r := [AnyRun] + Compile(re[2..]);
      assert r[1..] == Compile(re[2..]);
      assert re == ".*" + re[2..];
      r
    else if re[0] == '.' then
      var r := [AnyChar] + Compile(re[1..]);
      assert r[1..] == Compile(re[1..]);
      assert re == "." + re[1..];
      r
    else
      var r := [Lit(re[0])] + Compile(re[1..]);
      assert r[1..] == Compile(re[1..]);
      assert re == [re[0]] + re[1..];
      r
  }

  /** A match of `atoms` starting at `i`; `.` stops at line terminators, and the
      match need not reach the end of `s`. A match needs room for every atom but
      the runs, and a pattern of literals matches exactly where its text occurs. */
  function MatchAt(atoms: seq<Atom>, s: string, i: nat): (r: bool)
    requires i <= |s|
    ensures r ==> i + Width(atoms) <= |s|
    ensures AllLit(atoms) ==> (r <==> Text.At(s, Render(atoms), i))
    decreases |atoms|, |s| - i
  {
    if |atoms| == 0 then true
    else
      assert AllLit(atoms) ==> AllLit(atoms[1..]) by {
        if AllLit(atoms) {
          forall k | 0 <= k < |atoms[1..]|
            ensures atoms[1..][k].Lit?
          {
            assert atoms[1..][k] == atoms[k + 1];
          }
        }
      }
      match atoms[0]
      case AnyRun =>
        MatchAt(atoms[1..], s, i) || (i < |s| && !Text.IsLineTerminator(s[i]) && MatchAt(atoms, s, i + 1))
      case AnyChar => i < |s| && !Text.IsLineTerminator(s[i]) && MatchAt(atoms[1..], s, i + 1)
      case Lit(c) =>
        assert Render(atoms) == [c] + Render(atoms[1..]);
        Text.AtCons(s, c, Render(atoms[1..]), i);
        i < |s| && s[i] == c && MatchAt(atoms[1..], s, i + 1)
  }

  /** `RegExp.prototype.test` without flags: a match starting at `i` or later. */
  function Test(atoms: seq<Atom>, s: string, i: nat): (r: bool)
    requires i <= |s|
    ensures r <==> exists j: nat :: i <= j <= |s| && MatchAt(atoms, s, j)
    decreases |s| - i
  {
    if MatchAt(atoms, s, i) then
      assert exists j: nat :: i <= j <= |s| && MatchAt(atoms, s, j) by {
        assert i <= i <= |s| && MatchAt(atoms, s, i);
      }
      true
    else if i < |s| then
      var later := Test(atoms, s, i + 1);
      assert later ==> exists j: nat :: i <= j <= |s| && MatchAt(atoms, s, j) by {
        if later {
          var j: nat :| i + 1 <= j <= |s| && MatchAt(atoms, s, j);
          assert i <= j <= |s| && MatchAt(atoms, s, j);
        }
      }
      assert forall j: nat :: i <= j <= |s| && MatchAt(atoms, s, j) ==> i + 1 <= j;
      later
    else
      false
  }

  /** One pattern: with a `*`, the first `*` becomes `.*` and the result is used
      as an unanchored regular expression; otherwise the name must equal it. */
  predicate PatternMatches(pattern: string, name: string) {
    if '*' in pattern then Test(Compile(ReplaceFirst(pattern, '*', ".*")), name, 0)
    else name == pattern
  }

  /** `patterns.some(...)`. */
  predicate SomeMatches(patterns: seq<string>, name: string, m: (string, string) -> bool) {
    exists i :: 0 <= i < |patterns| && m(patterns[i], name)
  }

  /** `shouldIgnore` as written. */
  predicate ShouldIgnore(name: string) {
    SomeMatches(IgnorePatterns, name, PatternMatches)
  }

  /** Some character other than a line terminator at `j`, then `log`. */
  predicate LogAt(s: string, j: nat) {
    j + 4 <= |s| && !Text.IsLineTerminator(s[j]) && Text.At(s, "log", j + 1)
  }

  const LogAtoms: seq<Atom> := [AnyRun, AnyChar, Lit('l'), Lit('o'), Lit('g')]

  lemma CompileLogPattern()
    ensures Compile(ReplaceFirst("*.log", '*', ".*")) == LogAtoms
  {
    assert ReplaceFirst("*.log", '*', ".*") == ".*.log";
    assert ".*.log"[2..] == ".log";
    assert ".log"[1..] == "log";
    assert "log"[1..] == "og";
    assert "og"[1..] == "g";
    assert "g"[1..] == "";
  }

  lemma LogTail(s: string, k: nat)
    requires k <= |s|
    ensures MatchAt(LogAtoms[1..], s, k) <==> LogAt(s, k)
  {
    var t := LogAtoms[1..];
    assert t[1..] == [Lit('l'), Lit('o'), Lit('g')];
    assert t[1..][1..] == [Lit('o'), Lit('g')];
    assert t[1..][1..][1..] == [Lit('g')];
    assert t[1..][1..][1..][1..] == [];
    if LogAt(s, k) {
      assert s[k + 1..k + 4] == "log";
      assert s[k + 1] == 'l' && s[k + 2] == 'o' && s[k + 3] == 'g';
      assert MatchAt(t[1..][1..][1..][1..], s, k + 4);
      assert MatchAt(t[1..][1..][1..], s, k + 3);
      assert MatchAt(t[1..][1..], s, k + 2);
      assert MatchAt(t[1..], s, k + 1);
    }
    if MatchAt(t, s, k) {
      assert MatchAt(t[1..], s, k + 1);
      assert MatchAt(t[1..][1..], s, k + 2);
      assert MatchAt(t[1..][1..][1..], s, k + 3);
      assert k + 4 <= |s|;
      assert s[k + 1] == 'l' && s[k + 2] == 'o' && s[k + 3] == 'g';
      assert s[k + 1..k + 4] == "log";
    }
  }

  /** A match of `.*.log` from `i` is exactly a `LogAt` position at or after `i`. */
  lemma {:induction false} LogMatchAt(s: string, i: nat)
    requires i <= |s|
    ensures MatchAt(LogAtoms, s, i) ==> exists j :: i <= j <= |s| && LogAt(s, j)
    ensures LogAt(s, i) ==> MatchAt(LogAtoms, s, i)
    decreases |s| - i
  {
    assert LogAtoms[0] == AnyRun;
    LogTail(s, i);
    if MatchAt(LogAtoms, s, i) && !MatchAt(LogAtoms[1..], s, i) {
      LogMatchAt(s, i + 1);
    }
  }

  lemma {:induction false} LogTest(s: string, i: nat)
    requires i <= |s|
    ensures Test(LogAtoms, s, i) <==> exists j :: i <= j <= |s| && LogAt(s, j)
    decreases |s| - i
  {
    LogMatchAt(s, i);
    if i < |s| {
      LogTest(s, i + 1);
    }
    if j :| i <= j <= |s| && LogAt(s, j) {
      if j > i {
        assert i < |s|;
        assert Test(LogAtoms, s, i + 1);
      }
    }
  }

  /** An exact name, as the source applies it, matches only itself. */
  lemma ExactPattern(k: nat, name: string)
    requires k < |ExactNames|
    ensures PatternMatches(ExactNames[k], name) <==> name == ExactNames[k]
  {
    ExactNameHasNoStar(k);
  }

  /** `*.log`, as the source applies it, is the unanchored `.*.log`. */
  lemma LogPatternMatches(name: string)
    ensures PatternMatches("*" + ".log", name) <==> exists j :: 0 <= j <= |name| && LogAt(name, j)
  {
    var p := "*" + ".log";
    assert p == "*.log";
    assert p[0] == '*';
    CompileLogPattern();
    LogTest(name, 0);
  }

  /** `shouldIgnore` hides the eight exact names, and every name holding some
      character other than a line terminator followed by `log`: the wildcard
      pattern is neither anchored nor escaped. */
  lemma {:induction false} ShouldIgnoreIff(name: string)
    ensures ShouldIgnore(name) <==> name in ExactNames || exists j :: 0 <= j <= |name| && LogAt(name, j)
  {
    LogPattern();
    if name in ExactNames {
      var k :| 0 <= k < |ExactNames| && ExactNames[k] == name;
      var i := if k < 5 then k else k + 1;
      ExactNamesPosition(k);
      ExactPattern(k, name);
      assert PatternMatches(IgnorePatterns[i], name);
    }
    if exists j :: 0 <= j <= |name| && LogAt(name, j) {
      LogPatternMatches(name);
      assert PatternMatches(IgnorePatterns[5], name);
    }
    if ShouldIgnore(name) {
      var i :| 0 <= i < |IgnorePatterns| && PatternMatches(IgnorePatterns[i], name);
      if i == 5 {
        LogPatternMatches(name);
      } else {
        var k := if i < 5 then i else i - 1;
        ExactNamesPosition(k);
        ExactPattern(k, name);
        assert name == ExactNames[k];
      }
    }
  }

  // ---------------------------------------------------------------------------
  // The ignore list read as globs

  /** Shell-glob matching of a whole name: `*` matches any run of characters. */
  predicate GlobMatch(pattern: string, name: string)
    decreases |pattern|, |name|
  {
    if |pattern| == 0 then |name| == 0
    else if pattern[0] == '*' then GlobMatch(pattern[1..], name) || (|name| > 0 && GlobMatch(pattern, name[1..]))
    else |name| > 0 && name[0] == pattern[0] && GlobMatch(pattern[1..], name[1..])
  }

  /** Without a `*`, a glob matches only the name it spells. */
  lemma {:induction false} GlobLiteral(pattern: string, name: string)
    requires '*' !in pattern
    ensures GlobMatch(pattern, name) <==> name == pattern
    decreases |pattern|
  {
    if |pattern| > 0 && |name| > 0 {
      GlobLiteral(pattern[1..], name[1..]);
      if name[0] == pattern[0] && name[1..] == pattern[1..] {
        assert name == [name[0]] + name[1..];
        assert pattern == [pattern[0]] + pattern[1..];
      }
    }
  }

  /** `*` followed by a literal suffix matches exactly the names ending with it. */
  lemma {:induction false} GlobSuffix(suffix: string, name: string)
    requires '*' !in suffix
    ensures GlobMatch("*" + suffix, name) <==> |name| >= |suffix| && name[|name| - |suffix|..] == suffix
    decreases |name|
  {
    var p := "*" + suffix;
    assert p[1..] == suffix;
    GlobLiteral(suffix, name);
    if |name| > 0 {
      GlobSuffix(suffix, name[1..]);
      if |name| - 1 >= |suffix| {
        assert name[1..][|name| - 1 - |suffix|..] == name[|name| - |suffix|..];
      }
    }
  }

  /** The ignore list applied as the glob list it is written as: the names the
      list spells, and names ending in `.log`. */
  predicate ShouldIgnoreIntended(name: string) {
    SomeMatches(IgnorePatterns, name, GlobMatch)
  }

  /** An exact name read as a glob matches only itself. */
  lemma ExactGlob(k: nat, name: string)
    requires k < |ExactNames|
    ensures GlobMatch(ExactNames[k], name) <==> name == ExactNames[k]
  {
    ExactNameHasNoStar(k);
    GlobLiteral(ExactNames[k], name);
  }

  /** The sixth entry is `*` followed by `.log`. */
  lemma LogPattern()
    ensures IgnorePatterns[5] == "*" + ".log"
  {
  }

  lemma LogSuffixGlob(name: string)
    ensures GlobMatch("*" + ".log", name) <==> |name| >= 4 && name[|name| - 4..] == ".log"
  {
    var suffix := ".log";
    assert NoStar(suffix);
    assert '*' !in suffix;
    GlobSuffix(suffix, name);
  }

  /** `*.log` read as a glob is a suffix test. */
  lemma LogGlob(name: string)
    ensures GlobMatch(IgnorePatterns[5], name) <==> |name| >= 4 && name[|name| - 4..] == ".log"
  {
    LogSuffixGlob(name);
    LogPattern();
  }


  /** `ExactNames` is the list without its sixth entry. */
  lemma ExactNamesPosition(k: nat)
    requires k < |ExactNames|
    ensures ExactNames[k] == IgnorePatterns[if k < 5 then k else k + 1]
  {
  }

  predicate NoStar(s: string) {
    forall j :: 0 <= j < |s| ==> s[j] != '*'
  }

  /** No exact name holds a `*`. */
  lemma ExactNameHasNoStar(k: nat)
    requires k < |ExactNames|
    ensures '*' !in ExactNames[k]
  {
    match k
    case 0 => assert NoStar("node_modules");
    case 1 => assert NoStar(".git");
    case 2 => assert NoStar(".DS_Store");
    case 3 => assert NoStar("dist");
    case 4 => assert NoStar("build");
    case 5 => assert NoStar(".env");
    case 6 => assert NoStar(".vscode");
    case 7 => assert NoStar(".idea");
  }

  lemma {:induction false} ShouldIgnoreIntendedIff(name: string)
    ensures ShouldIgnoreIntended(name) <==> name in ExactNames || (|name| >= 4 && name[|name| - 4..] == ".log")
  {
    if name in ExactNames {
      var k :| 0 <= k < |ExactNames| && ExactNames[k] == name;
      var i := if k < 5 then k else k + 1;
      ExactNamesPosition(k);
      ExactGlob(k, name);
      assert GlobMatch(IgnorePatterns[i], name);
    }
    if |name| >= 4 && name[|name| - 4..] == ".log" {
      LogGlob(name);
      assert GlobMatch(IgnorePatterns[5], name);
    }
    if ShouldIgnoreIntended(name) {
      var i :| 0 <= i < |IgnorePatterns| && GlobMatch(IgnorePatterns[i], name);
      if i == 5 {
        LogGlob(name);
      } else {
        var k := if i < 5 then i else i - 1;
        ExactNamesPosition(k);
        ExactGlob(k, name);
        assert name == ExactNames[k];
      }
    }
  }



  /** The unanchored pattern hides an ordinary source file such as
      `catalog.ts`, which the glob reading keeps. */
  lemma CatalogHidden()
    ensures ShouldIgnore("catalog.ts") && !ShouldIgnoreIntended("catalog.ts")
  {
    ShouldIgnoreIff("catalog.ts");
    assert LogAt("catalog.ts", 3) by {
      var w := "catalog.ts"[4..7];
      assert w[0] == 'l' && w[1] == 'o' && w[2] == 'g';
      assert w == "log";
    }
    ShouldIgnoreIntendedIff("catalog.ts");
    assert "catalog.ts"[6] == 'g';
  }

  /** Likewise `dialog.tsx`. */
  lemma DialogHidden()
    ensures ShouldIgnore("dialog.tsx") && !ShouldIgnoreIntended("dialog.tsx")
  {
    ShouldIgnoreIff("dialog.tsx");
    assert LogAt("dialog.tsx", 2) by {
      var w := "dialog.tsx"[3..6];
      assert w[0] == 'l' && w[1] == 'o' && w[2] == 'g';
      assert w == "log";
    }
    ShouldIgnoreIntendedIff("dialog.tsx");
    assert "dialog.tsx"[7] == 't';
  }

  /** A log file is hidden under either reading. */
  lemma LogFileHidden()
    ensures ShouldIgnore("debug.log") && ShouldIgnoreIntended("debug.log")
  {
    ShouldIgnoreIff("debug.log");
    assert LogAt("debug.log", 5) by { assert "debug.log"[6..9] == "log"; }
    ShouldIgnoreIntendedIff("debug.log");
    assert "debug.log"[5..] == ".log";
  }

  /** The bare name `log` has no character before `log`, so it is kept. */
  lemma BareLogKept()
    ensures !ShouldIgnore("log") && !ShouldIgnoreIntended("log")
  {
    ShouldIgnoreIff("log");
    ShouldIgnoreIntendedIff("log");
  }

  /** Exact patterns compare whole names. */
  lemma NodeModulesHidden()
    ensures ShouldIgnore("node_modules") && ShouldIgnoreIntended("node_modules")
  {
    ShouldIgnoreIff("node_modules");
    ShouldIgnoreIntendedIff("node_modules");
    assert ExactNames[0] == "node_modules";
  }

  /** A name without a `g` holds no `log`. */
  lemma NoLogWithoutG(s: string)
    requires 'g' !in s
    ensures forall j :: 0 <= j <= |s| ==> !LogAt(s, j)
  {
    forall j | 0 <= j <= |s|
      ensures !LogAt(s, j)
    {
      if j + 4 <= |s| {
        assert s[j + 3] in s;
        assert s[j + 1..j + 4][2] == s[j + 3] != "log"[2];
      }
    }
  }

  /** A longer name that starts with an exact pattern is kept. */
  lemma SimilarNameKept()
    ensures !ShouldIgnore("node_modules2")
  {
    var n := "node_modules2";
    assert n !in ExactNames;
    assert 'g' !in n;
    NoLogWithoutG(n);
    ShouldIgnoreIff(n);
  }

  /** The same under the glob reading. */
  lemma SimilarNameKeptIntended()
    ensures !ShouldIgnoreIntended("node_modules2")
  {
    var n := "node_modules2";
    assert n !in ExactNames;
    ShouldIgnoreIntendedIff(n);
    assert n[9] == 'l';
  }

  // ---------------------------------------------------------------------------
  // Extensions

  /** The last index of `c` in `s`. */
  function LastIndexOf(s: string, c: char): (r: Option<nat>)
    ensures r.None? <==> c !in s
    ensures r.Some? ==> r.value < |s| && s[r.value] == c && c !in s[r.value + 1..]
  {
    if |s| == 0 then None
    else if s[|s| - 1] == c then Some(|s| - 1)
    else
      var r := LastIndexOf(s[..|s| - 1], c);
      assert s == s[..|s| - 1] + [s[|s| - 1]];
      if r.Some? then
        assert s[r.value + 1..] == s[..|s| - 1][r.value + 1..] + [s[|s| - 1]];
        r
      else r
  }

  /** `path.extname` of a directory entry's name: from the last `.` on, unless
      that dot starts the name, there is none, or the name is `..`. */
  function Extname(name: string): (r: string)
    ensures r == "" || (|r| < |name| && r == name[|name| - |r|..] && r[0] == '.' && '.' !in r[1..])
  {
    match LastIndexOf(name, '.')
    case None => ""
    case Some(d) =>
      if d == 0 || name == ".." then ""
      else
        assert name[d..][1..] == name[d + 1..];
        name[d..]
  }

  /** The extensions the indexer parses. */
  const CodeExtensions: seq<string> :=
    [".ts", ".tsx", ".js", ".jsx", ".vue", ".py", ".go", ".rs", ".java", ".c", ".cpp", ".h"]

  /** `isCodeFile`: the lower-cased extension is one of the list. */
  predicate IsCodeFile(name: string) {
    Text.ToLower(Extname(name)) in CodeExtensions
  }

  /** A dot after the first character with no dot after it starts the
      extension, unless the name is `..`. */
  lemma ExtnameAt(name: string, d: nat)
    requires 0 < d < |name| && name[d] == '.' && '.' !in name[d + 1..] && name != ".."
    ensures Extname(name) == name[d..]
  {
    var l := LastIndexOf(name, '.');
    assert l.Some?;
    NotInSuffix(name, '.', l.value + 1);
    NotInSuffix(name, '.', d + 1);
  }

  /** `c` is absent from `s[i..]` exactly when no index from `i` holds it. */
  lemma NotInSuffix(s: string, c: char, i: nat)
    requires i <= |s| && c !in s[i..]
    ensures forall k :: i <= k < |s| ==> s[k] != c
  {
    forall k | i <= k < |s|
      ensures s[k] != c
    {
      assert s[i..][k - i] == s[k];
    }
  }

  /** A code file has a dot after its first character, no dot after that one,
      and a listed lower-cased tail from that dot. */
  lemma CodeFileHasExtension(name: string)
    requires IsCodeFile(name)
    ensures exists d :: 0 < d < |name| && name[d] == '.' && '.' !in name[d + 1..] && Text.ToLower(name[d..]) in CodeExtensions
  {
    var e := Extname(name);
    assert e != "" by {
      assert Text.ToLower("") == "";
    }
    var d := |name| - |e|;
    assert name[d..] == e;
    assert name[d + 1..] == e[1..];
  }

  /** Such a dot makes the name a code file. */
  lemma ExtensionMakesCodeFile(name: string, d: nat)
    requires 0 < d < |name| && name[d] == '.' && '.' !in name[d + 1..] && Text.ToLower(name[d..]) in CodeExtensions
    ensures IsCodeFile(name)
  {
    assert name != ".." by {
      assert "." !in CodeExtensions;
      assert Text.ToLower(".") == ".";
      assert name[d..] != ".";
    }
    ExtnameAt(name, d);
  }

  /** A code file is one with a dot after its first character, no dot after
      that one, and a lower-cased tail from that dot that is in the list. */
  lemma IsCodeFileIff(name: string)
    ensures IsCodeFile(name) <==>
      exists d :: 0 < d < |name| && name[d] == '.' && '.' !in name[d + 1..] && Text.ToLower(name[d..]) in CodeExtensions
  {
    if IsCodeFile(name) {
      CodeFileHasExtension(name);
    }
    if exists d :: 0 < d < |name| && name[d] == '.' && '.' !in name[d + 1..] && Text.ToLower(name[d..]) in CodeExtensions {
      var d :| 0 < d < |name| && name[d] == '.' && '.' !in name[d + 1..] && Text.ToLower(name[d..]) in CodeExtensions;
      ExtensionMakesCodeFile(name, d);
    }
  }

  /** The extension is compared lower-cased. */
  lemma UpperCaseExtension()
    ensures IsCodeFile("App.TSX")
  {
    var n := "App.TSX";
    assert n[3..] == ".TSX" && n[4..] == "TSX";
    assert Text.ToLower(".TSX") == ".tsx";
    ExtensionMakesCodeFile(n, 3);
  }

  /** Only the part after the last dot counts. */
  lemma LastDotCounts()
    ensures IsCodeFile("main.test.py")
  {
    var n := "main.test.py";
    assert n[9..] == ".py" && n[10..] == "py";
    assert Text.ToLower(".py") == ".py";
    ExtensionMakesCodeFile(n, 9);
  }

  /** A leading dot is not an extension. */
  lemma DotFileIsNotCode()
    ensures !IsCodeFile(".ts")
  {
    IsCodeFileIff(".ts");
    assert forall d :: 0 < d < 3 ==> ".ts"[d] != '.';
  }

  /** An unlisted extension is not code. */
  lemma MarkdownIsNotCode()
    ensures !IsCodeFile("notes.md")
  {
    var n := "notes.md";
    assert n[5..] == ".md" && n[6..] == "md";
    ExtnameAt(n, 5);
    assert Text.ToLower(".md") == ".md";
  }

  // ---------------------------------------------------------------------------
  // The file tree

  /** A directory as read from disk, entries in `readdir` order. */
  datatype Entry = FileEntry(name: string, size: nat) | DirEntry(name: string, entries: seq<Entry>)

  datatype Kind = Directory | File

  /** A node of the tree the indexer returns; `None` is an absent property. */
  datatype FileNode = FileNode(name: string, path: string, kind: Kind, children: Children,
                               extension: Option<string>, size: Option<nat>, modified: Option<bool>)

  /** The `children` property: absent, or the nodes of the next level. */
  datatype Children = NoChildren | Children(nodes: seq<FileNode>)

  /** `path.relative(base, full)` for an entry `name` inside `prefix`. */
  function ChildPath(prefix: string, name: string): string {
    if prefix == "" then name else prefix + "/" + name
  }

  /** Ordinal string order, standing in for `localeCompare(...) <= 0`. */
  predicate NameLe(a: string, b: string) {
    |a| == 0 || (|b| > 0 && (a[0] < b[0] || (a[0] == b[0] && NameLe(a[1..], b[1..]))))
  }

  lemma {:induction false} NameLeTotal(a: string, b: string)
    ensures NameLe(a, b) || NameLe(b, a)
  {
    if |a| > 0 && |b| > 0 && a[0] == b[0] {
      NameLeTotal(a[1..], b[1..]);
    }
  }

  lemma {:induction false} NameLeTrans(a: string, b: string, c: string)
    requires NameLe(a, b) && NameLe(b, c)
    ensures NameLe(a, c)
  {
    if |a| > 0 && |b| > 0 && |c| > 0 && a[0] == b[0] && b[0] == c[0] {
      NameLeTrans(a[1..], b[1..], c[1..]);
    }
  }

  /** The comparator: directories first, then by name. */
  predicate NodeLe(a: FileNode, b: FileNode) {
    if a.kind != b.kind then a.kind == Directory else NameLe(a.name, b.name)
  }

  lemma NodeLeTotal()
    ensures Seqs.Total(NodeLe)
  {
    forall a: FileNode, b: FileNode
      ensures NodeLe(a, b) || NodeLe(b, a)
    {
      NameLeTotal(a.name, b.name);
    }
  }

  /** The nodes of one directory level, in `readdir` order, ignored names skipped. */
  function Collect(entries: seq<Entry>, prefix: string, ignore: string -> bool): (r: seq<FileNode>)
    ensures |r| <= |entries|
    decreases entries, 0
  {
    if |entries| == 0 then []
    else
      var e := entries[0];
      var rest := Collect(entries[1..], prefix, ignore);
      if ignore(e.name) then rest
      else [NodeOf(e, prefix, ignore)] + rest
  }

  /** The node for one entry. An empty directory has no `children` property. */
  function NodeOf(e: Entry, prefix: string, ignore: string -> bool): (r: FileNode)
    ensures r.name == e.name && r.path == ChildPath(prefix, e.name)
    decreases e, 1
  {
    var path := ChildPath(prefix, e.name);
    match e
    case FileEntry(name, size) => FileNode(name, path, File, NoChildren, Some(Extname(name)), Some(size), Some(false))
    case DirEntry(name, es) =>
      var children := Tree(es, path, ignore);
      FileNode(name, path, Directory, if |children| > 0 then Children(children) else NoChildren, None, None, None)
  }

  /** `buildFileTree` for one level, sorted with the comparator. */
  function Tree(entries: seq<Entry>, prefix: string, ignore: string -> bool): (r: seq<FileNode>)
    ensures Seqs.SortedBy(r, NodeLe)
    ensures multiset(r) == multiset(Collect(entries, prefix, ignore))
    decreases entries, 2
  {
    NodeLeTotal();
    Seqs.InsertionSort(Collect(entries, prefix, ignore), NodeLe)
  }

  /** A level holds exactly the nodes of the entries whose names are not ignored. */
  lemma {:induction false} CollectMembers(entries: seq<Entry>, prefix: string, ignore: string -> bool)
    ensures forall n :: n in Collect(entries, prefix, ignore) <==>
      exists i :: 0 <= i < |entries| && !ignore(entries[i].name) && n == NodeOf(entries[i], prefix, ignore)
    decreases |entries|
  {
    if |entries| > 0 {
      CollectMembers(entries[1..], prefix, ignore);
      forall n
        ensures n in Collect(entries, prefix, ignore) <==>
          exists i :: 0 <= i < |entries| && !ignore(entries[i].name) && n == NodeOf(entries[i], prefix, ignore)
      {
        if exists i :: 0 <= i < |entries| && !ignore(entries[i].name) && n == NodeOf(entries[i], prefix, ignore) {
          var i :| 0 <= i < |entries| && !ignore(entries[i].name) && n == NodeOf(entries[i], prefix, ignore);
          if i > 0 {
            assert entries[1..][i - 1] == entries[i];
          }
        }
        if n in Collect(entries[1..], prefix, ignore) {
          var i :| 0 <= i < |entries[1..]| && !ignore(entries[1..][i].name) && n == NodeOf(entries[1..][i], prefix, ignore);
          assert entries[i + 1] == entries[1..][i];
        }
      }
    }
  }

  /** A node and everything below it: no hidden name, no empty `children`, and
      files carry their extension and `modified = false`. */
  predicate WellFormedNode(n: FileNode, ignore: string -> bool)
    decreases n
  {
    && !ignore(n.name)
    && (n.kind == File ==> n.children.NoChildren? && n.extension == Some(Extname(n.name)) && n.modified == Some(false))
    && match n.children
       case NoChildren => true
       case Children(cs) => n.kind == Directory && |cs| > 0 && forall i :: 0 <= i < |cs| ==> WellFormedNode(cs[i], ignore)
  }

  predicate WellFormed(nodes: seq<FileNode>, ignore: string -> bool) {
    forall i :: 0 <= i < |nodes| ==> WellFormedNode(nodes[i], ignore)
  }

  /** One level holds exactly the nodes of its entries that are not ignored. */
  lemma TreeMembers(entries: seq<Entry>, prefix: string, ignore: string -> bool)
    ensures forall n :: n in Tree(entries, prefix, ignore) <==>
      exists i :: 0 <= i < |entries| && !ignore(entries[i].name) && n == NodeOf(entries[i], prefix, ignore)
  {
    CollectMembers(entries, prefix, ignore);
    var t := Tree(entries, prefix, ignore);
    var c := Collect(entries, prefix, ignore);
    forall n
      ensures n in t <==> n in c
    {
      assert (n in t) == (n in multiset(t));
      assert (n in c) == (n in multiset(c));
    }
  }

  lemma {:induction false} TreeWellFormed(entries: seq<Entry>, prefix: string, ignore: string -> bool)
    ensures WellFormed(Tree(entries, prefix, ignore), ignore)
    decreases entries, 2
  {
    var t := Tree(entries, prefix, ignore);
    TreeMembers(entries, prefix, ignore);
    forall i | 0 <= i < |t|
      ensures WellFormedNode(t[i], ignore)
    {
      assert t[i] in t;
      var k :| 0 <= k < |entries| && !ignore(entries[k].name) && t[i] == NodeOf(entries[k], prefix, ignore);
      NodeWellFormed(entries[k], prefix, ignore);
    }
  }

  lemma {:induction false} NodeWellFormed(e: Entry, prefix: string, ignore: string -> bool)
    requires !ignore(e.name)
    ensures WellFormedNode(NodeOf(e, prefix, ignore), ignore)
    decreases e, 1
  {
    match e
    case FileEntry(_, _) =>
    case DirEntry(name, es) =>
      TreeWellFormed(es, ChildPath(prefix, name), ignore);
  }

  /** Each level lists directories before files. */
  lemma {:induction false} DirectoriesFirst(t: seq<FileNode>, i: nat, j: nat)
    requires Seqs.SortedBy(t, NodeLe)
    requires i <= j < |t| && t[i].kind == File
    ensures t[j].kind == File
    decreases j - i
  {
    if i < j {
      assert NodeLe(t[i], t[i + 1]);
      DirectoriesFirst(t, i + 1, j);
    }
  }

  /** Within a kind, each level is in name order. */
  lemma {:induction false} NamesOrdered(t: seq<FileNode>, i: nat, j: nat)
    requires Seqs.SortedBy(t, NodeLe)
    requires i < j < |t| && t[i].kind == t[j].kind
    ensures NameLe(t[i].name, t[j].name)
    decreases j - i
  {
    assert NodeLe(t[j - 1], t[j]);
    if t[j - 1].kind != t[i].kind {
      if t[i].kind == File {
        DirectoriesFirst(t, i, j - 1);
      }
    } else if i < j - 1 {
      NamesOrdered(t, i, j - 1);
      NameLeTrans(t[i].name, t[j - 1].name, t[j].name);
    }
  }

  /** `getFileTree`: the project's directory must exist, and the tree hides the
      names `shouldIgnore` hides as written, `.*.log` regular expression
      included. */
  function GetFileTree(dir: Option<seq<Entry>>): (r: Result<seq<FileNode>, string>)
    ensures dir.None? <==> r.Err?
    ensures r.Err? ==> r.error == "Project directory not found"
    ensures r.Ok? ==> WellFormed(r.value, ShouldIgnore) && Seqs.SortedBy(r.value, NodeLe)
    ensures r.Ok? ==> forall n :: n in r.value <==>
      exists i :: 0 <= i < |dir.value| && !ShouldIgnore(dir.value[i].name) && n == NodeOf(dir.value[i], "", ShouldIgnore)
  {
    match dir
    case None => Err("Project directory not found")
    case Some(es) =>
      TreeWellFormed(es, "", ShouldIgnore);
      TreeMembers(es, "", ShouldIgnore);
      Ok(Tree(es, "", ShouldIgnore))
  }

  /** `getFileTree` with the ignore list read as the globs it spells: only the
      listed names and names ending in `.log` are hidden. */
  function GetFileTreeIntended(dir: Option<seq<Entry>>): (r: Result<seq<FileNode>, string>)
    ensures dir.None? <==> r.Err?
    ensures r.Err? ==> r.error == "Project directory not found"
    ensures r.Ok? ==> WellFormed(r.value, ShouldIgnoreIntended) && Seqs.SortedBy(r.value, NodeLe)
    ensures r.Ok? ==> forall n :: n in r.value <==>
      exists i :: 0 <= i < |dir.value| && !ShouldIgnoreIntended(dir.value[i].name) && n == NodeOf(dir.value[i], "", ShouldIgnoreIntended)
  {
    match dir
    case None => Err("Project directory not found")
    case Some(es) =>
      TreeWellFormed(es, "", ShouldIgnoreIntended);
      TreeMembers(es, "", ShouldIgnoreIntended);
      Ok(Tree(es, "", ShouldIgnoreIntended))
  }

  /** A project holding only `catalog.ts` shows an empty tree as written, and the
      file itself with the intended reading. */
  lemma CatalogMissingFromTree()
    ensures GetFileTree(Some([FileEntry("catalog.ts", 1)])) == Ok([])
    ensures GetFileTreeIntended(Some([FileEntry("catalog.ts", 1)])).value
      == [NodeOf(FileEntry("catalog.ts", 1), "", ShouldIgnoreIntended)]
  {
    var es := [FileEntry("catalog.ts", 1)];
    CatalogHidden();
    var t := GetFileTree(Some(es)).value;
    assert Collect(es, "", ShouldIgnore) == [];
    assert |t| == |multiset(t)| == 0;
    var u := GetFileTreeIntended(Some(es)).value;
    var n := NodeOf(es[0], "", ShouldIgnoreIntended);
    assert n in u;
    assert |Collect(es, "", ShouldIgnoreIntended)| <= 1;
    assert |u| == |Collect(es, "", ShouldIgnoreIntended)| by {
      assert multiset(u) == multiset(Collect(es, "", ShouldIgnoreIntended));
    }
    assert u == [n];
  }
}
