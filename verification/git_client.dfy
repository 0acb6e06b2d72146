/** The client's git helpers that build text: the automatic commit message and
    the name of a feature branch. The requests they feed are not modelled. */
module GitClient {
  import opened Wrappers
  import Text
  import Seqs

  // ---------------------------------------------------------------------------
  // Commit message

  /** The file part: all names joined by `, `, or the first five and a count of
      the rest. */
  function FileList(files: seq<string>): string {
    if |files| > 5 then Text.Join(files[..5], ", ") + "... (+" + Text.IntToString(|files| - 5) + " more)"
    else Text.Join(files, ", ")
  }

  /** `generateCommitMessage(goal, files, sessionId)`; an empty id counts as
      absent. */
  function CommitMessage(goal: string, files: seq<string>, sessionId: Option<string>): (r: string)
    ensures var head := "[Reme] " + goal + " | files: ";
      |head| <= |r| && r[..|head|] == head
    ensures sessionId.Some? && sessionId.value != "" ==>
      var tail := " | session: " + sessionId.value;
      |tail| <= |r| && r[|r| - |tail|..] == tail
    ensures sessionId.None? || sessionId.value == "" ==>
      var list := FileList(files);
      |list| <= |r| && r[|r| - |list|..] == list
    // nothing else: the head, the file list right after it, then the session part or nothing
    ensures var head := "[Reme] " + goal + " | files: ";
      var list := FileList(files);
      var sessionPart := if sessionId.Some? && sessionId.value != "" then " | session: " + sessionId.value else "";
      |r| == |head| + |list| + |sessionPart| && r[|head|..|head| + |list|] == list
  {
    var sessionPart := if sessionId.Some? && sessionId.value != "" then " | session: " + sessionId.value else "";
    var head := "[Reme] " + goal + " | files: ";
    var r := head + FileList(files) + sessionPart;
    assert r[..|head|] == head;
    r
  }

  /** Whatever the file part contains, the message contains. */
  lemma MessageHasFileList(goal: string, files: seq<string>, sessionId: Option<string>, sub: string)
    requires Text.Contains(FileList(files), sub)
    ensures Text.Contains(CommitMessage(goal, files, sessionId), sub)
  {
    var list := FileList(files);
    var sessionPart := if sessionId.Some? && sessionId.value != "" then " | session: " + sessionId.value else "";
    var head := "[Reme] " + goal + " | files: ";
    assert CommitMessage(goal, files, sessionId) == head + list + sessionPart;
    Text.ContainsAppend(head, list, sub);
    Text.ContainsAppend(head + list, sessionPart, sub);
  }

  /** Each of the first five files is named in the message. */
  lemma CommitNamesFiles(goal: string, files: seq<string>, sessionId: Option<string>, i: nat)
    requires i < |files| && i < 5
    ensures Text.Contains(CommitMessage(goal, files, sessionId), files[i])
  {
    FileListNames(files, i);
    MessageHasFileList(goal, files, sessionId, files[i]);
  }

  /** The text that counts the files left out. */
  function MoreCount(n: nat): string {
    "(+" + Text.NatToString(n) + " more)"
  }

  /** With more than five files the file part is the first five, then `... `
      and the count of the others. */
  lemma FileListShape(files: seq<string>)
    requires |files| > 5
    ensures FileList(files) == Text.Join(files[..5], ", ") + ("... " + MoreCount(|files| - 5))
  {
    var m := |files| - 5;
    var digits := Text.NatToString(m);
    assert Text.IntToString(m) == digits;
    assert "... (+" + digits + " more)" == "... " + MoreCount(m);
  }

  /** Each of the first five files is named in the file part. */
  lemma FileListNames(files: seq<string>, i: nat)
    requires i < |files| && i < 5
    ensures Text.Contains(FileList(files), files[i])
  {
    if |files| > 5 {
      var shown := files[..5];
      assert shown[i] == files[i];
      Text.JoinContains(shown, ", ", i);
      FileListShape(files);
      Text.ContainsAppend(Text.Join(shown, ", "), "... " + MoreCount(|files| - 5), files[i]);
    } else {
      Text.JoinContains(files, ", ", i);
    }
  }

  /** With more than five files the file part ends with a count of the others. */
  lemma FileListCounts(files: seq<string>)
    requires |files| > 5
    ensures Text.Contains(FileList(files), MoreCount(|files| - 5))
  {
    var count := MoreCount(|files| - 5);
    FileListShape(files);
    Text.ContainsSelf(count);
    Text.ContainsAppend("... ", count, count);
    Text.ContainsAppend(Text.Join(files[..5], ", "), "... " + count, count);
  }

  /** With more than five files the message counts the others, and the count
      reads back as the number left out. */
  lemma CommitCountsRest(goal: string, files: seq<string>, sessionId: Option<string>)
    requires |files| > 5
    ensures Text.Contains(CommitMessage(goal, files, sessionId), "(+" + Text.NatToString(|files| - 5) + " more)")
    ensures Text.DigitsValue(Text.NatToString(|files| - 5)) == |files| - 5
  {
    FileListCounts(files);
    MessageHasFileList(goal, files, sessionId, MoreCount(|files| - 5));
    Text.DecimalRoundTrip(|files| - 5);
  }

  // ---------------------------------------------------------------------------
  // Feature branch names

  /** The characters a sanitised goal is made of, besides `-`. */
  predicate IsSlugChar(c: char) {
    ('a' <= c <= 'z') || ('0' <= c <= '9')
  }

  /** What `replace(/[^a-z0-9\s]/g, '')` keeps. */
  predicate KeptByStrip(c: char) {
    IsSlugChar(c) || Text.IsSpace(c)
  }

  predicate NotSpace(c: char) {
    !Text.IsSpace(c)
  }

  predicate NotHyphen(c: char) {
    c != '-'
  }

  /** No two hyphens in a row. */
  predicate NoDoubleHyphen(s: string) {
    forall i :: 0 <= i < |s| - 1 ==> !(s[i] == '-' && s[i + 1] == '-')
  }

  /** `replace(/\s+/g, '-')`: each maximal run of white space becomes one `-`. */
  function Collapse(s: string): (r: string)
    ensures |r| <= |s|
    decreases |s|
  {
    if |s| == 0 then ""
    else if Text.IsSpace(s[0]) then
      var t := Text.TrimStart(s);
      assert |t| < |s|;
      "-" + Collapse(t)
    else
      [s[0]] + Collapse(s[1..])
  }

  /** `c` is a `-`, or a character of `s` other than white space. */
  predicate CollapsedChar(s: string, c: char) {
    c == '-' || (c in s && !Text.IsSpace(c))
  }

  /** What `Collapse` writes is a `-` or a character of its input other than
      white space; it starts with `-` only where the input starts with white
      space or `-`. */
  lemma {:induction false} CollapseChars(s: string)
    ensures forall i :: 0 <= i < |Collapse(s)| ==> CollapsedChar(s, Collapse(s)[i])
    ensures |Collapse(s)| > 0 && Collapse(s)[0] == '-' ==> Text.IsSpace(s[0]) || s[0] == '-'
    decreases |s|
  {
    if |s| > 0 {
      var r := Collapse(s);
      var t := if Text.IsSpace(s[0]) then Text.TrimStart(s) else s[1..];
      CollapseChars(t);
      assert forall c :: c in t ==> c in s;
      assert r[1..] == Collapse(t);
      forall i | 1 <= i < |r|
        ensures CollapsedChar(s, r[i])
      {
        assert r[i] == Collapse(t)[i - 1];
      }
    }
  }

  /** Without a `-` in the input, `Collapse` never writes two in a row. */
  lemma {:induction false} CollapseNoDoubleHyphen(s: string)
    requires '-' !in s
    ensures NoDoubleHyphen(Collapse(s))
    decreases |s|
  {
    if |s| > 0 {
      if Text.IsSpace(s[0]) {
        var t := Text.TrimStart(s);
        assert forall c :: c in t ==> c in s;
        CollapseNoDoubleHyphen(t);
        CollapseChars(t);
      } else {
        CollapseNoDoubleHyphen(s[1..]);
      }
    }
  }

  /** Dropping leading white space does not change the non-space characters. */
  lemma {:induction false} TrimStartKeepsWords(s: string)
    ensures Seqs.Filter(Text.TrimStart(s), NotSpace) == Seqs.Filter(s, NotSpace)
    decreases |s|
  {
    if |s| > 0 && Text.IsSpace(s[0]) {
      TrimStartKeepsWords(s[1..]);
    }
  }

  /** The hyphens `Collapse` writes stand exactly for the white space it removes:
      without them, what is left is the input without its white space. */
  lemma {:induction false} CollapseKeepsWords(s: string)
    requires '-' !in s
    ensures Seqs.Filter(Collapse(s), NotHyphen) == Seqs.Filter(s, NotSpace)
    decreases |s|
  {
    if |s| > 0 {
      if Text.IsSpace(s[0]) {
        var t := Text.TrimStart(s);
        assert forall c :: c in t ==> c in s;
        CollapseKeepsWords(t);
        TrimStartKeepsWords(s);
        assert ("-" + Collapse(t))[1..] == Collapse(t);
      } else {
        CollapseKeepsWords(s[1..]);
        assert ([s[0]] + Collapse(s[1..]))[1..] == Collapse(s[1..]);
      }
    }
  }

  /** Removing the white space of the stripped text leaves its letters and digits. */
  lemma {:induction false} StripKeepsSlugChars(s: string)
    ensures Seqs.Filter(Seqs.Filter(s, KeptByStrip), NotSpace) == Seqs.Filter(s, IsSlugChar)
    decreases |s|
  {
    if |s| > 0 {
      StripKeepsSlugChars(s[1..]);
      if KeptByStrip(s[0]) {
        assert ([s[0]] + Seqs.Filter(s[1..], KeptByStrip))[1..] == Seqs.Filter(s[1..], KeptByStrip);
      }
    }
  }

  /** The goal lower-cased and stripped to letters, digits and white space. */
  function Stripped(goal: string): (r: string)
    ensures '-' !in r
  {
    var r := Seqs.Filter(Text.ToLower(goal), KeptByStrip);
    assert !KeptByStrip('-');
    r
  }

  lemma StrippedChars(goal: string, c: char)
    requires c in Stripped(goal)
    ensures KeptByStrip(c)
  {
  }

  /** `Stripped` with its white-space runs turned into `-`, before the cut. */
  function Hyphenated(goal: string): string {
    Collapse(Stripped(goal))
  }

  /** `createFeatureBranch`'s goal: lower-cased, stripped to letters, digits and
      white space, runs of white space turned into `-`, cut to 30 characters. */
  function SanitizeGoal(goal: string): (r: string)
    ensures |r| <= 30
    ensures forall i :: 0 <= i < |r| ==> IsSlugChar(r[i]) || r[i] == '-'
    ensures NoDoubleHyphen(r)
  {
    var stripped := Stripped(goal);
    var collapsed := Collapse(stripped);
    CollapseChars(stripped);
    CollapseNoDoubleHyphen(stripped);
    var r := Seqs.SliceTo(collapsed, 30);
    assert forall i :: 0 <= i < |r| ==> IsSlugChar(r[i]) || r[i] == '-' by {
      forall i | 0 <= i < |r|
        ensures IsSlugChar(r[i]) || r[i] == '-'
      {
        var c := collapsed[i];
        assert r[i] == c;
        assert CollapsedChar(stripped, c);
        if c != '-' {
          StrippedChars(goal, c);
        }
      }
    }
    r
  }

  /** Filtering a prefix gives a prefix of the filtered whole. */
  lemma FilterPrefix(s: string, k: nat, p: char -> bool)
    requires k <= |s|
    ensures var f := Seqs.Filter(s[..k], p);
      |f| <= |Seqs.Filter(s, p)| && f == Seqs.Filter(s, p)[..|f|]
  {
    assert s == s[..k] + s[k..];
    Seqs.FilterAppend(s[..k], s[k..], p);
  }

  /** Nothing of the goal's letters and digits is lost but what the cut removes:
      without its hyphens, the sanitised goal is a prefix of the lower-cased
      goal's letters and digits, and all of them when nothing was cut. */
  lemma SanitizeKeepsLetters(goal: string)
    ensures var letters := Seqs.Filter(Text.ToLower(goal), IsSlugChar);
      var kept := Seqs.Filter(SanitizeGoal(goal), NotHyphen);
      && |kept| <= |letters| && kept == letters[..|kept|]
      && (|Hyphenated(goal)| <= 30 ==> kept == letters)
  {
    var stripped := Stripped(goal);
    var full := Hyphenated(goal);
    CollapseKeepsWords(stripped);
    StripKeepsSlugChars(Text.ToLower(goal));
    assert Seqs.Filter(full, NotHyphen) == Seqs.Filter(Text.ToLower(goal), IsSlugChar);
    var r := SanitizeGoal(goal);
    assert r == full[..|r|];
    FilterPrefix(full, |r|, NotHyphen);
    if |full| <= 30 {
      assert full[..|r|] == full;
    }
  }

  /** A goal that is already a short run of letters and digits is kept as is. */
  lemma {:induction false} SlugGoalUnchanged(goal: string)
    requires |goal| <= 30 && forall i :: 0 <= i < |goal| ==> IsSlugChar(goal[i])
    ensures SanitizeGoal(goal) == goal
  {
    SlugLowerUnchanged(goal);
    KeptFilterUnchanged(goal);
    SlugCollapseUnchanged(goal);
  }

  lemma {:induction false} SlugLowerUnchanged(s: string)
    requires forall i :: 0 <= i < |s| ==> IsSlugChar(s[i])
    ensures Text.ToLower(s) == s
    decreases |s|
  {
    if |s| > 0 {
      SlugLowerUnchanged(s[1..]);
    }
  }

  lemma {:induction false} KeptFilterUnchanged(s: string)
    requires forall i :: 0 <= i < |s| ==> KeptByStrip(s[i])
    ensures Seqs.Filter(s, KeptByStrip) == s
    decreases |s|
  {
    if |s| > 0 {
      KeptFilterUnchanged(s[1..]);
      assert s == [s[0]] + s[1..];
    }
  }

  lemma {:induction false} SlugCollapseUnchanged(s: string)
    requires forall i :: 0 <= i < |s| ==> IsSlugChar(s[i])
    ensures Collapse(s) == s
    decreases |s|
  {
    if |s| > 0 {
      SlugCollapseUnchanged(s[1..]);
      assert s == [s[0]] + s[1..];
    }
  }

  /** The name `createFeatureBranch` asks for. */
  function BranchName(goal: string, sessionId: string): (r: string)
    ensures |r| <= 44
    ensures |r| >= 6 && r[..5] == "feat/"
  {
    var g := SanitizeGoal(goal);
    var id := Seqs.SliceTo(sessionId, 8);
    var r := "feat/" + g + "-" + id;
    assert |r| == 6 + |g| + |id|;
    assert r[..5] == "feat/";
    r
  }

  /** The branch name splits back into the sanitised goal and at most eight
      characters of the session id: the goal has no `/`, and the id part follows
      the last `-` when the id holds none. */
  lemma BranchNameParts(goal: string, sessionId: string)
    ensures var r := BranchName(goal, sessionId);
      var g := SanitizeGoal(goal);
      var id := Seqs.SliceTo(sessionId, 8);
      && r[5..5 + |g|] == g
      && '/' !in g
      && r[5 + |g|] == '-'
      && r[6 + |g|..] == id
      && |id| == (if |sessionId| < 8 then |sessionId| else 8)
      && id == sessionId[..|id|]
  {
    var g := SanitizeGoal(goal);
    var id := Seqs.SliceTo(sessionId, 8);
    var r := BranchName(goal, sessionId);
    assert r == "feat/" + g + "-" + id;
    assert r[5..5 + |g|] == g;
    assert r[6 + |g|..] == id;
    assert '/' !in g by {
      forall i | 0 <= i < |g|
        ensures g[i] != '/'
      {
        assert IsSlugChar(g[i]) || g[i] == '-';
      }
    }
  }

  /** Leading white space is dropped up to the first other character. */
  lemma {:induction false} TrimStartRun(w: string, b: string)
    requires forall i :: 0 <= i < |w| ==> Text.IsSpace(w[i])
    requires |b| == 0 || !Text.IsSpace(b[0])
    ensures Text.TrimStart(w + b) == b
    decreases |w|
  {
    if |w| > 0 {
      assert (w + b)[1..] == w[1..] + b;
      TrimStartRun(w[1..], b);
    } else {
      assert w + b == b;
    }
  }

  /** A string that starts with a run of white space collapses that run to one `-`. */
  lemma CollapseLeadingRun(w: string, b: string)
    requires |w| > 0 && forall i :: 0 <= i < |w| ==> Text.IsSpace(w[i])
    requires |b| == 0 || !Text.IsSpace(b[0])
    ensures Collapse(w + b) == "-" + Collapse(b)
  {
    assert (w + b)[0] == w[0];
    TrimStartRun(w, b);
  }

  /** A word character in front is kept as it is. */
  lemma CollapseWordHead(c: char, t: string)
    requires !Text.IsSpace(c)
    ensures Collapse([c] + t) == [c] + Collapse(t)
  {
    assert ([c] + t)[1..] == t;
  }

  /** A maximal run of white space after a word becomes exactly one `-`, and the
      text on either side is collapsed on its own. */
  lemma {:induction false} CollapseRun(a: string, w: string, b: string)
    requires forall i :: 0 <= i < |a| ==> !Text.IsSpace(a[i])
    requires |w| > 0 && forall i :: 0 <= i < |w| ==> Text.IsSpace(w[i])
    requires |b| == 0 || !Text.IsSpace(b[0])
    ensures Collapse(a + w + b) == a + "-" + Collapse(b)
    decreases |a|
  {
    if |a| == 0 {
      assert a + w + b == w + b;
      CollapseLeadingRun(w, b);
    } else {
      var t := a[1..] + w + b;
      assert a + w + b == [a[0]] + t;
      CollapseWordHead(a[0], t);
      CollapseRun(a[1..], w, b);
      assert a + "-" + Collapse(b) == [a[0]] + (a[1..] + "-" + Collapse(b));
    }
  }
}
