/** The files the background session handler writes from a model reply: every
    fenced block becomes one file, named by a `filename:`/`file:`/`path:` marker
    line inside it or else by the fence's language, with the marker lines cut
    out of the saved text. The regular expressions of the handler are written
    out as scans. */
module CodeBlocks {
  import opened Wrappers
  import opened Schema
  import opened Storage
  import Text

  const Fence := "```"

  // ---------------------------------------------------------------------------
  // Fenced blocks

  /** A fence, three backticks, starts at `i`. */
  predicate FenceAt(s: string, i: nat) {
    i + 3 <= |s| && s[i] == '`' && s[i + 1] == '`' && s[i + 2] == '`'
  }

  /** `FenceAt` is an occurrence of `Fence`. */
  lemma FenceAtIsAt(s: string, i: nat)
    ensures FenceAt(s, i) <==> Text.At(s, Fence, i)
  {
    if i + 3 <= |s| {
      var w := s[i..i + 3];
      assert w[0] == s[i] && w[1] == s[i + 1] && w[2] == s[i + 2];
      assert FenceAt(s, i) ==> w == Fence;
    }
  }

  /** `reply.indexOf('```', from)`: the first fence at or after `from`. */
  function NextFence(s: string, from: nat): (r: Option<nat>)
    ensures r.Some? ==> from <= r.value && FenceAt(s, r.value)
    decreases |s| - from
  {
    if from + 3 > |s| then None
    else if FenceAt(s, from) then Some(from)
    else NextFence(s, from + 1)
  }

  /** The scan agrees with searching for the text of a fence. */
  lemma {:induction false} NextFenceIsIndexOf(s: string, from: nat)
    ensures NextFence(s, from) == Text.IndexOf(s, Fence, from)
    decreases |s| - from
  {
    FenceAtIsAt(s, from);
    if from + 3 <= |s| {
      NextFenceIsIndexOf(s, from + 1);
    }
  }

  /** No fence lies between `from` and the one the scan finds. */
  lemma {:induction false} NextFenceFirst(s: string, from: nat, k: nat)
    requires from <= k && (NextFence(s, from).None? || k < NextFence(s, from).value)
    ensures !FenceAt(s, k)
    decreases |s| - from
  {
    if from + 3 <= |s| && !FenceAt(s, from) && from < k {
      NextFenceFirst(s, from + 1, k);
    }
  }

  /** The scan finds a fence that has no earlier one after `from`. */
  lemma {:induction false} NextFenceFinds(s: string, from: nat, at: nat)
    requires from <= at && FenceAt(s, at)
    requires forall k: nat :: from <= k < at ==> !FenceAt(s, k)
    ensures NextFence(s, from) == Some(at)
    decreases at - from
  {
    if from < at {
      NextFenceFinds(s, from + 1, at);
    }
  }

  /** `reply.match(/```[\s\S]*?```/g)` from index `from` on: each fence together
      with the text up to the next fence. Blocks do not overlap, and each holds
      two fences, so there are at most a sixth as many blocks as characters. */
  function FencedBlocks(s: string, from: nat): (r: seq<string>)
    requires from <= |s|
    ensures 6 * |r| <= |s| - from
    ensures forall b :: b in r ==> |b| >= 6
    decreases |s| - from
  {
    match NextFence(s, from)
    case None => []
    case Some(i) =>
      match NextFence(s, i + 3)
      case None => []
      case Some(j) =>
        assert from <= i && i + 3 <= j && j + 3 <= |s| by {
          assert FenceAt(s, i) && FenceAt(s, j);
        }
        [s[i..j + 3]] + FencedBlocks(s, j + 3)
  }

  /** `b` starts and ends with a fence and holds no other. */
  predicate IsBlock(b: string) {
    && |b| >= 6 && FenceAt(b, 0) && FenceAt(b, |b| - 3)
    && forall k :: 3 <= k < |b| - 3 ==> !FenceAt(b, k)
  }

  /** Every block starts and ends with a fence, and its closing fence is the
      first one after its opening fence. */
  lemma {:induction false} BlocksAreFenced(s: string, from: nat)
    requires from <= |s|
    ensures forall k :: 0 <= k < |FencedBlocks(s, from)| ==> IsBlock(FencedBlocks(s, from)[k])
    decreases |s| - from
  {
    var r := FencedBlocks(s, from);
    match NextFence(s, from)
    case None =>
      assert r == [];
    case Some(i) =>
      match NextFence(s, i + 3)
      case None =>
        assert r == [];
      case Some(j) =>
        assert FenceAt(s, i) && FenceAt(s, j);
        var rest := FencedBlocks(s, j + 3);
        assert r == [s[i..j + 3]] + rest;
        BlockShape(s, i, j);
        BlocksAreFenced(s, j + 3);
        forall k | 0 <= k < |r|
          ensures IsBlock(r[k])
        {
          if k > 0 {
            assert r[k] == rest[k - 1];
          } else {
            assert r[0] == s[i..j + 3];
          }
        }
  }

  /** The text from a fence to the next one starts and ends with a fence and
      holds no other. */
  lemma BlockShape(s: string, i: nat, j: nat)
    requires FenceAt(s, i) && i + 3 <= j && NextFence(s, i + 3) == Some(j)
    ensures j + 3 <= |s| && IsBlock(s[i..j + 3])
  {
    assert FenceAt(s, j);
    var b := s[i..j + 3];
    assert |b| == j + 3 - i;
    assert FenceAt(b, 0) by {
      assert b[0] == s[i] && b[1] == s[i + 1] && b[2] == s[i + 2];
    }
    assert FenceAt(b, |b| - 3) by {
      assert b[|b| - 3] == s[j] && b[|b| - 2] == s[j + 1] && b[|b| - 1] == s[j + 2];
    }
    forall k | 3 <= k < |b| - 3
      ensures !FenceAt(b, k)
    {
      NextFenceFirst(s, i + 3, i + k);
      assert b[k] == s[i + k] && b[k + 1] == s[i + k + 1] && b[k + 2] == s[i + k + 2];
    }
  }

  /** A reply without a fence has no blocks, so it writes no file. */
  lemma NoFenceNoBlocks(s: string)
    requires !Text.Contains(s, Fence)
    ensures FencedBlocks(s, 0) == []
  {
    NextFenceIsIndexOf(s, 0);
    Text.IndexOfFinds(s, Fence);
  }

  /** A single fenced block whose body has no backtick is found whole. */
  lemma SingleBlock(body: string)
    requires '`' !in body
    ensures FencedBlocks(Fence + body + Fence, 0) == [Fence + body + Fence]
  {
    var s := Fence + body + Fence;
    var n := |body| + 3;
    assert NextFence(s, 0) == Some(0) by {
      assert FenceAt(s, 0);
    }
    assert NextFence(s, 3) == Some(n) by {
      forall k: nat | 3 <= k < n
        ensures !FenceAt(s, k)
      {
        assert s[k] == body[k - 3];
      }
      assert s[n] == '`' && s[n + 1] == '`' && s[n + 2] == '`';
      NextFenceFinds(s, 3, n);
    }
    assert FencedBlocks(s, n + 3) == [];
    assert s[0..n + 3] == s;
  }

  // ---------------------------------------------------------------------------
  // The lines of a block

  /** `lines.slice(1, -1)`: every line but the first and the last. */
  function Inner(lines: seq<string>): (r: seq<string>)
    ensures |lines| >= 2 ==> r == lines[1..|lines| - 1]
    ensures |lines| < 2 ==> r == []
  {
    if |lines| >= 2 then lines[1..|lines| - 1] else []
  }

  /** The block's text between its first and its last line break, which is what
      `lines.slice(1, -1).join('\n')` rebuilds. */
  lemma InnerText(block: string)
    ensures var lines := Text.Split(block, '\n');
      |lines| < 3 ==> Text.Join(Inner(lines), "\n") == ""
    ensures var lines := Text.Split(block, '\n');
      |lines| >= 3 ==>
        && |lines[0]| + 1 <= |block| - |lines[|lines| - 1]| - 1
        && Text.Join(Inner(lines), "\n") == block[|lines[0]| + 1..|block| - |lines[|lines| - 1]| - 1]
  {
    var lines := Text.Split(block, '\n');
    var n := |lines|;
    if n >= 3 {
      var mid := Text.Join(lines[1..n - 1], "\n");
      assert block == lines[0] + "\n" + mid + "\n" + lines[n - 1] by {
        Text.JoinSplit(block, '\n');
        JoinEnds(lines, "\n");
      }
      MiddleSlice(lines[0], mid, lines[n - 1]);
    }
  }

  /** The middle of `a \n m \n c`, cut at the outer separators, is `m`. */
  lemma MiddleSlice(a: string, m: string, c: string)
    ensures var s := a + "\n" + m + "\n" + c;
      |a| + 1 <= |s| - |c| - 1 && s[|a| + 1..|s| - |c| - 1] == m
  {
    var s := a + "\n" + m + "\n" + c;
    assert s[|a| + 1..|a| + 1 + |m|] == m;
  }

  /** A join of at least three parts, split at its first and last separator. */
  lemma {:induction false} JoinEnds(xs: seq<string>, sep: string)
    requires |xs| >= 3
    ensures Text.Join(xs, sep) == xs[0] + sep + Text.Join(xs[1..|xs| - 1], sep) + sep + xs[|xs| - 1]
    decreases |xs|
  {
    var n := |xs|;
    if n == 3 {
      assert xs[1..2] == [xs[1]];
      assert xs[1..][1..] == [xs[2]];
    } else {
      JoinEnds(xs[1..], sep);
      assert xs[1..][1..n - 2] == xs[2..n - 1];
      assert xs[1..n - 1][1..] == xs[2..n - 1];
      assert xs[1..][n - 2] == xs[n - 1];
      assert |xs[1..n - 1]| >= 2;
    }
  }

  // ---------------------------------------------------------------------------
  // The file name

  /** The line includes one of the three markers (case-sensitive). */
  predicate HasMarker(line: string) {
    Text.Contains(line, "filename:") || Text.Contains(line, "file:") || Text.Contains(line, "path:")
  }

  /** `contentLines.find(line => ...)`: the first line with a marker. */
  function FindMarkerLine(lines: seq<string>): (r: Option<string>)
    ensures r.None? <==> forall i :: 0 <= i < |lines| ==> !HasMarker(lines[i])
    ensures r.Some? ==> HasMarker(r.value)
    ensures r.Some? ==>
      exists i :: 0 <= i < |lines| && lines[i] == r.value && forall j :: 0 <= j < i ==> !HasMarker(lines[j])
  {
    if |lines| == 0 then None
    else if HasMarker(lines[0]) then Some(lines[0])
    else
      var r := FindMarkerLine(lines[1..]);
      assert r.Some? ==> exists i :: 0 <= i < |lines| && lines[i] == r.value
                           && forall j :: 0 <= j < i ==> !HasMarker(lines[j]) by {
        if r.Some? {
          var i :| 0 <= i < |lines[1..]| && lines[1..][i] == r.value && forall j :: 0 <= j < i ==> !HasMarker(lines[1..][j]);
          assert lines[i + 1] == r.value;
        }
      }
      r
  }

  /** The length of the marker that starts at `p` of the lower-cased line, if any
      (at one position at most one of them can start). */
  function MarkerAt(lower: string, p: nat): (r: nat)
    ensures r == 0 || r == 5 || r == 9
    ensures r > 0 ==> p + r <= |lower|
  {
    if Text.At(lower, "filename:", p) then 9
    else if Text.At(lower, "file:", p) then 5
    else if Text.At(lower, "path:", p) then 5
    else 0
  }

  /** The first index at or after `i` that is not white space (`\s*`). */
  function SkipSpaces(s: string, i: nat): (r: nat)
    requires i <= |s|
    ensures i <= r <= |s|
    ensures forall k :: i <= k < r ==> Text.IsSpace(s[k])
    ensures r == |s| || !Text.IsSpace(s[r])
    decreases |s| - i
  {
    if i < |s| && Text.IsSpace(s[i]) then SkipSpaces(s, i + 1) else i
  }

  /** A token character of `[^\s,]`. */
  predicate IsTokenChar(c: char) {
    !Text.IsSpace(c) && c != ','
  }

  /** The end of the run of token characters from `i`. */
  function TokenEnd(s: string, i: nat): (r: nat)
    requires i <= |s|
    ensures i <= r <= |s|
    ensures forall k :: i <= k < r ==> IsTokenChar(s[k])
    ensures r == |s| || !IsTokenChar(s[r])
    decreases |s| - i
  {
    if i < |s| && IsTokenChar(s[i]) then TokenEnd(s, i + 1) else i
  }

  /** `line.match(/(?:filename:|file:|path:)\s*([^\s,]+)/i)` from position `p` on:
      the leftmost marker (in any case) followed, after optional white space, by
      at least one token character; the capture is the whole token. */
  function MarkerToken(line: string, p: nat): (r: Option<string>)
    requires p <= |line|
    ensures r.Some? ==> |r.value| > 0 && forall k :: 0 <= k < |r.value| ==> IsTokenChar(r.value[k])
    ensures r.Some? ==> Text.Contains(line, r.value)
    decreases |line| - p
  {
    if p == |line| then None
    else
      var lower := Text.ToLower(line);
      var m := MarkerAt(lower, p);
      var q := if m > 0 then SkipSpaces(line, p + m) else p;
      var e := TokenEnd(line, q);
      if m > 0 && e > q then
        assert Text.At(line, line[q..e], q);
        Some(line[q..e])
      else MarkerToken(line, p + 1)
  }

  /** The fallback name for a block without a marker line, from the lower-cased
      opening fence line: html, then javascript or js, then css, then python or
      py. The `catch` branch (`errorPath`) only knows `html`; as written that
      branch never gets this far, so only `SessionReply.CreateSessionIntended`
      uses it. */
  function LanguageDefault(first: string, errorPath: bool): (r: string)
    ensures Text.Contains(first, "html") ==> r == "index.html"
    ensures !Text.Contains(first, "html") && errorPath ==> r == "untitled.txt"
    ensures !errorPath && !Text.Contains(first, "html") && (Text.Contains(first, "javascript") || Text.Contains(first, "js")) ==>
      r == "script.js"
    ensures (!errorPath && !Text.Contains(first, "html") && !Text.Contains(first, "javascript") && !Text.Contains(first, "js")
             && Text.Contains(first, "css")) ==> r == "styles.css"
    ensures (!errorPath && !Text.Contains(first, "html") && !Text.Contains(first, "javascript") && !Text.Contains(first, "js")
             && !Text.Contains(first, "css") && (Text.Contains(first, "python") || Text.Contains(first, "py"))) ==> r == "main.py"
    ensures r in {"index.html", "script.js", "styles.css", "main.py", "untitled.txt"}
    ensures r == "script.js" ==> Text.Contains(first, "javascript") || Text.Contains(first, "js")
    ensures r == "styles.css" ==> Text.Contains(first, "css")
    ensures r == "main.py" ==> Text.Contains(first, "python") || Text.Contains(first, "py")
    ensures r == "untitled.txt" && !errorPath ==>
      !Text.Contains(first, "html") && !Text.Contains(first, "js") && !Text.Contains(first, "css") && !Text.Contains(first, "py")
  {
    if Text.Contains(first, "html") then "index.html"
    else if errorPath then "untitled.txt"
    else if Text.Contains(first, "javascript") || Text.Contains(first, "js") then "script.js"
    else if Text.Contains(first, "css") then "styles.css"
    else if Text.Contains(first, "python") || Text.Contains(first, "py") then "main.py"
    else "untitled.txt"
  }

  /** The fence line of a JSON block names it a script: `json` includes `js`. */
  lemma JsonFenceIsScript()
    ensures LanguageDefault("```json", false) == "script.js"
  {
    assert Text.At("```json", "js", 3);
    Text.ContainsHead("```json", "html");
    assert 'h' !in "```json";
  }

  /** The name of the file a block is saved under. */
  function FileName(firstLine: string, contentLines: seq<string>, errorPath: bool): (r: string)
    ensures |r| > 0
    // a marker line decides, even when no token follows its marker
    ensures FindMarkerLine(contentLines).Some? ==>
      var line := FindMarkerLine(contentLines).value;
      r == (if MarkerToken(line, 0).Some? then MarkerToken(line, 0).value else "untitled.txt")
    ensures FindMarkerLine(contentLines).None? ==> r == LanguageDefault(Text.ToLower(firstLine), errorPath)
  {
    match FindMarkerLine(contentLines)
    case Some(line) => MarkerToken(line, 0).GetOr("untitled.txt")
    case None => LanguageDefault(Text.ToLower(firstLine), errorPath)
  }

  // ---------------------------------------------------------------------------
  // Marker lines cut out of the content

  /** `^` in multi-line mode: the start of the text or just after a line terminator. */
  predicate LineStart(s: string, p: nat)
    requires p <= |s|
  {
    p == 0 || Text.IsLineTerminator(s[p - 1])
  }

  /** The first line terminator at or after `i`, or the end (`.*$`). */
  function LineEnd(s: string, i: nat): (r: nat)
    requires i <= |s|
    ensures i <= r <= |s|
    ensures forall k :: i <= k < r ==> !Text.IsLineTerminator(s[k])
    ensures r == |s| || Text.IsLineTerminator(s[r])
    decreases |s| - i
  {
    if i < |s| && !Text.IsLineTerminator(s[i]) then LineEnd(s, i + 1) else i
  }

  /** The end of a match of `^\s*\/\/\s*(?:filename:|file:|path:).*$` (multi-line,
      case-sensitive) starting at `p`, if one starts there. Both `\s*` may run
      across line breaks. */
  function MarkerLineEnd(s: string, p: nat): (r: Option<nat>)
    requires p <= |s|
    ensures r.Some? ==> p < r.value <= |s|
    ensures r.Some? ==> exists q :: p <= q && Text.At(s, "//", q) && q + 2 <= r.value
  {
    if !LineStart(s, p) then None
    else
      var q := SkipSpaces(s, p);
      if !Text.At(s, "//", q) then None
      else
        var m := SkipSpaces(s, q + 2);
        var n := if Text.At(s, "filename:", m) then 9
                 else if Text.At(s, "file:", m) || Text.At(s, "path:", m) then 5
                 else 0;
        if n == 0 then None else Some(LineEnd(s, m + n))
  }

  /** `content.replace(/^\s*\/\/\s*(?:filename:|file:|path:).*$/gm, '')` from `i`
      on: every match, scanned left to right, is dropped. */
  function StripMarkerLines(s: string, i: nat): (r: string)
    requires i <= |s|
    ensures |r| <= |s| - i
    decreases |s| - i
  {
    if i == |s| then ""
    else match MarkerLineEnd(s, i)
      case Some(e) => StripMarkerLines(s, e)
      case None => [s[i]] + StripMarkerLines(s, i + 1)
  }

  /** Content without a `//` loses nothing. */
  lemma {:induction false} NoCommentKeepsContent(s: string, i: nat)
    requires i <= |s|
    requires !Text.Contains(s, "//")
    ensures StripMarkerLines(s, i) == s[i..]
    decreases |s| - i
  {
    if i < |s| {
      assert MarkerLineEnd(s, i).None?;
      NoCommentKeepsContent(s, i + 1);
      assert s[i..] == [s[i]] + s[i + 1..];
    }
  }

  /** What survives of the content is drawn from it in order: the cut only deletes. */
  lemma {:induction false} StripOnlyDeletes(s: string, i: nat)
    requires i <= |s|
    ensures forall c :: c in StripMarkerLines(s, i) ==> c in s[i..]
    decreases |s| - i
  {
    if i < |s| {
      var r := StripMarkerLines(s, i);
      match MarkerLineEnd(s, i)
      case Some(e) =>
        assert i < e <= |s|;
        assert r == StripMarkerLines(s, e);
        StripOnlyDeletes(s, e);
        forall c | c in r
          ensures c in s[i..]
        {
          var k :| 0 <= k < |s[e..]| && s[e..][k] == c;
          assert s[i..][e - i + k] == c;
        }
      case None =>
        assert r == [s[i]] + StripMarkerLines(s, i + 1);
        StripOnlyDeletes(s, i + 1);
        assert s[i..] == [s[i]] + s[i + 1..];
    }
  }

  // ---------------------------------------------------------------------------
  // From blocks to files

  /** The name and the saved text of one block. */
  function BlockFile(block: string, errorPath: bool): (r: (string, string))
    ensures |r.0| > 0
    ensures var lines := Text.Split(block, '\n');
      var content := Text.Join(Inner(lines), "\n");
      && r.0 == FileName(lines[0], Text.Split(content, '\n'), errorPath)
      && Text.Trim(r.1) == r.1
      && (!Text.Contains(content, "//") ==> r.1 == Text.Trim(content))
  {
    var lines := Text.Split(block, '\n');
    var content := Text.Join(Inner(lines), "\n");
    var name := FileName(lines[0], Text.Split(content, '\n'), errorPath);
    assert !Text.Contains(content, "//") ==> StripMarkerLines(content, 0) == content by {
      if !Text.Contains(content, "//") {
        NoCommentKeepsContent(content, 0);
        assert content[0..] == content;
      }
    }
    var saved := Text.Trim(StripMarkerLines(content, 0));
    TrimIdempotent(StripMarkerLines(content, 0));
    (name, saved)
  }

  /** Trimming twice trims once. */
  lemma TrimIdempotent(s: string)
    ensures Text.Trim(Text.Trim(s)) == Text.Trim(s)
  {
    var t := Text.Trim(s);
    if |t| > 0 {
      assert Text.TrimStart(t) == t;
      assert Text.TrimEnd(t) == t;
    }
  }

  /** The files a reply yields, one per fenced block and in block order. */
  function ExtractFiles(reply: string, errorPath: bool): (r: seq<(string, string)>)
    ensures |r| == |FencedBlocks(reply, 0)|
    ensures forall k :: 0 <= k < |r| ==> r[k] == BlockFile(FencedBlocks(reply, 0)[k], errorPath)
  {
    var blocks := FencedBlocks(reply, 0);
    seq(|blocks|, k requires 0 <= k < |blocks| => BlockFile(blocks[k], errorPath))
  }

  /** Reference definition: the text of the last write to `path`. */
  function LastWrite(writes: seq<(string, string)>, path: string): (r: Option<string>)
    ensures r.None? <==> forall k :: 0 <= k < |writes| ==> writes[k].0 != path
    decreases |writes|
  {
    if |writes| == 0 then None
    else
      var n := |writes| - 1;
      if writes[n].0 == path then Some(writes[n].1)
      else
        assert forall k :: 0 <= k < n ==> writes[..n][k] == writes[k];
        LastWrite(writes[..n], path)
  }

  /** The last write to a path is one of the writes, and no later one names it. */
  lemma {:induction false} LastWriteIsLast(writes: seq<(string, string)>, path: string)
    requires LastWrite(writes, path).Some?
    ensures exists k :: 0 <= k < |writes| && writes[k] == (path, LastWrite(writes, path).value)
                        && forall j :: k < j < |writes| ==> writes[j].0 != path
    decreases |writes|
  {
    var n := |writes| - 1;
    var v := LastWrite(writes, path).value;
    if writes[n].0 == path {
      assert writes[n] == (path, v);
    } else {
      var front := writes[..n];
      assert LastWrite(front, path) == Some(v);
      LastWriteIsLast(front, path);
      var k :| 0 <= k < n && front[k] == (path, v) && forall j :: k < j < n ==> front[j].0 != path;
      assert writes[k] == front[k];
      forall j | k < j < |writes|
        ensures writes[j].0 != path
      {
        if j < n {
          assert writes[j] == front[j];
        }
      }
    }
  }

  /** The `saveFile` calls, in order: a later block overwrites an earlier one
      of the same name, and no other project's files change. */
  function SaveAll(st: Store, pid: Key, writes: seq<(string, string)>): (r: Store)
    ensures r == st.(files := r.files)
    ensures forall p :: GetFile(r, pid, p) == LastWrite(writes, p).GetOr(GetFile(st, pid, p))
    ensures forall q, p :: q != pid ==> GetFile(r, q, p) == GetFile(st, q, p)
    decreases |writes|
  {
    if |writes| == 0 then st
    else
      var n := |writes| - 1;
      var st1 := SaveAll(st, pid, writes[..n]);
      var r := SaveFile(st1, pid, writes[n].0, writes[n].1);
      assert forall p :: p != writes[n].0 ==> LastWrite(writes, p) == LastWrite(writes[..n], p);
      r
  }

  /** The saves read and write only the file table: two stores with the same
      files end with the same files. */
  lemma {:induction false} SaveAllSeesOnlyFiles(a: Store, b: Store, pid: Key, writes: seq<(string, string)>)
    requires a.files == b.files
    ensures SaveAll(a, pid, writes).files == SaveAll(b, pid, writes).files
    decreases |writes|
  {
    if |writes| > 0 {
      SaveAllSeesOnlyFiles(a, b, pid, writes[..|writes| - 1]);
    }
  }

  /** Every file named by a block holds, afterwards, the text of the last block
      with that name. */
  lemma SavedFromLastBlock(st: Store, pid: Key, reply: string, errorPath: bool, k: nat)
    requires k < |FencedBlocks(reply, 0)|
    ensures var files := ExtractFiles(reply, errorPath);
      var name := files[k].0;
      exists j :: k <= j < |files| && files[j].0 == name
        && GetFile(SaveAll(st, pid, files), pid, name) == files[j].1
  {
    var files := ExtractFiles(reply, errorPath);
    var name := files[k].0;
    var w := LastWrite(files, name);
    assert w.Some?;
    LastWriteIsLast(files, name);
    var j :| 0 <= j < |files| && files[j] == (name, w.value) && forall i :: j < i < |files| ==> files[i].0 != name;
    assert k <= j;
  }
}
