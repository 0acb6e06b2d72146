/** A proposed patch and the post-processing both agents apply to the model's
    answer: every hunk is renamed `<path>-<index>-<timestamp>` and marked
    unapproved. */
module Patches {
  import opened Schema
  import Text

  datatype PatchFile = PatchFile(path: string, changeType: ChangeType, hunks: seq<Hunk>)

  datatype Patch = Patch(summary: string, files: seq<PatchFile>)

  /** The id given to hunk `i` of the file at `path`. */
  function HunkId(path: string, i: nat, now: nat): string {
    path + "-" + Text.NatToString(i) + "-" + Text.NatToString(now)
  }

  /** The hunks of one file, renamed and unapproved; nothing else of a hunk changes. */
  function NormaliseHunks(path: string, hs: seq<Hunk>, now: nat): (r: seq<Hunk>)
    ensures |r| == |hs|
    ensures forall i :: 0 <= i < |r| ==> r[i].id == HunkId(path, i, now) && !r[i].approved
    ensures forall i :: 0 <= i < |r| ==> r[i].(id := hs[i].id, approved := hs[i].approved) == hs[i]
  {
    seq(|hs|, i requires 0 <= i < |hs| => hs[i].(id := HunkId(path, i, now), approved := false))
  }

  function NormaliseFile(f: PatchFile, now: nat): PatchFile {
    f.(hunks := NormaliseHunks(f.path, f.hunks, now))
  }

  /** The post-processing of a proposed patch: same summary, same files in the
      same order, each with its hunks renamed and unapproved. */
  function Normalise(p: Patch, now: nat): (r: Patch)
    ensures r.summary == p.summary && |r.files| == |p.files|
    ensures forall k :: 0 <= k < |r.files| ==>
      r.files[k].path == p.files[k].path && r.files[k].changeType == p.files[k].changeType
      && r.files[k].hunks == NormaliseHunks(p.files[k].path, p.files[k].hunks, now)
  {
    p.(files := seq(|p.files|, k requires 0 <= k < |p.files| => NormaliseFile(p.files[k], now)))
  }

  /** Post-processing an already processed patch (with the same timestamp) changes
      nothing. */
  lemma NormaliseIdempotent(p: Patch, now: nat)
    ensures Normalise(Normalise(p, now), now) == Normalise(p, now)
  {
    var q := Normalise(p, now);
    var r := Normalise(q, now);
    forall k | 0 <= k < |r.files|
      ensures r.files[k] == q.files[k]
    {
      assert r.files[k].hunks == q.files[k].hunks;
    }
  }

  /** In `a + [c] + x` with `c` not in `x`, the separator at `|a|` is the last one. */
  lemma LastSeparator(a: string, x: string, c: char)
    requires c !in x
    ensures var s := a + [c] + x; s[|a|] == c && forall k :: |a| < k < |s| ==> s[k] != c
  {
    var s := a + [c] + x;
    forall k | |a| < k < |s|
      ensures s[k] != c
    {
      assert s[k] == x[k - |a| - 1];
    }
  }

  /** Two strings ending in the separator and a separator-free tail split at the
      same place. */
  lemma SplitAtLast(a: string, x: string, b: string, y: string, c: char)
    requires a + [c] + x == b + [c] + y
    requires c !in x && c !in y
    ensures a == b && x == y
  {
    var s := a + [c] + x;
    LastSeparator(a, x, c);
    LastSeparator(b, y, c);
    assert |a| == |b|;
    assert x == s[|a| + 1..] == y;
    assert a == s[..|a|] == b;
  }

  /** With a fixed timestamp, a hunk id determines its file path and index. */
  lemma HunkIdInjective(p: string, i: nat, q: string, j: nat, now: nat)
    requires HunkId(p, i, now) == HunkId(q, j, now)
    ensures p == q && i == j
  {
    var t := Text.NatToString(now);
    var di := Text.NatToString(i);
    var dj := Text.NatToString(j);
    assert HunkId(p, i, now) == (p + "-" + di) + "-" + t;
    assert HunkId(q, j, now) == (q + "-" + dj) + "-" + t;
    var L := |HunkId(p, i, now)| - |t| - 1;
    assert (p + "-" + di) == HunkId(p, i, now)[..L];
    assert (q + "-" + dj) == HunkId(q, j, now)[..L];
    assert '-' !in di by {
      forall k | 0 <= k < |di| ensures di[k] != '-' { assert Text.IsDigit(di[k]); }
    }
    assert '-' !in dj by {
      forall k | 0 <= k < |dj| ensures dj[k] != '-' { assert Text.IsDigit(dj[k]); }
    }
    SplitAtLast(p, di, q, dj, '-');
    Text.NatToStringInjective(i, j);
  }

  /** After post-processing, hunk ids are distinct across the whole patch as long
      as the file paths are. */
  lemma NormalisedIdsDistinct(p: Patch, now: nat, k: nat, i: nat, l: nat, j: nat)
    requires var r := Normalise(p, now);
      k < |r.files| && l < |r.files| && i < |r.files[k].hunks| && j < |r.files[l].hunks|
    requires p.files[k].path == p.files[l].path ==> k == l
    requires k != l || i != j
    ensures var r := Normalise(p, now); r.files[k].hunks[i].id != r.files[l].hunks[j].id
  {
    var r := Normalise(p, now);
    if r.files[k].hunks[i].id == r.files[l].hunks[j].id {
      HunkIdInjective(p.files[k].path, i, p.files[l].path, j, now);
    }
  }
}
