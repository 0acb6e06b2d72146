/** String utilities shared by the model: the JavaScript string operations the
    source relies on (`toLowerCase`, `includes`, `indexOf`, `split`, `join`,
    `trim`, number-to-string), written over `seq<char>`. */
module Text {
  import opened Wrappers

  // ---------------------------------------------------------------------------
  // Case

  predicate IsUpperAscii(c: char) {
    'A' <= c <= 'Z'
  }

  /** Lower-cases an ASCII capital letter and leaves every other character alone. */
  function LowerChar(c: char): char {
    if IsUpperAscii(c) then (c as int + 32) as char else c
  }

  /** `String.prototype.toLowerCase`, restricted to ASCII letters. */
  function ToLower(s: string): (r: string)
    ensures |r| == |s|
    ensures forall i :: 0 <= i < |r| ==> !IsUpperAscii(r[i])
    ensures forall i :: 0 <= i < |s| && !IsUpperAscii(s[i]) ==> r[i] == s[i]
  {
    seq(|s|, i requires 0 <= i < |s| => LowerChar(s[i]))
  }

  /** Lower-casing twice is lower-casing once. */
  lemma ToLowerIdempotent(s: string)
    ensures ToLower(ToLower(s)) == ToLower(s)
  {
  }

  // ---------------------------------------------------------------------------
  // Substrings

  /** `sub` occurs in `s` starting at index `i`. */
  predicate At(s: string, sub: string, i: nat) {
    i + |sub| <= |s| && s[i..i + |sub|] == sub
  }

  /** An occurrence of `c` followed by `rest` is `c` at `i` and `rest` right after. */
  lemma AtCons(s: string, c: char, rest: string, i: nat)
    ensures At(s, [c] + rest, i) <==> i < |s| && s[i] == c && At(s, rest, i + 1)
  {
    if i + 1 + |rest| <= |s| {
      assert s[i..i + 1 + |rest|] == [s[i]] + s[i + 1..i + 1 + |rest|];
    }
  }

  /** `s.includes(sub)`. */
  predicate Contains(s: string, sub: string) {
    exists i: nat :: i <= |s| && At(s, sub, i)
  }

  /** `s.indexOf(sub, from)`, with `None` for -1: the first occurrence at or after `from`. */
  function IndexOf(s: string, sub: string, from: nat): (r: Option<nat>)
    ensures r.Some? ==> from <= r.value && At(s, sub, r.value)
    ensures forall j: nat :: from <= j && (r.None? || j < r.value) ==> !At(s, sub, j)
    decreases |s| - from
  {
    if from + |sub| > |s| then None
    else if At(s, sub, from) then Some(from)
    else IndexOf(s, sub, from + 1)
  }

  /** `indexOf(sub) !== -1` is `includes(sub)`. */
  lemma IndexOfFinds(s: string, sub: string)
    ensures IndexOf(s, sub, 0).Some? <==> Contains(s, sub)
  {
    if Contains(s, sub) {
      var i: nat :| i <= |s| && At(s, sub, i);
    }
  }

  /** Every string includes the empty string. */
  lemma ContainsEmpty(s: string)
    ensures Contains(s, "")
  {
    assert At(s, "", 0);
  }

  /** Whatever includes `a + b` includes `b`. */
  lemma ContainsSuffix(s: string, a: string, b: string)
    requires Contains(s, a + b)
    ensures Contains(s, b)
  {
    var i: nat :| i <= |s| && At(s, a + b, i);
    assert s[i + |a|..i + |a| + |b|] == (a + b)[|a|..];
    assert At(s, b, i + |a|);
  }

  /** A string contains itself. */
  lemma ContainsSelf(s: string)
    ensures Contains(s, s)
  {
    assert At(s, s, 0);
  }

  /** A substring of either part is a substring of the concatenation. */
  lemma ContainsAppend(a: string, b: string, sub: string)
    requires Contains(a, sub) || Contains(b, sub)
    ensures Contains(a + b, sub)
  {
    if Contains(a, sub) {
      var i: nat :| i <= |a| && At(a, sub, i);
      assert (a + b)[i..i + |sub|] == a[i..i + |sub|];
      assert At(a + b, sub, i);
    } else {
      var i: nat :| i <= |b| && At(b, sub, i);
      assert (a + b)[|a| + i..|a| + i + |sub|] == b[i..i + |sub|];
      assert At(a + b, sub, |a| + i);
    }
  }

  /** A piece between two others is included in the whole. */
  lemma ContainsMiddle(a: string, m: string, b: string)
    ensures Contains(a + m + b, m)
  {
    ContainsSelf(m);
    ContainsAppend(a, m, m);
    ContainsAppend(a + m, b, m);
  }

  /** Whatever a middle piece includes, the whole includes. */
  lemma ContainsWithin(a: string, m: string, b: string, sub: string)
    requires Contains(m, sub)
    ensures Contains(a + m + b, sub)
  {
    ContainsAppend(a, m, sub);
    ContainsAppend(a + m, b, sub);
  }

  /** A string that includes a non-empty `sub` holds its first character. */
  lemma ContainsHead(s: string, sub: string)
    ensures Contains(s, sub) && |sub| > 0 ==> sub[0] in s
  {
    if Contains(s, sub) && |sub| > 0 {
      var i: nat :| i <= |s| && At(s, sub, i);
      assert s[i] == s[i..i + |sub|][0];
    }
  }

  /** A joined list includes each of its items. */
  lemma {:induction false} JoinContains(xs: seq<string>, sep: string, i: nat)
    requires i < |xs|
    ensures Contains(Join(xs, sep), xs[i])
    decreases |xs|
  {
    if |xs| == 1 {
      ContainsSelf(xs[0]);
    } else if i == 0 {
      ContainsSelf(xs[0]);
      ContainsAppend(xs[0], sep + Join(xs[1..], sep), xs[0]);
      assert xs[0] + sep + Join(xs[1..], sep) == xs[0] + (sep + Join(xs[1..], sep));
    } else {
      JoinContains(xs[1..], sep, i - 1);
      ContainsAppend(xs[0] + sep, Join(xs[1..], sep), xs[i]);
    }
  }

  /** A string shorter than `sub` cannot include it. */
  lemma NotContainsLonger(s: string, sub: string)
    requires |s| < |sub|
    ensures !Contains(s, sub)
  {
  }

  // ---------------------------------------------------------------------------
  // White space

  /** The code points JavaScript's `\s` class and `trim` treat as white space or
      line terminators. */
  predicate IsSpace(c: char) {
    var n := c as int;
    (9 <= n <= 13) || n == 32 || n == 0xA0 || n == 0x1680 || (0x2000 <= n <= 0x200A)
    || n == 0x2028 || n == 0x2029 || n == 0x202F || n == 0x205F || n == 0x3000 || n == 0xFEFF
  }

  /** The line terminators of JavaScript regular expressions (`.` excludes them,
      `^`/`$` in multiline mode stop at them). */
  predicate IsLineTerminator(c: char) {
    c == '\n' || c == '\r' || c as int == 0x2028 || c as int == 0x2029
  }

  function TrimStart(s: string): (r: string)
    ensures |r| <= |s| && r == s[|s| - |r|..]
    ensures forall i :: 0 <= i < |s| - |r| ==> IsSpace(s[i])
    ensures |r| == 0 || !IsSpace(r[0])
  {
    if |s| > 0 && IsSpace(s[0]) then TrimStart(s[1..]) else s
  }

  function TrimEnd(s: string): (r: string)
    ensures |r| <= |s| && r == s[..|r|]
    ensures forall i :: |r| <= i < |s| ==> IsSpace(s[i])
    ensures |r| == 0 || !IsSpace(r[|r| - 1])
  {
    if |s| > 0 && IsSpace(s[|s| - 1]) then TrimEnd(s[..|s| - 1]) else s
  }

  /** `r` is the slice of `s` at `k`, and everything around it is white space. */
  ghost predicate TrimmedAt(s: string, r: string, k: nat) {
    && k + |r| <= |s| && r == s[k..k + |r|]
    && (forall i :: 0 <= i < k ==> IsSpace(s[i]))
    && (forall i :: k + |r| <= i < |s| ==> IsSpace(s[i]))
  }

  /** `String.prototype.trim`: the longest middle slice of `s` that neither begins
      nor ends with white space, after dropping only white space on both sides. */
  function Trim(s: string): (r: string)
    ensures exists k: nat :: TrimmedAt(s, r, k)
    ensures |r| == 0 || (!IsSpace(r[0]) && !IsSpace(r[|r| - 1]))
  {
    var t := TrimStart(s);
    var r := TrimEnd(t);
    var k := |s| - |t|;
    assert r == s[k..k + |r|];
    forall i | k + |r| <= i < |s|
      ensures IsSpace(s[i])
    {
      assert s[i] == t[i - k];
    }
    assert TrimmedAt(s, r, k);
    r
  }

  // ---------------------------------------------------------------------------
  // Split and join

  /** `xs.join(sep)`. */
  function Join(xs: seq<string>, sep: string): string
  {
    if |xs| == 0 then "" else if |xs| == 1 then xs[0] else xs[0] + sep + Join(xs[1..], sep)
  }

  /** `s.split(c)` for a one-character separator: always at least one piece, and
      no piece holds the separator. */
  function Split(s: string, c: char): (r: seq<string>)
    ensures |r| >= 1
    ensures forall i :: 0 <= i < |r| ==> c !in r[i]
    decreases |s|
  {
    if |s| == 0 then [""]
    else
      var rest := Split(s[1..], c);
      if s[0] == c then [""] + rest else [[s[0]] + rest[0]] + rest[1..]
  }

  /** Joining the pieces of a split with the separator gives back the string. */
  lemma {:induction false} JoinSplit(s: string, c: char)
    ensures Join(Split(s, c), [c]) == s
    decreases |s|
  {
    if |s| > 0 {
      JoinSplit(s[1..], c);
      JoinSplitStep(s, c);
    }
  }

  /** One step of `JoinSplit`: from the tail's round trip to the whole's. */
  lemma JoinSplitStep(s: string, c: char)
    requires |s| > 0
    requires Join(Split(s[1..], c), [c]) == s[1..]
    ensures Join(Split(s, c), [c]) == s
  {
    assert s == [s[0]] + s[1..];
    if s[0] == c {
      JoinSplitAtSep(s, c);
    } else {
      assert Split(s, c) == [[s[0]] + Split(s[1..], c)[0]] + Split(s[1..], c)[1..];
      JoinConsHead(s[0], Split(s[1..], c), [c]);
    }
  }

  /** A leading separator opens an empty first piece. */
  lemma JoinSplitAtSep(s: string, c: char)
    requires |s| > 0 && s[0] == c
    ensures Join(Split(s, c), [c]) == [c] + Join(Split(s[1..], c), [c])
  {
    var rest := Split(s[1..], c);
    assert Split(s, c) == [""] + rest;
    assert ([""] + rest)[1..] == rest;
  }

  /** Putting a character in front of the first piece puts it in front of the join. */
  lemma JoinConsHead(x: char, ps: seq<string>, sep: string)
    requires |ps| >= 1
    ensures Join([[x] + ps[0]] + ps[1..], sep) == [x] + Join(ps, sep)
  {
    var r := [[x] + ps[0]] + ps[1..];
    if |ps| > 1 {
      assert r[1..] == ps[1..];
    }
  }

  /** Splitting a separator-free piece followed by the separator peels that piece off. */
  lemma {:induction false} SplitCons(x: string, c: char, t: string)
    requires c !in x
    ensures Split(x + [c] + t, c) == [x] + Split(t, c)
    decreases |x|
  {
    if |x| == 0 {
      assert x + [c] + t == [c] + t;
      assert ([c] + t)[1..] == t;
    } else {
      var s := x + [c] + t;
      assert s[1..] == x[1..] + [c] + t;
      SplitCons(x[1..], c, t);
      assert [x[0]] + x[1..] == x;
    }
  }

  /** Splitting a string without the separator gives the string alone. */
  lemma {:induction false} SplitNone(x: string, c: char)
    requires c !in x
    ensures Split(x, c) == [x]
    decreases |x|
  {
    if |x| > 0 {
      SplitNone(x[1..], c);
      assert [x[0]] + x[1..] == x;
    }
  }

  /** Splitting a join of separator-free pieces gives back the pieces. */
  lemma {:induction false} SplitJoin(xs: seq<string>, c: char)
    requires |xs| >= 1
    requires forall i :: 0 <= i < |xs| ==> c !in xs[i]
    ensures Split(Join(xs, [c]), c) == xs
    decreases |xs|
  {
    if |xs| == 1 {
      SplitNone(xs[0], c);
    } else {
      SplitJoin(xs[1..], c);
      SplitCons(xs[0], c, Join(xs[1..], [c]));
      assert [xs[0]] + xs[1..] == xs;
    }
  }

  /** `s.split(c).pop()`: the part after the last `c`, or all of `s` without one. */
  function LastPiece(s: string, c: char): (r: string)
    ensures |r| <= |s| && r == s[|s| - |r|..] && c !in r
    ensures |r| == |s| || s[|s| - |r| - 1] == c
  {
    SplitLast(s, c);
    var ps := Split(s, c);
    ps[|ps| - 1]
  }

  lemma {:induction false} SplitLast(s: string, c: char)
    ensures var ps := Split(s, c); |ps| == 1 ==> ps[0] == s
    ensures var ps := Split(s, c); var r := ps[|ps| - 1];
      |ps| >= 2 ==> |r| < |s| && r == s[|s| - |r|..] && s[|s| - |r| - 1] == c
    decreases |s|
  {
    if |s| > 0 {
      var rest := Split(s[1..], c);
      SplitLast(s[1..], c);
      var r := rest[|rest| - 1];
      if |rest| >= 2 {
        assert s[1..][|s| - 1 - |r|..] == s[|s| - |r|..];
      } else if s[0] == c {
        assert s[1..] == s[|s| - |r|..];
      } else {
        assert [s[0]] + s[1..] == s;
      }
    }
  }

  /** The part after the last `c` is the only suffix without `c` that starts the
      string or follows a `c`. */
  lemma LastPieceUnique(s: string, c: char, r: string)
    requires |r| <= |s| && r == s[|s| - |r|..] && c !in r
    requires |r| == |s| || s[|s| - |r| - 1] == c
    ensures r == LastPiece(s, c)
  {
    var l := LastPiece(s, c);
  }

  // ---------------------------------------------------------------------------
  // Decimal numbers

  predicate IsDigit(c: char) {
    '0' <= c <= '9'
  }

  function DigitChar(d: nat): (c: char)
    requires d < 10
    ensures IsDigit(c) && c as int - '0' as int == d
  {
    ('0' as int + d) as char
  }

  /** The value of a string of decimal digits (most significant first). */
  function DigitsValue(s: string): int
  {
    if |s| == 0 then 0 else DigitsValue(s[..|s| - 1]) * 10 + (s[|s| - 1] as int - '0' as int)
  }

  /** JavaScript's `${n}` for a non-negative integer: decimal digits without a
      leading zero. */
  function NatToString(n: nat): (r: string)
    ensures |r| >= 1
    ensures forall i :: 0 <= i < |r| ==> IsDigit(r[i])
    ensures r[0] == '0' ==> n == 0
  {
    if n < 10 then [DigitChar(n)] else NatToString(n / 10) + [DigitChar(n % 10)]
  }

  /** Reading back the digits gives the number. */
  lemma {:induction false} DecimalRoundTrip(n: nat)
    ensures DigitsValue(NatToString(n)) == n
  {
    if n >= 10 {
      var s := NatToString(n);
      DecimalRoundTrip(n / 10);
      assert s[..|s| - 1] == NatToString(n / 10);
    }
  }

  /** Distinct numbers print differently. */
  lemma NatToStringInjective(a: nat, b: nat)
    requires NatToString(a) == NatToString(b)
    ensures a == b
  {
    DecimalRoundTrip(a);
    DecimalRoundTrip(b);
  }

  /** JavaScript's `${i}` for an integer. */
  function IntToString(i: int): (r: string)
    ensures |r| >= 1 && (i < 0 <==> r[0] == '-')
  {
    if i < 0 then "-" + NatToString(-i) else NatToString(i)
  }
}
