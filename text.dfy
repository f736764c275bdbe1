/** Character classes and string operations of PHP, PCRE and JavaScript, as the
    plugin uses them. Strings are sequences of code points; the PHP functions the
    plugin calls work on bytes but only ever treat ASCII specially, so for valid
    UTF-8 they agree with the code-point versions here. */
module Text {

  // ---------------------------------------------------------------------------
  // Character classes

  /** PCRE `\s` without the `u` modifier: space, tab, LF, VT, FF, CR. */
  predicate IsPcreSpace(c: char) {
    c == ' ' || c == '\t' || c == '\n' || c == '\U{0B}' || c == '\U{0C}' || c == '\r'
  }

  /** The characters PHP's `trim` strips by default: " \t\n\r\0\x0B" (no form feed). */
  predicate IsPhpTrimChar(c: char) {
    c == ' ' || c == '\t' || c == '\n' || c == '\r' || c == '\0' || c == '\U{0B}'
  }

  /** ECMAScript WhiteSpace and LineTerminator: what `\s` and `String.prototype.trim` use. */
  predicate IsJsSpace(c: char) {
    c == '\t' || c == '\n' || c == '\U{0B}' || c == '\U{0C}' || c == '\r' || c == ' '
    || c == '\U{A0}' || c == '\U{1680}' || ('\U{2000}' <= c <= '\U{200A}')
    || c == '\U{2028}' || c == '\U{2029}' || c == '\U{202F}' || c == '\U{205F}'
    || c == '\U{3000}' || c == '\U{FEFF}'
  }

  /** The middle dot U+00B7 that separates "Title · Location · Type". */
  const MiddleDot: char := '\U{00B7}'

  // ---------------------------------------------------------------------------
  // Case folding and substring search

  /** ASCII lower-casing, as `strtolower` does from PHP 8.2 on. */
  function LowerChar(c: char): (d: char)
    ensures 'A' <= c <= 'Z' ==> d as int == c as int + 32
    ensures !('A' <= c <= 'Z') ==> d == c
    ensures !('A' <= d <= 'Z')
  {
    if 'A' <= c <= 'Z' then (c as int + 32) as char else c
  }

  function ToLower(s: string): (r: string)
    ensures |r| == |s|
  {
    seq(|s|, i requires 0 <= i < |s| => LowerChar(s[i]))
  }

  lemma {:induction false} ToLowerIdempotent(s: string)
    ensures ToLower(ToLower(s)) == ToLower(s)
  {
    var once := ToLower(s);
    assert forall i :: 0 <= i < |s| ==> ToLower(once)[i] == once[i];
  }

  predicate IsPrefix(p: string, s: string) {
    |p| <= |s| && s[..|p|] == p
  }

  /** `t` occurs in `s` at some position (so the empty string occurs everywhere,
      as PHP 8's `strpos` and `stripos` report). */
  predicate Contains(s: string, t: string) {
    exists i: nat :: i <= |s| && OccursAt(s, t, i)
  }

  /** `t` occurs in `s` starting at position `i`. */
  predicate OccursAt(s: string, t: string, i: nat) {
    i + |t| <= |s| && s[i..i + |t|] == t
  }

  /** Some string of `ts` occurs in `s`: a regular expression that is a plain
      alternation of literals matches exactly when this holds. */
  predicate ContainsAny(s: string, ts: seq<string>) {
    exists k :: 0 <= k < |ts| && Contains(s, ts[k])
  }

  lemma {:induction false} NotContainedInShorter(s: string, t: string)
    requires |s| < |t|
    ensures !Contains(s, t)
  {
  }

  // ---------------------------------------------------------------------------
  // Trimming

  /** The suffix of `s` left after dropping its leading run of `p` characters. */
  function DropWhile(s: string, p: char -> bool): (r: string)
    ensures |r| <= |s|
    ensures r == [] || !p(r[0])
    ensures forall i :: 0 <= i < |s| - |r| ==> p(s[i])
  {
    if s != [] && p(s[0]) then DropWhile(s[1..], p) else s
  }

  /** `s` without its trailing run of `p` characters. */
  function DropWhileRight(s: string, p: char -> bool): (r: string)
    ensures |r| <= |s|
    ensures r == [] || !p(r[|r| - 1])
    ensures forall i :: |r| <= i < |s| ==> p(s[i])
  {
    if s != [] && p(s[|s| - 1]) then DropWhileRight(s[..|s| - 1], p) else s
  }

  /** What `DropWhile` keeps is a suffix. */
  lemma {:induction false} DropWhileIsSuffix(s: string, p: char -> bool)
    ensures DropWhile(s, p) == s[|s| - |DropWhile(s, p)|..]
  {
    if s != [] && p(s[0]) {
      DropWhileIsSuffix(s[1..], p);
    }
  }

  /** What `DropWhileRight` keeps is a prefix. */
  lemma {:induction false} DropWhileRightIsPrefix(s: string, p: char -> bool)
    ensures DropWhileRight(s, p) == s[..|DropWhileRight(s, p)|]
  {
    if s != [] && p(s[|s| - 1]) {
      DropWhileRightIsPrefix(s[..|s| - 1], p);
    }
  }

  /** Strip the `p` characters from both ends. */
  function TrimBy(s: string, p: char -> bool): string {
    DropWhileRight(DropWhile(s, p), p)
  }

  /** PHP's `trim($s)` with its default character list. */
  function PhpTrim(s: string): string {
    TrimBy(s, IsPhpTrimChar)
  }

  /** JavaScript's `s.trim()`. */
  function JsTrim(s: string): string {
    TrimBy(s, IsJsSpace)
  }

  /** A trimmed string is the part of `s` between two runs of `p` characters,
      and neither of its ends is a `p` character. */
  lemma TrimBySpec(s: string, p: char -> bool)
    ensures var r := TrimBy(s, p);
      exists i, j :: 0 <= i <= j <= |s| && r == s[i..j]
        && (forall k :: 0 <= k < i ==> p(s[k]))
        && (forall k :: j <= k < |s| ==> p(s[k]))
        && (r == [] || (!p(r[0]) && !p(r[|r| - 1])))
  {
    var i, j := TrimBounds(s, p);
    var r := TrimBy(s, p);
    assert r == [] || (!p(r[0]) && !p(r[|r| - 1])) by {
      var d := DropWhile(s, p);
      DropWhileRightIsPrefix(d, p);
      assert r != [] ==> r[0] == d[0];
    }
    assert r == s[i..j];
  }

  /** The bounds of the trimmed part of `s`. */
  lemma TrimBounds(s: string, p: char -> bool) returns (i: nat, j: nat)
    ensures i <= j <= |s| && TrimBy(s, p) == s[i..j]
    ensures forall k :: 0 <= k < i ==> p(s[k])
    ensures forall k :: j <= k < |s| ==> p(s[k])
  {
    var d := DropWhile(s, p);
    var r := DropWhileRight(d, p);
    DropWhileIsSuffix(s, p);
    DropWhileRightIsPrefix(d, p);
    i := |s| - |d|;
    j := i + |r|;
    PrefixOfSuffix(s, i, d, r, p);
  }

  /** A prefix `r` of the suffix `d` of `s` from `i`, followed in `d` by a run
      of `p` characters, is the slice from `i` to `i + |r|`, followed in `s`
      by that run. */
  lemma PrefixOfSuffix(s: string, i: nat, d: string, r: string, p: char -> bool)
    requires i <= |s| && d == s[i..] && |r| <= |d| && r == d[..|r|]
    requires forall k :: |r| <= k < |d| ==> p(d[k])
    ensures r == s[i..i + |r|]
    ensures forall k :: i + |r| <= k < |s| ==> p(s[k])
  {
    assert forall k :: i + |r| <= k < |s| ==> s[k] == d[k - i];
  }

  // ---------------------------------------------------------------------------
  // Whitespace-run collapsing

  /** Every run of `p` characters of length `minRun` or more becomes one space;
      shorter runs are kept as they are. With `minRun == 1` this is PCRE's
      `preg_replace('/\s+/', ' ', $s)`; with `minRun == 2` it is JavaScript's
      `s.replace(/\s{2,}/g, ' ')`. */
  function CollapseRuns(s: string, p: char -> bool, minRun: nat): string
    decreases |s|
  {
    if s == [] then []
    else if p(s[0]) then
      var rest := DropWhile(s, p);
      var run := |s| - |rest|;
      (if run >= minRun then " " else s[..run]) + CollapseRuns(rest, p, minRun)
    else [s[0]] + CollapseRuns(s[1..], p, minRun)
  }

  /** No two `p` characters are adjacent in `s`. */
  predicate NoAdjacent(s: string, p: char -> bool) {
    forall i :: 0 <= i < |s| - 1 ==> !(p(s[i]) && p(s[i + 1]))
  }

  /** The `p` characters of `s` are all spaces. */
  predicate OnlyPlainSpaces(s: string, p: char -> bool) {
    forall i :: 0 <= i < |s| ==> p(s[i]) ==> s[i] == ' '
  }

  /** The characters of `s` that are not `p` characters, in order. */
  function Skeleton(s: string, p: char -> bool): string {
    if s == [] then [] else (if p(s[0]) then [] else [s[0]]) + Skeleton(s[1..], p)
  }

  lemma {:induction false} SkeletonAppend(a: string, b: string, p: char -> bool)
    ensures Skeleton(a + b, p) == Skeleton(a, p) + Skeleton(b, p)
  {
    if a == [] {
      assert a + b == b;
    } else {
      var head := if p(a[0]) then [] else [a[0]];
      assert (a + b)[0] == a[0];
      assert (a + b)[1..] == a[1..] + b;
      SkeletonAppend(a[1..], b, p);
      calc {
        Skeleton(a + b, p);
        head + Skeleton(a[1..] + b, p);
        head + (Skeleton(a[1..], p) + Skeleton(b, p));
        (head + Skeleton(a[1..], p)) + Skeleton(b, p);
      }
    }
  }

  lemma {:induction false} SkeletonOfRun(s: string, p: char -> bool)
    requires forall i :: 0 <= i < |s| ==> p(s[i])
    ensures Skeleton(s, p) == []
  {
    if s != [] {
      SkeletonOfRun(s[1..], p);
    }
  }

  /** Collapsing keeps every non-`p` character, in order, and only those. */
  lemma {:induction false} CollapseRunsSkeleton(s: string, p: char -> bool, minRun: nat)
    requires p(' ')
    ensures Skeleton(CollapseRuns(s, p, minRun), p) == Skeleton(s, p)
    decreases |s|
  {
    if s == [] {
    } else if p(s[0]) {
      var rest := DropWhile(s, p);
      var run := |s| - |rest|;
      var head := if run >= minRun then " " else s[..run];
      DropWhileIsSuffix(s, p);
      CollapseRunsSkeleton(rest, p, minRun);
      SkeletonAppend(head, CollapseRuns(rest, p, minRun), p);
      SkeletonOfRun(head, p);
      assert s == s[..run] + rest;
      SkeletonAppend(s[..run], rest, p);
      SkeletonOfRun(s[..run], p);
    } else {
      CollapseRunsSkeleton(s[1..], p, minRun);
      SkeletonAppend([s[0]], CollapseRuns(s[1..], p, minRun), p);
    }
  }

  /** What a collapsed string starts with: nothing, a single space, a single kept
      `p` character followed by a non-`p` one, or a non-`p` character. */
  lemma {:induction false} CollapseRunsHead(s: string, p: char -> bool, minRun: nat)
    requires 1 <= minRun <= 2 && p(' ')
    ensures var r := CollapseRuns(s, p, minRun);
      (r == [] <==> s == [])
      && (r != [] ==> (p(r[0]) <==> p(s[0])))
      && (|r| > 1 && p(r[0]) ==> !p(r[1]))
    decreases |s|
  {
    if s != [] && p(s[0]) {
      var rest := DropWhile(s, p);
      var run := |s| - |rest|;
      var head := if run >= minRun then " " else s[..run];
      assert |head| == 1 && p(head[0]);
      var tail := CollapseRuns(rest, p, minRun);
      CollapseRunsHead(rest, p, minRun);
      assert CollapseRuns(s, p, minRun) == head + tail;
    } else if s != [] {
      assert CollapseRuns(s, p, minRun)[0] == s[0];
    }
  }

  /** After collapsing runs of length one or two, no two `p` characters are adjacent. */
  lemma {:induction false} CollapseRunsNoAdjacent(s: string, p: char -> bool, minRun: nat)
    requires 1 <= minRun <= 2 && p(' ')
    ensures NoAdjacent(CollapseRuns(s, p, minRun), p)
    decreases |s|
  {
    if s == [] {
    } else if p(s[0]) {
      var rest := DropWhile(s, p);
      var run := |s| - |rest|;
      var head := if run >= minRun then " " else s[..run];
      assert |head| == 1;
      var tail := CollapseRuns(rest, p, minRun);
      CollapseRunsNoAdjacent(rest, p, minRun);
      CollapseRunsHead(rest, p, minRun);
      assert CollapseRuns(s, p, minRun) == head + tail;
    } else {
      var tail := CollapseRuns(s[1..], p, minRun);
      CollapseRunsNoAdjacent(s[1..], p, minRun);
      assert CollapseRuns(s, p, minRun) == [s[0]] + tail;
    }
  }

  /** Collapsing every run (minRun 1) leaves plain spaces only. */
  lemma {:induction false} CollapseAllPlainSpaces(s: string, p: char -> bool)
    ensures OnlyPlainSpaces(CollapseRuns(s, p, 1), p)
    decreases |s|
  {
    if s == [] {
    } else if p(s[0]) {
      CollapseAllPlainSpaces(DropWhile(s, p), p);
    } else {
      CollapseAllPlainSpaces(s[1..], p);
    }
  }

  /** One step of collapsing at a run of length one. */
  lemma {:induction false} CollapseRunsLoneStep(s: string, p: char -> bool, minRun: nat)
    requires s != [] && p(s[0]) && (|s| == 1 || !p(s[1]))
    ensures CollapseRuns(s, p, minRun)
      == (if 1 >= minRun then " " else [s[0]]) + CollapseRuns(s[1..], p, minRun)
  {
    var tail := s[1..];
    assert DropWhile(tail, p) == tail;
    assert DropWhile(s, p) == tail;
    assert |s| - |tail| == 1;
    assert s[..1] == [s[0]];
  }

  /** A string that already has no long runs is left unchanged: for minRun 2 it
      suffices that no two `p` characters are adjacent (a lone tab or newline is
      kept); for minRun 1 its `p` characters must also be plain spaces. */
  lemma {:induction false} CollapseRunsFixpoint(s: string, p: char -> bool, minRun: nat)
    requires 1 <= minRun <= 2
    requires NoAdjacent(s, p)
    requires minRun == 1 ==> OnlyPlainSpaces(s, p)
    ensures CollapseRuns(s, p, minRun) == s
    decreases |s|
  {
    if s != [] {
      var tail := s[1..];
      assert NoAdjacent(tail, p) by {
        forall i | 0 <= i < |tail| - 1
          ensures !(p(tail[i]) && p(tail[i + 1]))
        {
          assert tail[i] == s[i + 1] && tail[i + 1] == s[i + 2];
        }
      }
      assert minRun == 1 ==> OnlyPlainSpaces(tail, p) by {
        if minRun == 1 {
          forall i | 0 <= i < |tail|
            ensures p(tail[i]) ==> tail[i] == ' '
          {
            assert tail[i] == s[i + 1];
          }
        }
      }
      CollapseRunsFixpoint(tail, p, minRun);
      if p(s[0]) {
        assert |s| == 1 || !p(s[1]);
        CollapseRunsLoneStep(s, p, minRun);
      }
      assert s == [s[0]] + tail;
    }
  }

  /** A character that is not a `p` character survives collapsing exactly when
      it was there before. */
  lemma {:induction false} SkeletonMembers(s: string, p: char -> bool, c: char)
    requires !p(c)
    ensures c in Skeleton(s, p) <==> c in s
  {
    if s != [] {
      SkeletonMembers(s[1..], p, c);
      assert s == [s[0]] + s[1..];
    }
  }

  /** Both properties of a collapsed string hold of each of its slices. */
  lemma SliceKeepsCollapsed(s: string, p: char -> bool, i: nat, j: nat)
    requires i <= j <= |s|
    ensures NoAdjacent(s, p) ==> NoAdjacent(s[i..j], p)
    ensures OnlyPlainSpaces(s, p) ==> OnlyPlainSpaces(s[i..j], p)
  {
    var t := s[i..j];
    assert forall k :: 0 <= k < |t| ==> t[k] == s[i + k];
  }

  lemma NoAdjacentAppend(a: string, b: string, p: char -> bool)
    requires NoAdjacent(a, p) && NoAdjacent(b, p)
    requires a == [] || b == [] || !p(a[|a| - 1]) || !p(b[0])
    ensures NoAdjacent(a + b, p)
  {
    var s := a + b;
    forall i | 0 <= i < |s| - 1
      ensures !(p(s[i]) && p(s[i + 1]))
    {
      if i + 1 < |a| {
        assert s[i] == a[i] && s[i + 1] == a[i + 1];
      } else if i + 1 == |a| {
        assert s[i] == a[|a| - 1] && s[i + 1] == b[0];
      } else {
        assert s[i] == b[i - |a|] && s[i + 1] == b[i - |a| + 1];
      }
    }
  }

  lemma OnlyPlainSpacesAppend(a: string, b: string, p: char -> bool)
    requires OnlyPlainSpaces(a, p) && OnlyPlainSpaces(b, p)
    ensures OnlyPlainSpaces(a + b, p)
  {
    var s := a + b;
    forall i | 0 <= i < |s|
      ensures p(s[i]) ==> s[i] == ' '
    {
      if i < |a| {
        assert s[i] == a[i];
      } else {
        assert s[i] == b[i - |a|];
      }
    }
  }

  /** Trimming a word whose ends are not `p` characters, padded with `p`
      characters on either side, gives the word back. */
  lemma TrimPadded(pre: string, w: string, post: string, p: char -> bool)
    requires w != [] && !p(w[0]) && !p(w[|w| - 1])
    requires forall k :: 0 <= k < |pre| ==> p(pre[k])
    requires forall k :: 0 <= k < |post| ==> p(post[k])
    ensures TrimBy(pre + w + post, p) == w
  {
    DropWhileAfterRun(pre, w + post, p);
    assert pre + w + post == pre + (w + post);
    DropWhileRightBeforeRun(w, post, p);
  }

  lemma {:induction false} DropWhileAfterRun(pre: string, rest: string, p: char -> bool)
    requires forall k :: 0 <= k < |pre| ==> p(pre[k])
    requires rest != [] && !p(rest[0])
    ensures DropWhile(pre + rest, p) == rest
    decreases |pre|
  {
    if pre == [] {
      assert pre + rest == rest;
    } else {
      assert (pre + rest)[1..] == pre[1..] + rest;
      DropWhileAfterRun(pre[1..], rest, p);
    }
  }

  lemma {:induction false} DropWhileRightBeforeRun(w: string, post: string, p: char -> bool)
    requires forall k :: 0 <= k < |post| ==> p(post[k])
    requires w != [] && !p(w[|w| - 1])
    ensures DropWhileRight(w + post, p) == w
    decreases |post|
  {
    if post == [] {
      assert w + post == w;
    } else {
      var s := w + post;
      assert s[..|s| - 1] == w + post[..|post| - 1];
      DropWhileRightBeforeRun(w, post[..|post| - 1], p);
    }
  }

  /** Trimming a string whose ends are not `p` characters changes nothing. */
  lemma TrimByUntrimmed(s: string, p: char -> bool)
    requires s == [] || (!p(s[0]) && !p(s[|s| - 1]))
    ensures TrimBy(s, p) == s
  {
    if s != [] {
      TrimPadded("", s, "", p);
      assert "" + s + "" == s;
    }
  }

  /** Trimming removes only `p` characters: every other character stays, in order. */
  lemma TrimKeepsSkeleton(s: string, p: char -> bool)
    ensures Skeleton(TrimBy(s, p), p) == Skeleton(s, p)
  {
    var d := DropWhile(s, p);
    var r := DropWhileRight(d, p);
    DropWhileIsSuffix(s, p);
    DropWhileRightIsPrefix(d, p);
    DropSkeleton(s, |s| - |d|, p);
    DropRightSkeleton(d, |r|, p);
  }

  /** Dropping a trailing run of `p` characters keeps the skeleton. */
  lemma DropRightSkeleton(s: string, j: nat, p: char -> bool)
    requires j <= |s| && forall k :: j <= k < |s| ==> p(s[k])
    ensures Skeleton(s[..j], p) == Skeleton(s, p)
  {
    var t := s[j..];
    assert forall k :: 0 <= k < |t| ==> t[k] == s[j + k];
    assert s == s[..j] + t;
    SkeletonAppend(s[..j], t, p);
    SkeletonOfRun(t, p);
  }

  /** Dropping a leading run of `p` characters keeps the skeleton. */
  lemma DropSkeleton(s: string, i: nat, p: char -> bool)
    requires i <= |s| && forall k :: 0 <= k < i ==> p(s[k])
    ensures Skeleton(s[i..], p) == Skeleton(s, p)
  {
    assert s == s[..i] + s[i..];
    SkeletonAppend(s[..i], s[i..], p);
    SkeletonOfRun(s[..i], p);
  }

  // ---------------------------------------------------------------------------
  // Splitting on a separator

  /** PHP's `explode($sep, $s)` for a one-character separator: the pieces between
      consecutive separators, always at least one. */
  function Split(s: string, sep: char): (parts: seq<string>)
    ensures |parts| >= 1
  {
    if s == [] then [""]
    else
      var rest := Split(s[1..], sep);
      if s[0] == sep then [""] + rest else [[s[0]] + rest[0]] + rest[1..]
  }

  /** PHP's `implode($sep, $parts)`. */
  function Join(parts: seq<string>, sep: char): string
    requires |parts| >= 1
  {
    if |parts| == 1 then parts[0] else parts[0] + [sep] + Join(parts[1..], sep)
  }

  /** Splitting loses nothing: joining the pieces back gives the original. */
  lemma {:induction false} JoinSplit(s: string, sep: char)
    ensures Join(Split(s, sep), sep) == s
  {
    if s != [] {
      var rest := Split(s[1..], sep);
      JoinSplit(s[1..], sep);
      if s[0] != sep {
        if |rest| > 1 {
          assert rest == [rest[0]] + rest[1..];
        }
      }
    }
  }

  /** No piece contains the separator. */
  lemma {:induction false} SplitPartsHaveNoSeparator(s: string, sep: char)
    ensures forall k :: 0 <= k < |Split(s, sep)| ==> sep !in Split(s, sep)[k]
  {
    if s != [] {
      SplitPartsHaveNoSeparator(s[1..], sep);
    }
  }

  /** A string without the separator is a single piece. */
  lemma {:induction false} SplitWithoutSeparator(s: string, sep: char)
    requires sep !in s
    ensures Split(s, sep) == [s]
  {
    if s != [] {
      assert sep !in s[1..] by {
        forall k | 0 <= k < |s| - 1
          ensures s[1..][k] != sep
        {
          assert s[1..][k] == s[k + 1];
        }
      }
      SplitWithoutSeparator(s[1..], sep);
      assert s[0] != sep;
      assert s == [s[0]] + s[1..];
    }
  }

  /** Splitting gives a single piece exactly when there is no separator. */
  lemma SplitSinglePiece(s: string, sep: char)
    ensures |Split(s, sep)| == 1 <==> sep !in s
  {
    if sep !in s {
      SplitWithoutSeparator(s, sep);
    } else if |Split(s, sep)| == 1 {
      JoinSplit(s, sep);
      SplitPartsHaveNoSeparator(s, sep);
    }
  }

  /** The first piece is a prefix of the string. */
  lemma {:induction false} SplitFirstIsPrefix(s: string, sep: char)
    ensures IsPrefix(Split(s, sep)[0], s)
  {
    if s != [] {
      SplitFirstIsPrefix(s[1..], sep);
    }
  }

  /** Splitting at a separator that follows a separator-free piece. */
  lemma {:induction false} SplitAt(x: string, y: string, sep: char)
    requires sep !in x
    ensures Split(x + [sep] + y, sep) == [x] + Split(y, sep)
  {
    if x == [] {
      assert x + [sep] + y == [sep] + y;
      assert ([sep] + y)[1..] == y;
    } else {
      var s := x + [sep] + y;
      assert s[0] == x[0];
      assert s[1..] == x[1..] + [sep] + y;
      assert sep !in x[1..] by {
        forall k | 0 <= k < |x| - 1
          ensures x[1..][k] != sep
        {
          assert x[1..][k] == x[k + 1];
        }
      }
      SplitAt(x[1..], y, sep);
      assert [x[0]] + x[1..] == x;
    }
  }

  /** The first piece is everything before the first separator (and at least two
      pieces exist exactly when the separator occurs). */
  lemma {:induction false} SplitFirstPiece(s: string, sep: char, i: nat)
    requires i < |s| && s[i] == sep && sep !in s[..i]
    ensures |Split(s, sep)| >= 2 && Split(s, sep)[0] == s[..i]
  {
    if i > 0 {
      assert s[1..][..i - 1] == s[..i][1..];
      SplitFirstPiece(s[1..], sep, i - 1);
    }
  }

  /** With the first separator at `i` and the next one (or the end) at `j`,
      the second piece is the text between them, and a third piece exists
      exactly when `j` is a separator. */
  lemma SplitSecondPiece(s: string, sep: char, i: nat, j: nat)
    requires i < j <= |s| && s[i] == sep && sep !in s[..i]
    requires sep !in s[i + 1..j] && (j == |s| || s[j] == sep)
    ensures var parts := Split(s, sep);
      |parts| >= 2 && parts[1] == s[i + 1..j] && (|parts| > 2 <==> j < |s|)
      && parts[1..] == Split(s[i + 1..], sep)
  {
    var y := s[i + 1..];
    assert s == s[..i] + [sep] + y;
    SplitAt(s[..i], y, sep);
    if j < |s| {
      assert y[..j - (i + 1)] == s[i + 1..j];
      SplitFirstPiece(y, sep, j - (i + 1));
      assert |Split(y, sep)| >= 2;
    } else {
      assert y == s[i + 1..j];
      SplitWithoutSeparator(y, sep);
    }
  }

  /** With the first two separators at `i` and `j` and the next one (or the
      end) at `k`, the third piece is the text between `j` and `k`. */
  lemma SplitThirdPiece(s: string, sep: char, i: nat, j: nat, k: nat)
    requires i < j < k <= |s| && s[i] == sep && sep !in s[..i]
    requires s[j] == sep && sep !in s[i + 1..j]
    requires sep !in s[j + 1..k] && (k == |s| || s[k] == sep)
    ensures var parts := Split(s, sep); |parts| > 2 && parts[2] == s[j + 1..k]
  {
    var y := s[i + 1..];
    SplitSecondPiece(s, sep, i, j);
    var a, b := j - (i + 1), k - (i + 1);
    assert y[..a] == s[i + 1..j];
    SliceOfSuffix(s, i + 1, a + 1, b);
    SplitSecondPiece(y, sep, a, b);
    assert Split(s, sep)[2] == Split(y, sep)[1];
  }

  /** A slice of a suffix is a slice of the whole. */
  lemma SliceOfSuffix(s: string, d: nat, a: nat, b: nat)
    requires d <= |s| && a <= b <= |s| - d
    ensures s[d..][a..b] == s[d + a..d + b]
  {
    forall m | 0 <= m < b - a
      ensures s[d..][a..b][m] == s[d + a..d + b][m]
    {
    }
  }
}
