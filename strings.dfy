/** Failure-compatible wrappers used throughout the model. */
module Wrappers {
  datatype Option<+T> = None | Some(value: T)

  datatype Result<+T, +E> = Success(value: T) | Failure(error: E)
}

/**
 * The JavaScript string primitives the generator and the page rely on,
 * stated over `string` (a sequence of characters): substring search,
 * `String.prototype.split` with a non-empty separator, `Array.prototype.join`,
 * a single-character global `replace`, and `String.prototype.trim`.
 */
module Strings {
  import opened Wrappers

  /** `pat` occurs in `s` starting at index `i`. */
  predicate OccursAt(s: string, pat: string, i: nat)
  {
    i + |pat| <= |s| && s[i..i + |pat|] == pat
  }

  predicate Contains(s: string, pat: string)
  {
    exists i: nat | i <= |s| :: OccursAt(s, pat, i)
  }

  predicate StartsWith(s: string, prefix: string)
  {
    OccursAt(s, prefix, 0)
  }

  predicate EndsWith(s: string, suffix: string)
  {
    |suffix| <= |s| && s[|s| - |suffix|..] == suffix
  }

  /**
   * No occurrence of `pat` can start strictly inside another occurrence of
   * `pat` and run on past it: the first character of `pat` is not repeated.
   * Every tag the feed is searched for (`<item>`, `<title>`, ...) has this shape.
   */
  predicate LeadsUniquely(pat: string)
  {
    pat != [] && forall k :: 0 < k < |pat| ==> pat[k] != pat[0]
  }

  /** The mirror image: the last character of `pat` is not repeated (`]]>`). */
  predicate EndsUniquely(pat: string)
  {
    pat != [] && forall k :: 0 <= k < |pat| - 1 ==> pat[k] != pat[|pat| - 1]
  }

  /** The ECMAScript LineTerminator code points; a regular expression `.` matches none of them. */
  predicate IsLineTerminator(c: char)
  {
    c == '\n' || c == '\r' || c == '\U{2028}' || c == '\U{2029}'
  }

  /** No line terminator in `s[lo..hi]`. */
  predicate LineFree(s: string, lo: nat, hi: nat)
    requires lo <= hi <= |s|
  {
    forall m :: lo <= m < hi ==> !IsLineTerminator(s[m])
  }

  /** `s` has no line terminator: a regular expression `.*` can match all of it. */
  predicate SingleLine(s: string)
  {
    forall k :: 0 <= k < |s| ==> !IsLineTerminator(s[k])
  }

  /**
   * The code points `String.prototype.trim` removes: ECMAScript WhiteSpace
   * (TAB, VT, FF, SP, NBSP, ZWNBSP and the other Zs space separators) and
   * LineTerminator.
   */
  predicate IsWhitespace(c: char)
  {
    || IsLineTerminator(c)
    || c == '\t' || c == '\U{000B}' || c == '\U{000C}' || c == ' '
    || c == '\U{00A0}' || c == '\U{1680}'
    || ('\U{2000}' <= c <= '\U{200A}')
    || c == '\U{202F}' || c == '\U{205F}' || c == '\U{3000}' || c == '\U{FEFF}'
  }

  predicate AllWhitespace(s: string)
  {
    forall k :: 0 <= k < |s| ==> IsWhitespace(s[k])
  }

  // ---------------------------------------------------------------------------
  // Search
  // ---------------------------------------------------------------------------

  /** The leftmost occurrence of `pat` in `s` at or after `from`, as `indexOf` finds it. */
  function IndexOf(s: string, pat: string, from: nat): (r: Option<nat>)
    requires from <= |s|
    ensures r.Some? ==> from <= r.value && OccursAt(s, pat, r.value)
    ensures forall k: nat :: from <= k && (r.None? || k < r.value) ==> !OccursAt(s, pat, k)
    decreases |s| - from
  {
    if OccursAt(s, pat, from) then Some(from)
    else if from == |s| then None
    else IndexOf(s, pat, from + 1)
  }

  /**
   * With no `pat` in `a`, the first `pat` in `a + s` is where `s` begins,
   * when `s` starts with `pat` and `pat` leads uniquely.
   */
  lemma FirstOccurrenceAfter(a: string, s: string, pat: string)
    requires LeadsUniquely(pat) && StartsWith(s, pat) && !Contains(a, pat)
    ensures IndexOf(a + s, pat, 0) == Some(|a|)
  {
    var t := a + s;
    assert OccursAt(t, pat, |a|) by { assert t[|a|..|a| + |pat|] == s[..|pat|]; }
    forall k: nat | k < |a| ensures !OccursAt(t, pat, k) {
      if k + |pat| <= |a| {
        OccursInLeft(a, s, pat, k);
      } else {
        NoStraddleBefore(a, s, pat, k);
      }
    }
    IndexOfIs(t, pat, 0, |a|);
  }

  /** `IndexOf` returns the first occurrence at or after `from`. */
  lemma {:induction false} IndexOfIs(s: string, pat: string, from: nat, i: nat)
    requires from <= i <= |s| && OccursAt(s, pat, i)
    requires forall k: nat :: from <= k < i ==> !OccursAt(s, pat, k)
    ensures IndexOf(s, pat, from) == Some(i)
    decreases i - from
  {
    if from < i {
      IndexOfIs(s, pat, from + 1, i);
    }
  }

  /** An occurrence that ends within `a` is the same in `a + s`. */
  lemma OccursInLeft(a: string, s: string, pat: string, k: nat)
    requires k + |pat| <= |a|
    ensures OccursAt(a + s, pat, k) == OccursAt(a, pat, k)
  {
    assert (a + s)[k..k + |pat|] == a[k..k + |pat|];
  }

  /** An occurrence inside a prefix of `s` is an occurrence in `s`. */
  lemma OccursInPrefix(s: string, pat: string, n: nat, i: nat)
    requires n <= |s|
    ensures OccursAt(s[..n], pat, i) ==> OccursAt(s, pat, i)
  {
    if OccursAt(s[..n], pat, i) {
      assert s[..n][i..i + |pat|] == s[i..i + |pat|];
    }
  }

  /** An occurrence inside a suffix of `s` is an occurrence in `s`, shifted. */
  lemma OccursInSuffix(s: string, pat: string, n: nat, i: nat)
    requires n <= |s|
    ensures OccursAt(s[n..], pat, i) <==> OccursAt(s, pat, n + i)
  {
    if n + i + |pat| <= |s| {
      assert s[n..][i..i + |pat|] == s[n + i..n + i + |pat|];
    }
  }

  /**
   * When `pat` leads uniquely and `s` starts with the first character of
   * `pat`, no occurrence of `pat` in `a + s` starts inside `a` and reaches
   * into `s`.
   */
  lemma NoStraddleBefore(a: string, s: string, pat: string, k: nat)
    requires LeadsUniquely(pat) && s != [] && s[0] == pat[0]
    requires k < |a| < k + |pat|
    ensures !OccursAt(a + s, pat, k)
  {
    var d := |a| - k;
    assert (a + s)[k + d] == s[0] == pat[0];
    assert pat[d] != pat[0];
  }

  /**
   * When `pat` ends uniquely, no occurrence of `pat` in `a + pat` starts
   * inside `a` and reaches into the final copy of `pat`.
   */
  lemma NoStraddleInto(a: string, pat: string, k: nat)
    requires EndsUniquely(pat)
    requires k < |a| < k + |pat|
    ensures !OccursAt(a + pat, pat, k)
  {
    var d := |a| - k;
    assert (a + pat)[k + |pat| - 1] == pat[|pat| - 1 - d];
    assert pat[|pat| - 1 - d] != pat[|pat| - 1];
  }

  // ---------------------------------------------------------------------------
  // split and join
  // ---------------------------------------------------------------------------

  /**
   * `s.split(sep)` for a non-empty separator: the pieces between successive
   * leftmost, non-overlapping occurrences of `sep`.
   */
  function Split(s: string, sep: string): (parts: seq<string>)
    requires sep != []
    ensures |parts| >= 1
    ensures forall k :: 0 <= k < |parts| ==> !Contains(parts[k], sep)
    decreases |s|
  {
    match IndexOf(s, sep, 0)
    case None =>
      assert forall j: nat :: !OccursAt(s, sep, j);
      [s]
    case Some(i) =>
      assert !Contains(s[..i], sep) by {
        forall j: nat ensures !OccursAt(s[..i], sep, j) {
          OccursInPrefix(s, sep, i, j);
        }
      }
      [s[..i]] + Split(s[i + |sep|..], sep)
  }

  /** Each piece of a split is a piece of the text, so it avoids whatever the text avoids. */
  lemma {:induction false} SplitPartsAvoid(s: string, sep: string, pat: string)
    requires sep != [] && !Contains(s, pat)
    ensures forall k :: 0 <= k < |Split(s, sep)| ==> !Contains(Split(s, sep)[k], pat)
    decreases |s|
  {
    match IndexOf(s, sep, 0)
    case None =>
    case Some(i) =>
      var rest := s[i + |sep|..];
      forall j: nat ensures !OccursAt(s[..i], pat, j) && !OccursAt(rest, pat, j) {
        OccursInPrefix(s, pat, i, j);
        OccursInSuffix(s, pat, i + |sep|, j);
      }
      SplitPartsAvoid(rest, sep, pat);
      var tail := Split(rest, sep);
      assert Split(s, sep) == [s[..i]] + tail;
      assert !Contains(s[..i], pat);
      assert forall k :: 0 <= k < |tail| ==> !Contains(tail[k], pat);
  }

  /** `parts.join(sep)`. */
  function Join(parts: seq<string>, sep: string): string
  {
    if |parts| == 0 then ""
    else if |parts| == 1 then parts[0]
    else parts[0] + sep + Join(parts[1..], sep)
  }

  lemma JoinCons(x: string, tail: seq<string>, sep: string)
    requires |tail| >= 1
    ensures Join([x] + tail, sep) == x + sep + Join(tail, sep)
  {
    assert ([x] + tail)[1..] == tail;
  }

  /** `s` is the text before index `i`, the separator found there, and the rest. */
  lemma SplitAround(s: string, sep: string, i: nat)
    requires OccursAt(s, sep, i)
    ensures s == s[..i] + sep + s[i + |sep|..]
  {
    assert s[i..i + |sep|] == sep;
  }

  /** Joining the pieces of a split with the same separator gives back the text. */
  lemma {:induction false} JoinSplit(s: string, sep: string)
    requires sep != []
    ensures Join(Split(s, sep), sep) == s
    decreases |s|
  {
    match IndexOf(s, sep, 0)
    case None =>
    case Some(i) =>
      var rest := s[i + |sep|..];
      var tail := Split(rest, sep);
      JoinSplit(rest, sep);
      assert Split(s, sep) == [s[..i]] + tail;
      JoinCons(s[..i], tail, sep);
      SplitAround(s, sep, i);
  }

  /** The number of occurrences of the character `c` in `s`. */
  function CountChar(s: string, c: char): nat
  {
    if s == [] then 0 else (if s[0] == c then 1 else 0) + CountChar(s[1..], c)
  }

  lemma {:induction false} CountCharAppend(a: string, b: string, c: char)
    ensures CountChar(a + b, c) == CountChar(a, c) + CountChar(b, c)
  {
    if a == [] {
      assert a + b == b;
    } else {
      assert (a + b)[1..] == a[1..] + b;
      CountCharAppend(a[1..], b, c);
    }
  }

  lemma {:induction false} CountCharAbsent(s: string, c: char)
    requires !Contains(s, [c])
    ensures CountChar(s, c) == 0
  {
    if s != [] {
      assert !OccursAt(s, [c], 0);
      assert s[0] != c;
      forall j: nat ensures !OccursAt(s[1..], [c], j) {
        OccursInSuffix(s, [c], 1, j);
      }
      CountCharAbsent(s[1..], c);
    }
  }

  /** Splitting on a single character yields one piece more than it has occurrences. */
  lemma {:induction false} SplitCharCount(s: string, c: char)
    ensures |Split(s, [c])| == CountChar(s, c) + 1
    decreases |s|
  {
    match IndexOf(s, [c], 0)
    case None =>
      assert !Contains(s, [c]);
      CountCharAbsent(s, c);
    case Some(i) =>
      var rest := s[i + 1..];
      SplitCharCount(rest, c);
      assert s == s[..i] + [c] + rest by {
        assert s[i..i + 1] == [c];
      }
      forall j: nat ensures !OccursAt(s[..i], [c], j) {
        OccursInPrefix(s, [c], i, j);
      }
      CountCharAbsent(s[..i], c);
      CountCharAppend(s[..i] + [c], rest, c);
      CountCharAppend(s[..i], [c], c);
      assert CountChar([c], c) == 1;
  }

  /**
   * Joining pieces that do not contain `c` with `c` and splitting on `c`
   * gives back the pieces.
   */
  lemma {:induction false} SplitJoinChar(parts: seq<string>, c: char)
    requires |parts| >= 1
    requires forall k :: 0 <= k < |parts| ==> !Contains(parts[k], [c])
    ensures Split(Join(parts, [c]), [c]) == parts
    decreases |parts|
  {
    var s := Join(parts, [c]);
    var p := parts[0];
    if |parts| == 1 {
      assert IndexOf(s, [c], 0).None?;
    } else {
      var rest := Join(parts[1..], [c]);
      assert s == p + [c] + rest;
      forall j: nat | j < |p| ensures !OccursAt(s, [c], j) {
        assert !OccursAt(p, [c], j);
        assert s[j] == p[j];
      }
      assert OccursAt(s, [c], |p|);
      assert IndexOf(s, [c], 0) == Some(|p|);
      assert s[..|p|] == p;
      assert s[|p| + 1..] == rest;
      SplitJoinChar(parts[1..], c);
      assert parts == [p] + parts[1..];
    }
  }

  /** The number of positions at which `pat` occurs in `s`. */
  function CountOccurrences(s: string, pat: string): nat
  {
    if s == [] then 0
    else (if OccursAt(s, pat, 0) then 1 else 0) + CountOccurrences(s[1..], pat)
  }

  lemma {:induction false} CountOccurrencesAbsent(s: string, pat: string)
    requires !Contains(s, pat)
    ensures CountOccurrences(s, pat) == 0
  {
    if s != [] {
      assert !OccursAt(s, pat, 0);
      forall j: nat ensures !OccursAt(s[1..], pat, j) {
        OccursInSuffix(s, pat, 1, j);
      }
      CountOccurrencesAbsent(s[1..], pat);
    }
  }

  /** A text without the first character of `pat` holds no occurrence of it. */
  lemma CountWithoutLead(s: string, pat: string)
    requires pat != [] && pat[0] !in s
    ensures CountOccurrences(s, pat) == 0
  {
    forall j: nat ensures !OccursAt(s, pat, j) {
      if j + |pat| <= |s| {
        assert s[j..j + |pat|][0] == s[j];
      }
    }
    CountOccurrencesAbsent(s, pat);
  }

  /**
   * A text that starts with the first character of `pat`, has no other copy
   * of it, and does not continue as `pat` does, holds no occurrence of `pat`.
   */
  lemma CountWithLeadOnlyFirst(rest: string, pat: string)
    requires 2 <= |pat| && rest != [] && rest[0] != pat[1] && pat[0] !in rest
    ensures CountOccurrences([pat[0]] + rest, pat) == 0
  {
    var s := [pat[0]] + rest;
    if |pat| <= |s| {
      assert s[..|pat|][1] == rest[0];
    }
    assert !OccursAt(s, pat, 0);
    assert s[1..] == rest;
    CountWithoutLead(rest, pat);
  }

  /**
   * Occurrences of a uniquely leading `pat` in `a + b` are those of `a` and
   * those of `b` when `b` begins with the first character of `pat`.
   */
  lemma {:induction false} CountOccurrencesAppend(a: string, b: string, pat: string)
    requires LeadsUniquely(pat) && (b == [] || b[0] == pat[0])
    ensures CountOccurrences(a + b, pat) == CountOccurrences(a, pat) + CountOccurrences(b, pat)
  {
    if a == [] {
      assert a + b == b;
    } else if b == [] {
      assert a + b == a;
    } else {
      assert (a + b)[1..] == a[1..] + b;
      CountOccurrencesAppend(a[1..], b, pat);
      if |pat| <= |a| {
        assert (a + b)[..|pat|] == a[..|pat|];
      } else if 0 < |a| < |pat| {
        NoStraddleBefore(a, b, pat, 0);
      }
    }
  }

  // ---------------------------------------------------------------------------
  // replace(/c/g, d)
  // ---------------------------------------------------------------------------

  /** `s.replace(/c/g, d)` for a single character `c`. */
  function ReplaceChar(s: string, c: char, d: char): (r: string)
    ensures |r| == |s|
    ensures forall k :: 0 <= k < |s| ==> r[k] == (if s[k] == c then d else s[k])
  {
    if s == [] then []
    else [if s[0] == c then d else s[0]] + ReplaceChar(s[1..], c, d)
  }

  /**
   * Replacing every `c` by `d` is the same as splitting on `c` and joining
   * the pieces with `d`.
   */
  lemma {:induction false} ReplaceCharIsSplitJoin(s: string, c: char, d: char)
    ensures ReplaceChar(s, c, d) == Join(Split(s, [c]), [d])
    decreases |s|
  {
    match IndexOf(s, [c], 0)
    case None =>
      ReplaceCharAbsent(s, c, d);
    case Some(i) =>
      var head, rest := s[..i], s[i + 1..];
      var tail := Split(rest, [c]);
      ReplaceCharIsSplitJoin(rest, c, d);
      assert Split(s, [c]) == [head] + tail;
      JoinCons(head, tail, [d]);
      assert Join(Split(s, [c]), [d]) == head + [d] + ReplaceChar(rest, c, d);
      SplitAround(s, [c], i);
      forall k: nat ensures !OccursAt(head, [c], k) {
        OccursInPrefix(s, [c], i, k);
      }
      ReplaceCharAbsent(head, c, d);
      ReplaceCharAppend(head + [c], rest, c, d);
      ReplaceCharAppend(head, [c], c, d);
      assert ReplaceChar([c], c, d) == [d];
  }

  /** Without any `c`, replacing changes nothing. */
  lemma ReplaceCharAbsent(s: string, c: char, d: char)
    requires forall k: nat :: !OccursAt(s, [c], k)
    ensures ReplaceChar(s, c, d) == s
  {
    forall k | 0 <= k < |s| ensures s[k] != c {
      assert !OccursAt(s, [c], k);
      assert s[k..k + 1] == [s[k]];
    }
  }

  lemma ReplaceCharAppend(a: string, b: string, c: char, d: char)
    ensures ReplaceChar(a + b, c, d) == ReplaceChar(a, c, d) + ReplaceChar(b, c, d)
  {
    var ra, rb := ReplaceChar(a, c, d), ReplaceChar(b, c, d);
    var r, t := ReplaceChar(a + b, c, d), ra + rb;
    assert |r| == |t|;
    forall k | 0 <= k < |r| ensures r[k] == t[k] {
      if k < |a| {
        assert (a + b)[k] == a[k] && t[k] == ra[k];
      } else {
        assert (a + b)[k] == b[k - |a|] && t[k] == rb[k - |a|];
      }
    }
  }

  // ---------------------------------------------------------------------------
  // trim
  // ---------------------------------------------------------------------------

  /** Where the whitespace that starts at `i` ends: the first non-whitespace index at or after `i`. */
  function WhitespaceEnd(s: string, i: nat): (j: nat)
    requires i <= |s|
    ensures i <= j <= |s|
    ensures forall k :: i <= k < j ==> IsWhitespace(s[k])
    ensures j == |s| || !IsWhitespace(s[j])
    decreases |s| - i
  {
    if i < |s| && IsWhitespace(s[i]) then WhitespaceEnd(s, i + 1) else i
  }

  /**
   * Where the whitespace that ends at `j` starts, scanning back no further
   * than `lo`.
   */
  function WhitespaceStart(s: string, lo: nat, j: nat): (i: nat)
    requires lo <= j <= |s|
    ensures lo <= i <= j
    ensures forall k :: i <= k < j ==> IsWhitespace(s[k])
    ensures i == lo || !IsWhitespace(s[i - 1])
    decreases j
  {
    if lo < j && IsWhitespace(s[j - 1]) then WhitespaceStart(s, lo, j - 1) else j
  }

  /** The scan forward stops at the first index that is not whitespace. */
  lemma {:induction false} WhitespaceEndIs(s: string, i: nat, j: nat)
    requires i <= j <= |s|
    requires forall k :: i <= k < j ==> IsWhitespace(s[k])
    requires j == |s| || !IsWhitespace(s[j])
    ensures WhitespaceEnd(s, i) == j
    decreases j - i
  {
    if i < j {
      WhitespaceEndIs(s, i + 1, j);
    }
  }

  /** The scan backward stops after the last index that is not whitespace. */
  lemma {:induction false} WhitespaceStartIs(s: string, lo: nat, i: nat, j: nat)
    requires lo <= i <= j <= |s|
    requires forall k :: i <= k < j ==> IsWhitespace(s[k])
    requires i == lo || !IsWhitespace(s[i - 1])
    ensures WhitespaceStart(s, lo, j) == i
    decreases j - i
  {
    if i < j {
      WhitespaceStartIs(s, lo, i, j - 1);
    }
  }

  /**
   * `String.prototype.trim`: the text between the leading and the trailing
   * whitespace, which may itself contain whitespace.
   */
  function Trim(s: string): (r: string)
    ensures r == [] || (!IsWhitespace(r[0]) && !IsWhitespace(r[|r| - 1]))
    ensures |r| <= |s|
  {
    var i := WhitespaceEnd(s, 0);
    s[i..WhitespaceStart(s, i, |s|)]
  }

  /**
   * Trimming removes whitespace at the two ends and nothing else: the
   * result sits in `s` right after the leading whitespace, and only
   * whitespace comes before and after it.
   */
  lemma TrimRemovesOnlyWhitespace(s: string)
    ensures var i, r := WhitespaceEnd(s, 0), Trim(s);
      && i + |r| <= |s|
      && r == s[i..i + |r|]
      && AllWhitespace(s[..i])
      && AllWhitespace(s[i + |r|..])
  {
    var i := WhitespaceEnd(s, 0);
    var e := WhitespaceStart(s, i, |s|);
    assert Trim(s) == s[i..e];
    forall k | 0 <= k < i ensures IsWhitespace(s[..i][k]) {
      assert s[..i][k] == s[k];
    }
    forall k | 0 <= k < |s| - e ensures IsWhitespace(s[e..][k]) {
      assert s[e..][k] == s[e + k];
    }
  }

  /** Text with no whitespace at either end is its own trim. */
  lemma TrimOfTrimmed(s: string)
    requires s == [] || (!IsWhitespace(s[0]) && !IsWhitespace(s[|s| - 1]))
    ensures Trim(s) == s
  {
    assert WhitespaceEnd(s, 0) == 0;
    assert WhitespaceStart(s, 0, |s|) == |s|;
  }

  /** Whitespace around text with no whitespace at its ends is what trimming removes. */
  lemma TrimSurrounded(w1: string, x: string, w2: string)
    requires AllWhitespace(w1) && AllWhitespace(w2)
    requires x == [] || (!IsWhitespace(x[0]) && !IsWhitespace(x[|x| - 1]))
    ensures Trim(w1 + x + w2) == x
  {
    var s := w1 + x + w2;
    var i, e := |w1|, |w1| + |x|;
    if x == [] {
      forall k | 0 <= k < |s| ensures IsWhitespace(s[k]) {
        if k < i {
          assert s[k] == w1[k];
        } else {
          assert s[k] == w2[k - i];
        }
      }
      WhitespaceEndIs(s, 0, |s|);
      WhitespaceStartIs(s, |s|, |s|, |s|);
    } else {
      forall k | 0 <= k < i ensures IsWhitespace(s[k]) {
        assert s[k] == w1[k];
      }
      forall k | e <= k < |s| ensures IsWhitespace(s[k]) {
        assert s[k] == w2[k - e];
      }
      assert s[i] == x[0] && s[e - 1] == x[|x| - 1];
      WhitespaceEndIs(s, 0, i);
      WhitespaceStartIs(s, i, e, |s|);
      assert s[i..e] == x;
    }
  }

  /** Trimming twice is trimming once. */
  lemma TrimIdempotent(s: string)
    ensures Trim(Trim(s)) == Trim(s)
  {
    TrimOfTrimmed(Trim(s));
  }
}
