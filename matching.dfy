/**
 * The two regular-expression shapes the generator uses, written out as
 * explicit searches:
 *
 *   - `text.match(/OPEN(.*?)CLOSE/)`: the leftmost position where OPEN
 *     starts a match, with the shortest group after it that has no line
 *     terminator in it and is followed by CLOSE; the result is the group.
 *   - `text.replace(/OPEN(.*?)CLOSE/g, '$1')`: every such match, taken left
 *     to right and never overlapping, replaced by its group.
 */
module LazyMatch {
  import opened Wrappers
  import opened Strings

  /**
   * One match of OPEN(.*?)CLOSE: it starts at `at`, the group is the text
   * between `groupStart` and `groupEnd`, and the match ends at `end`.
   */
  datatype Match = Match(at: nat, groupStart: nat, groupEnd: nat, end: nat)

  /** `m` is a match of OPEN(.*?)CLOSE in `s`, with the shortest group. */
  predicate IsMatch(s: string, open: string, close: string, m: Match)
  {
    && m.groupStart == m.at + |open|
    && m.groupStart <= m.groupEnd
    && m.end == m.groupEnd + |close| <= |s|
    && OccursAt(s, open, m.at)
    && OccursAt(s, close, m.groupEnd)
    && LineFree(s, m.groupStart, m.groupEnd)
    && forall k :: m.groupStart <= k < m.groupEnd ==> !OccursAt(s, close, k)
  }

  /**
   * Where the lazy group `(.*?)` that begins at `j` stops: the nearest CLOSE
   * at or after `j`, as long as no line terminator comes first.
   */
  function LazyEnd(s: string, close: string, j: nat): (r: Option<nat>)
    requires j <= |s|
    ensures r.Some? ==> j <= r.value && OccursAt(s, close, r.value) && LineFree(s, j, r.value)
    ensures r.Some? ==> forall k :: j <= k < r.value ==> !OccursAt(s, close, k)
    ensures r.None? ==> forall k :: j <= k <= |s| && LineFree(s, j, k) ==> !OccursAt(s, close, k)
    decreases |s| - j
  {
    if OccursAt(s, close, j) then Some(j)
    else if j == |s| || IsLineTerminator(s[j]) then None
    else LazyEnd(s, close, j + 1)
  }

  /** The group found by `LazyEnd` is the only one it can find. */
  lemma {:induction false} LazyEndIs(s: string, close: string, j: nat, e: nat)
    requires j <= e <= |s|
    requires OccursAt(s, close, e) && LineFree(s, j, e)
    requires forall k :: j <= k < e ==> !OccursAt(s, close, k)
    ensures LazyEnd(s, close, j) == Some(e)
    decreases e - j
  {
    if j < e {
      LazyEndIs(s, close, j + 1, e);
    }
  }

  /** The match of OPEN(.*?)CLOSE that starts exactly at `i`, if any. */
  function MatchAt(s: string, open: string, close: string, i: nat): (r: Option<Match>)
    requires i <= |s|
    ensures r.Some? ==> r.value.at == i && IsMatch(s, open, close, r.value)
    ensures r.None? <==>
      || !OccursAt(s, open, i)
      || forall k :: i + |open| <= k <= |s| && LineFree(s, i + |open|, k) ==> !OccursAt(s, close, k)
  {
    if OccursAt(s, open, i) then
      match LazyEnd(s, close, i + |open|)
      case Some(e) => Some(Match(i, i + |open|, e, e + |close|))
      case None => None
    else None
  }

  /** The leftmost match at or after `from`, as a non-global regular expression finds it. */
  function FindFrom(s: string, open: string, close: string, from: nat): (r: Option<Match>)
    requires from <= |s|
    ensures r.Some? ==> from <= r.value.at && IsMatch(s, open, close, r.value)
    ensures forall k :: from <= k <= |s| && (r.None? || k < r.value.at) ==> MatchAt(s, open, close, k).None?
    decreases |s| - from
  {
    match MatchAt(s, open, close, from)
    case Some(m) => Some(m)
    case None => if from == |s| then None else FindFrom(s, open, close, from + 1)
  }

  /** Without an OPEN in `s` there is no match. */
  lemma {:induction false} FindFromAbsent(s: string, open: string, close: string, from: nat)
    requires from <= |s|
    requires forall k: nat :: !OccursAt(s, open, k)
    ensures FindFrom(s, open, close, from) == None
    decreases |s| - from
  {
    if from < |s| {
      FindFromAbsent(s, open, close, from + 1);
    }
  }

  /**
   * `s.match(/OPEN(.*?)CLOSE/)[1]`: the group of the leftmost match, or
   * `None` when nothing matches.
   */
  function Capture(s: string, open: string, close: string): (r: Option<string>)
    requires close != []
    ensures r.Some? ==> SingleLine(r.value) && !Contains(r.value, close)
    ensures r.None? <==> forall k :: 0 <= k <= |s| ==> MatchAt(s, open, close, k).None?
    ensures r.Some? ==> FindFrom(s, open, close, 0).Some?
    ensures r.Some? ==> var m := FindFrom(s, open, close, 0).value; r.value == s[m.groupStart..m.groupEnd]
  {
    match FindFrom(s, open, close, 0)
    case None => None
    case Some(m) =>
      GroupOfMatch(s, open, close, m);
      Some(s[m.groupStart..m.groupEnd])
  }

  /** The group of a match is single-line and holds no CLOSE, and the match starts where it says. */
  lemma GroupOfMatch(s: string, open: string, close: string, m: Match)
    requires close != [] && IsMatch(s, open, close, m)
    ensures SingleLine(s[m.groupStart..m.groupEnd])
    ensures !Contains(s[m.groupStart..m.groupEnd], close)
    ensures MatchAt(s, open, close, m.at).Some?
  {
    var g := s[m.groupStart..m.groupEnd];
    assert g == s[m.groupStart..][..m.groupEnd - m.groupStart];
    assert OccursAt(s, close, m.groupEnd) && LineFree(s, m.groupStart, m.groupEnd);
    forall k: nat | OccursAt(g, close, k) ensures false {
      OccursInPrefix(s[m.groupStart..], close, m.groupEnd - m.groupStart, k);
      OccursInSuffix(s, close, m.groupStart, k);
    }
  }

  /** The leftmost match is the first position from which a match starts. */
  lemma {:induction false} FindFromIs(s: string, open: string, close: string, from: nat, i: nat)
    requires from <= i <= |s| && MatchAt(s, open, close, i).Some?
    requires forall k :: from <= k < i ==> MatchAt(s, open, close, k).None?
    ensures FindFrom(s, open, close, from) == MatchAt(s, open, close, i)
    decreases i - from
  {
    if from < i {
      FindFromIs(s, open, close, from + 1, i);
    }
  }

  /**
   * The group between the first OPEN and the CLOSE after it is captured,
   * provided no earlier OPEN exists, the group holds no CLOSE and no line
   * terminator, and neither marker can overlap itself.
   */
  lemma CaptureOf(pre: string, x: string, post: string, open: string, close: string)
    requires LeadsUniquely(open) && EndsUniquely(close)
    requires !Contains(pre, open) && SingleLine(x) && !Contains(x, close)
    ensures Capture(pre + open + x + close + post, open, close) == Some(x)
  {
    OpenFirstAt(pre, open, x, close, post);
    LazyEndAfter(pre + open, x, post, close);
    CaptureAt(pre + open + x + close + post, open, close, |pre|, |pre + open|, |pre + open| + |x|, x);
  }

  /**
   * When the first OPEN is at `i` and the lazy group after it, from `j`,
   * ends at `e`, the capture is the text `x` between `j` and `e`.
   */
  lemma CaptureAt(s: string, open: string, close: string, i: nat, j: nat, e: nat, x: string)
    requires close != [] && j == i + |open| <= |s| && OccursAt(s, open, i)
    requires forall k :: 0 <= k < i ==> !OccursAt(s, open, k)
    requires LazyEnd(s, close, j) == Some(e) && s[j..e] == x
    ensures Capture(s, open, close) == Some(x)
  {
    MatchAtIs(s, open, close, i, j, e);
    forall k | 0 <= k < i ensures MatchAt(s, open, close, k).None? {
      assert !OccursAt(s, open, k);
    }
    FindFromIs(s, open, close, 0, i);
    assert FindFrom(s, open, close, 0) == Some(Match(i, j, e, e + |close|));
  }

  /** With no OPEN in `pre`, the first OPEN in `pre + open + x + close + post` is at `|pre|`. */
  lemma OpenFirstAt(pre: string, open: string, x: string, close: string, post: string)
    requires LeadsUniquely(open) && !Contains(pre, open)
    ensures OccursAt(pre + open + x + close + post, open, |pre|)
    ensures forall k :: 0 <= k < |pre| ==> !OccursAt(pre + open + x + close + post, open, k)
  {
    var rest := open + (x + close + post);
    assert pre + open + x + close + post == pre + rest;
    assert StartsWith(rest, open) by { assert rest[..|open|] == open; }
    FirstOccurrenceAfter(pre, rest, open);
  }

  /** An OPEN at `i` followed by a lazy group ending at `e` is the match at `i`. */
  lemma MatchAtIs(s: string, open: string, close: string, i: nat, j: nat, e: nat)
    requires j == i + |open| <= |s| && OccursAt(s, open, i)
    requires LazyEnd(s, close, j) == Some(e)
    ensures MatchAt(s, open, close, i) == Some(Match(i, j, e, e + |close|))
  {
  }

  /**
   * A lazy group that starts right before `x` ends right after it, when `x`
   * holds no CLOSE and no line terminator and CLOSE cannot overlap itself.
   */
  lemma LazyEndAfter(lead: string, x: string, post: string, close: string)
    requires EndsUniquely(close) && SingleLine(x) && !Contains(x, close)
    ensures LazyEnd(lead + x + close + post, close, |lead|) == Some(|lead| + |x|)
    ensures (lead + x + close + post)[|lead|..|lead| + |x|] == x
  {
    var s := lead + x + close + post;
    var j, e := |lead|, |lead| + |x|;
    assert s == (lead + x + close) + post;
    assert s[j..e] == x;
    assert OccursAt(s, close, e) by { assert s[e..e + |close|] == close; }
    assert LineFree(s, j, e) by {
      forall m | j <= m < e ensures !IsLineTerminator(s[m]) {
        assert s[m] == x[m - j];
      }
    }
    forall k | j <= k < e ensures !OccursAt(s, close, k) {
      if k + |close| <= e {
        assert !OccursAt(x, close, k - j);
        assert s[k..k + |close|] == x[k - j..k - j + |close|];
      } else {
        NoStraddleInto(lead + x, close, k);
        OccursInLeft(lead + x + close, post, close, k);
      }
    }
    LazyEndIs(s, close, j, e);
  }

  /**
   * `s.replace(/OPEN(.*?)CLOSE/g, '$1')`, from index `from` on: each match,
   * left to right, is replaced by its group; the text between matches is
   * kept. The result only ever drops characters.
   */
  function UnwrapFrom(s: string, open: string, close: string, from: nat): (r: string)
    requires open != [] && from <= |s|
    ensures multiset(r) <= multiset(s[from..])
    decreases |s| - from
  {
    match FindFrom(s, open, close, from)
    case None => s[from..]
    case Some(m) =>
      var rest := UnwrapFrom(s, open, close, m.end);
      DropsOnlyOpenAndClose(s, from, m);
      s[from..m.at] + s[m.groupStart..m.groupEnd] + rest
  }

  /** Keeping the text before a match and its group, and dropping OPEN and CLOSE, only loses characters. */
  lemma DropsOnlyOpenAndClose(s: string, from: nat, m: Match)
    requires from <= m.at <= m.groupStart <= m.groupEnd <= m.end <= |s|
    ensures multiset(s[from..m.at] + s[m.groupStart..m.groupEnd]) + multiset(s[m.end..])
      <= multiset(s[from..])
  {
    assert s[from..] == s[from..m.at] + s[m.at..m.groupStart] + s[m.groupStart..m.groupEnd]
      + s[m.groupEnd..m.end] + s[m.end..];
  }

  /** Text without OPEN in it is left as it is. */
  lemma UnwrapAbsent(s: string, open: string, close: string)
    requires open != [] && !Contains(s, open)
    ensures UnwrapFrom(s, open, close, 0) == s
  {
    FindFromAbsent(s, open, close, 0);
  }

  /** Unwrapping keeps text free of line terminators. */
  lemma UnwrapSingleLine(s: string, open: string, close: string)
    requires open != [] && SingleLine(s)
    ensures SingleLine(UnwrapFrom(s, open, close, 0))
  {
    var r := UnwrapFrom(s, open, close, 0);
    forall k | 0 <= k < |r| ensures !IsLineTerminator(r[k]) {
      assert r[k] in multiset(r);
      assert r[k] in multiset(s);
    }
  }

  /**
   * Text wrapped once is unwrapped back to itself, provided it holds no
   * CLOSE and no line terminator and CLOSE cannot overlap itself at its end.
   */
  lemma UnwrapWrapped(x: string, open: string, close: string)
    requires open != [] && EndsUniquely(close)
    requires SingleLine(x) && !Contains(x, close)
    ensures UnwrapFrom(open + x + close, open, close, 0) == x
  {
    var s := open + x + close;
    var j, e := |open|, |open| + |x|;
    assert OccursAt(s, open, 0) by { assert s[..|open|] == open; }
    assert OccursAt(s, close, e) by { assert s[e..e + |close|] == close; }
    assert LineFree(s, j, e) by {
      forall m | j <= m < e ensures !IsLineTerminator(s[m]) {
        assert s[m] == x[m - j];
      }
    }
    forall k | j <= k < e ensures !OccursAt(s, close, k) {
      if k + |close| <= e {
        assert !OccursAt(x, close, k - j);
        assert s[k..k + |close|] == x[k - j..k - j + |close|];
      } else {
        assert s == (open + x) + close;
        NoStraddleInto(open + x, close, k);
      }
    }
    LazyEndIs(s, close, j, e);
    assert MatchAt(s, open, close, 0) == Some(Match(0, j, e, |s|));
    assert FindFrom(s, open, close, |s|) == None;
    assert s[j..e] == x;
  }
}
