/**
 * `findall` for a compiled pattern: the content is scanned from left to
 * right; where the pattern matches, the match is recorded and the scan
 * resumes at its end; elsewhere it moves on by one character. This gives
 * every non-overlapping match, leftmost first. The scan only needs the
 * outcome of the pattern at each position, so it is stated for any matcher
 * whose matches start where they are tried and end further on (Advances);
 * the extractor uses it with PluginPattern.MatchAt. Scan is the definition,
 * IsFindAll the same result described without recursion, and FindAll the
 * position-advancing loop.
 */
module Scanner {
  import opened Wrappers
  import opened PluginPattern

  /** The outcome of a pattern tried at a position of a content. */
  type Matcher = (string, nat) -> Option<Match>

  /** Every match a matcher reports starts where it was tried and ends after it, inside the content. */
  ghost predicate Advances(matcher: Matcher) {
    forall s: string, i: nat :: matcher(s, i).Some? ==>
      matcher(s, i).value.start == i && i < matcher(s, i).value.end <= |s|
  }

  /** The plugin-declaration matcher advances. */
  lemma MatchAtAdvances()
    ensures Advances(MatchAt)
  {
    forall s: string, i: nat | MatchAt(s, i).Some?
      ensures MatchAt(s, i).value.start == i && i < MatchAt(s, i).value.end <= |s|
    {
    }
  }

  /** The matches found by scanning `s` from position `i` on. */
  function Scan(s: string, i: nat, matcher: Matcher): (r: seq<Match>)
    requires i <= |s| && Advances(matcher)
    ensures forall k :: 0 <= k < |r| ==> i <= r[k].start < r[k].end <= |s|
    decreases |s| - i
  {
    if i == |s| then []
    else match matcher(s, i)
      case Some(m) => [m] + Scan(s, m.end, matcher)
      case None => Scan(s, i + 1, matcher)
  }

  /** The pattern matches at no position in [lo, hi). */
  ghost predicate NoMatchIn(s: string, lo: nat, hi: nat, matcher: Matcher) {
    forall p: nat :: lo <= p < hi ==> matcher(s, p).None?
  }

  /** Where the k-th stretch of content the matches leave uncovered begins (k <= |ms|). */
  function GapStart(from: nat, ms: seq<Match>, k: nat): nat
    requires k <= |ms|
  {
    if k == 0 then from else ms[k - 1].end
  }

  /** Where the k-th uncovered stretch ends: at the next match, or at the end of the content. */
  function GapEnd(s: string, ms: seq<Match>, k: nat): nat
    requires k <= |ms|
  {
    if k == |ms| then |s| else ms[k].start
  }

  /** The k-th uncovered stretch is well placed and the pattern matches nowhere in it. */
  ghost predicate GapClear(s: string, from: nat, ms: seq<Match>, k: nat, matcher: Matcher)
    requires k <= |ms|
  {
    GapStart(from, ms, k) <= GapEnd(s, ms, k) && NoMatchIn(s, GapStart(from, ms, k), GapEnd(s, ms, k), matcher)
  }

  /**
   * `ms` is what findall reports for `s` from `from` on, described without
   * recursion: each element is the match of the pattern at its own start, the
   * matches follow one another without overlapping, and in every stretch
   * before, between and after them the pattern matches nowhere.
   */
  ghost predicate IsFindAll(s: string, from: nat, ms: seq<Match>, matcher: Matcher) {
    && (forall k :: 0 <= k < |ms| ==> matcher(s, ms[k].start) == Some(ms[k]))
    && (forall k :: 0 <= k <= |ms| ==> GapClear(s, from, ms, k, matcher))
  }

  /** Scan meets the description: its matches are exactly findall's. */
  lemma {:induction false} ScanIsFindAll(s: string, from: nat, matcher: Matcher)
    requires from <= |s| && Advances(matcher)
    ensures IsFindAll(s, from, Scan(s, from, matcher), matcher)
    decreases |s| - from
  {
    var r := Scan(s, from, matcher);
    if from == |s| {
      assert r == [];
      assert GapClear(s, from, r, 0, matcher);
    } else if matcher(s, from).Some? {
      var m := matcher(s, from).value;
      var rest := Scan(s, m.end, matcher);
      assert r == [m] + rest;
      ScanIsFindAll(s, m.end, matcher);
      ConsIsFindAll(s, from, m, rest, matcher);
    } else {
      assert r == Scan(s, from + 1, matcher);
      ScanIsFindAll(s, from + 1, matcher);
      assert GapClear(s, from + 1, r, 0, matcher);
      assert GapClear(s, from, r, 0, matcher);
      forall k | 0 <= k <= |r| ensures GapClear(s, from, r, k, matcher) {
        if k > 0 { assert GapClear(s, from + 1, r, k, matcher); }
      }
    }
  }

  /** A match at `from` followed by the findall result from its end is the findall result from `from`. */
  lemma ConsIsFindAll(s: string, from: nat, m: Match, rest: seq<Match>, matcher: Matcher)
    requires Advances(matcher)
    requires matcher(s, from) == Some(m) && IsFindAll(s, m.end, rest, matcher)
    ensures IsFindAll(s, from, [m] + rest, matcher)
  {
    var r := [m] + rest;
    forall k | 0 <= k < |r| ensures matcher(s, r[k].start) == Some(r[k]) {
      if k > 0 { assert r[k] == rest[k - 1]; }
    }
    forall k | 0 <= k <= |r| ensures GapClear(s, from, r, k, matcher) {
      if k > 0 {
        assert GapClear(s, m.end, rest, k - 1, matcher);
        assert GapStart(from, r, k) == GapStart(m.end, rest, k - 1);
        assert GapEnd(s, r, k) == GapEnd(s, rest, k - 1);
      }
    }
  }

  /** A stretch without matches is skipped by the scan. */
  lemma {:induction false} ScanSkipsNoMatch(s: string, lo: nat, hi: nat, matcher: Matcher)
    requires lo <= hi <= |s| && Advances(matcher) && NoMatchIn(s, lo, hi, matcher)
    ensures Scan(s, lo, matcher) == Scan(s, hi, matcher)
    decreases hi - lo
  {
    if lo < hi {
      assert matcher(s, lo).None?;
      ScanSkipsNoMatch(s, lo + 1, hi, matcher);
    }
  }

  /** The description determines the result: whatever meets it is what Scan returns. */
  lemma {:induction false} FindAllUnique(s: string, from: nat, ms: seq<Match>, matcher: Matcher)
    requires from <= |s| && Advances(matcher) && IsFindAll(s, from, ms, matcher)
    ensures ms == Scan(s, from, matcher)
    decreases |ms|
  {
    assert GapClear(s, from, ms, 0, matcher);
    if ms == [] {
      ScanSkipsNoMatch(s, from, |s|, matcher);
    } else {
      var m := ms[0];
      assert matcher(s, m.start) == Some(m);
      ScanSkipsNoMatch(s, from, m.start, matcher);
      assert Scan(s, m.start, matcher) == [m] + Scan(s, m.end, matcher);
      var rest := ms[1..];
      forall k | 0 <= k < |rest| ensures matcher(s, rest[k].start) == Some(rest[k]) {
        assert rest[k] == ms[k + 1];
      }
      forall k | 0 <= k <= |rest| ensures GapClear(s, m.end, rest, k, matcher) {
        assert GapClear(s, from, ms, k + 1, matcher);
        assert GapStart(m.end, rest, k) == GapStart(from, ms, k + 1);
        assert GapEnd(s, rest, k) == GapEnd(s, ms, k + 1);
      }
      FindAllUnique(s, m.end, rest, matcher);
    }
  }

  /** Matches never overlap and come in the order of their positions in the content. */
  lemma {:induction false} ScanOrdered(s: string, from: nat, matcher: Matcher, k: nat, l: nat)
    requires from <= |s| && Advances(matcher)
    requires k < l < |Scan(s, from, matcher)|
    ensures Scan(s, from, matcher)[k].end <= Scan(s, from, matcher)[l].start
    decreases |s| - from
  {
    var r := Scan(s, from, matcher);
    match matcher(s, from)
    case Some(m) =>
      assert r == [m] + Scan(s, m.end, matcher);
      if k > 0 {
        ScanOrdered(s, m.end, matcher, k - 1, l - 1);
      }
    case None =>
      ScanOrdered(s, from + 1, matcher, k, l);
  }

  /** Content in which the pattern matches nowhere yields no matches, and only such content does. */
  lemma ScanEmptyIff(s: string, matcher: Matcher)
    requires Advances(matcher)
    ensures Scan(s, 0, matcher) == [] <==> NoMatchIn(s, 0, |s|, matcher)
  {
    var empty: seq<Match> := [];
    ScanIsFindAll(s, 0, matcher);
    assert GapClear(s, 0, Scan(s, 0, matcher), 0, matcher);
    if NoMatchIn(s, 0, |s|, matcher) {
      assert GapClear(s, 0, empty, 0, matcher);
      FindAllUnique(s, 0, empty, matcher);
    }
  }

  /** The scanning loop: findall over the whole content. */
  method FindAll(s: string, matcher: Matcher) returns (ms: seq<Match>)
    requires Advances(matcher)
    ensures ms == Scan(s, 0, matcher)
  {
    ms := [];
    var i := 0;
    while i < |s|
      invariant i <= |s|
      invariant ms + Scan(s, i, matcher) == Scan(s, 0, matcher)
      decreases |s| - i
    {
      match matcher(s, i)
      case Some(m) =>
        assert Scan(s, i, matcher) == [m] + Scan(s, m.end, matcher);
        assert (ms + [m]) + Scan(s, m.end, matcher) == ms + ([m] + Scan(s, m.end, matcher));
        ms := ms + [m];
        i := m.end;
      case None =>
        i := i + 1;
    }
  }
}
