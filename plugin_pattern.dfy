/**
 * A hand-written matcher for the one regular expression the extractor uses:
 *
 *   id\s+['"]([^'"]+)['"]\s+version\s+['"]([^'"]+)['"]
 *
 * Each `\s+` is followed by something that is not whitespace and each
 * `[^'"]+` by a quote, so a greedy run is the only way any of them can take
 * part in a match: whether the pattern matches at a position, and what it
 * captures, is determined without backtracking. MatchAt computes that
 * outcome piece by piece; MatchAtSound and MatchAtComplete show that it
 * agrees with the declarative reading of the pattern given by Decl and Text.
 */
module PluginPattern {
  import opened Wrappers

  /** The whitespace class `\s`, restricted to ASCII: space, \t, \n, \r, \f, \v. */
  predicate IsSpace(c: char) {
    c == ' ' || c == '\t' || c == '\n' || c == '\r' || c == '\U{000C}' || c == '\U{000B}'
  }

  /** The quote class `['"]`. */
  predicate IsQuote(c: char) {
    c == '\'' || c == '"'
  }

  /** The two character classes the pattern repeats with `+`. */
  datatype CharClass = Whitespace | NotQuote {
    predicate Has(c: char) {
      match this
      case Whitespace => IsSpace(c)
      case NotQuote => !IsQuote(c)
    }
  }

  /** `t` is one or more whitespace characters: what `\s+` consumes. */
  predicate IsGap(t: string) {
    |t| > 0 && forall k :: 0 <= k < |t| ==> IsSpace(t[k])
  }

  /** `t` is one or more non-quote characters: what `([^'"]+)` captures. */
  predicate IsCapture(t: string) {
    |t| > 0 && forall k :: 0 <= k < |t| ==> !IsQuote(t[k])
  }

  /** Length of the longest run of characters of class `cls` in `s` starting at `j`. */
  function RunFrom(s: string, j: nat, cls: CharClass): (n: nat)
    requires j <= |s|
    ensures j + n <= |s|
    ensures forall k :: j <= k < j + n ==> cls.Has(s[k])
    ensures j + n == |s| || !cls.Has(s[j + n])
    decreases |s| - j
  {
    if j == |s| || !cls.Has(s[j]) then 0 else 1 + RunFrom(s, j + 1, cls)
  }

  /** The position after the literal `lit` at `j`, if `s` holds it there. */
  function Literal(s: string, j: nat, lit: string): (r: Option<nat>)
    ensures r.Some? <==> j + |lit| <= |s| && s[j..j + |lit|] == lit
    ensures r.Some? ==> r.value == j + |lit|
  {
    if j + |lit| <= |s| && s[j..j + |lit|] == lit then Some(j + |lit|) else None
  }

  /** `\s+` at `j`: the position after the maximal whitespace run, which must not be empty. */
  function Gap(s: string, j: nat): (r: Option<nat>)
    ensures r.Some? ==> j < r.value <= |s|
  {
    if j >= |s| then None else
    var n := RunFrom(s, j, Whitespace);
    if n == 0 then None else Some(j + n)
  }

  /**
   * `['"]([^'"]+)['"]` at `j`: an opening quote, the maximal non-quote run
   * (the capture, not empty) and the quote that ends it. Returns the capture
   * and the position after the closing quote.
   */
  function Quoted(s: string, j: nat): (r: Option<(string, nat)>)
    ensures r.Some? ==> j + 2 < r.value.1 <= |s|
    ensures r.Some? ==> IsQuote(s[j]) && IsQuote(s[r.value.1 - 1]) && r.value.0 == s[j + 1..r.value.1 - 1]
  {
    if j >= |s| || !IsQuote(s[j]) then None else
    var n := RunFrom(s, j + 1, NotQuote);
    if n == 0 || j + 1 + n == |s| then None else Some((s[j + 1..j + 1 + n], j + n + 2))
  }

  /**
   * `KEYWORD\s+['"]([^'"]+)['"]` at `j`: one clause of a declaration, the
   * keyword being `id` or `version`. Returns the capture and the position
   * after the closing quote.
   */
  function Clause(s: string, j: nat, keyword: string): (r: Option<(string, nat)>)
    ensures r.Some? ==> j + |keyword| + 3 < r.value.1 <= |s|
  {
    var a :- Literal(s, j, keyword);
    var b :- Gap(s, a);
    Quoted(s, b)
  }

  /** One match of the pattern: where it starts and ends in the content, and its two captures. */
  datatype Match = Match(start: nat, end: nat, plugin: string, version: string)

  /**
   * The outcome of trying the pattern at position `i` of `s`: the match
   * starting there, if any. The pattern is not anchored, so `id` may be the
   * tail of a longer word, and the quotes around a capture need not be the
   * same character.
   */
  function MatchAt(s: string, i: nat): (r: Option<Match>)
    ensures r.Some? ==> r.value.start == i && i < r.value.end <= |s|
  {
    var p :- Clause(s, i, "id");
    var b :- Gap(s, p.1);
    var v :- Clause(s, b, "version");
    Some(Match(i, v.1, p.0, v.0))
  }

  /** A quoted capture as the pattern reads it: opening quote, capture, closing quote. */
  datatype QuotedText = QuotedText(open: char, capture: string, close: char)

  /** A clause as the pattern reads it, after its keyword: the gap, then the quoted capture. */
  datatype ClauseText = ClauseText(gap: string, quoted: QuotedText)

  /**
   * A plugin declaration as the pattern reads it: `id` and its clause, a
   * gap, then `version` and its clause.
   */
  datatype Decl = Decl(plugin: ClauseText, gap: string, version: ClauseText)

  predicate QuotedWellFormed(q: QuotedText) {
    IsQuote(q.open) && IsCapture(q.capture) && IsQuote(q.close)
  }

  predicate ClauseWellFormed(c: ClauseText) {
    IsGap(c.gap) && QuotedWellFormed(c.quoted)
  }

  /** The pieces satisfy the pattern's character classes. */
  predicate WellFormed(d: Decl) {
    ClauseWellFormed(d.plugin) && IsGap(d.gap) && ClauseWellFormed(d.version)
  }

  function QuotedSpelling(q: QuotedText): string {
    [q.open] + (q.capture + [q.close])
  }

  function ClauseSpelling(keyword: string, c: ClauseText): string {
    keyword + (c.gap + QuotedSpelling(c.quoted))
  }

  /** The text a declaration spells. */
  function Text(d: Decl): string {
    ClauseSpelling("id", d.plugin) + (d.gap + ClauseSpelling("version", d.version))
  }

  /** The plugin id and version a declaration names. */
  function Captures(d: Decl): (string, string) {
    (d.plugin.quoted.capture, d.version.quoted.capture)
  }

  /** Two adjacent slices of `s` join into one. */
  lemma SliceJoin(s: string, x: nat, y: nat, z: nat)
    requires x <= y <= z <= |s|
    ensures s[x..y] + s[y..z] == s[x..z]
  {
    assert forall k :: 0 <= k < z - x ==> (s[x..y] + s[y..z])[k] == s[x..z][k];
  }

  /** If `s` holds `u + w` at `j`, it holds `u` at `j` and `w` right after it. */
  lemma SliceSplit(s: string, j: nat, u: string, w: string)
    requires j + |u + w| <= |s| && s[j..j + |u + w|] == u + w
    ensures s[j..j + |u|] == u
    ensures s[j + |u|..j + |u| + |w|] == w
  {
    var t := s[j..j + |u + w|];
    assert s[j..j + |u|] == t[..|u|];
    assert t[..|u|] == u;
    assert s[j + |u|..j + |u| + |w|] == t[|u|..];
    assert t[|u|..] == w;
  }

  /** A maximal run computed by RunFrom is exactly the block `t` that `s` holds at `j`. */
  lemma {:induction false} RunFromBlock(s: string, j: nat, t: string, cls: CharClass)
    requires j + |t| <= |s| && s[j..j + |t|] == t
    requires forall k :: 0 <= k < |t| ==> cls.Has(t[k])
    requires j + |t| == |s| || !cls.Has(s[j + |t|])
    ensures RunFrom(s, j, cls) == |t|
    decreases |t|
  {
    if |t| > 0 {
      assert s[j] == t[0];
      assert s[j + 1..j + 1 + |t[1..]|] == t[1..];
      RunFromBlock(s, j + 1, t[1..], cls);
    }
  }

  /** Soundness of one gap: what Gap consumes is whitespace, and it stops at a non-space. */
  lemma GapSound(s: string, j: nat)
    requires Gap(s, j).Some?
    ensures IsGap(s[j..Gap(s, j).value])
    ensures Gap(s, j).value == |s| || !IsSpace(s[Gap(s, j).value])
  {
  }

  /** Completeness of one gap: a whitespace block followed by a non-space is what Gap consumes. */
  lemma GapComplete(s: string, j: nat, t: string)
    requires IsGap(t)
    requires j + |t| < |s| && s[j..j + |t|] == t && !IsSpace(s[j + |t|])
    ensures Gap(s, j) == Some(j + |t|)
  {
    RunFromBlock(s, j, t, Whitespace);
  }

  /** Soundness of one quoted capture: what Quoted reports spells a well-formed quoted text. */
  lemma QuotedSound(s: string, j: nat) returns (q: QuotedText)
    requires Quoted(s, j).Some?
    ensures QuotedWellFormed(q) && q.capture == Quoted(s, j).value.0
    ensures QuotedSpelling(q) == s[j..Quoted(s, j).value.1]
  {
    var g := Quoted(s, j).value.1;
    q := QuotedText(s[j], s[j + 1..g - 1], s[g - 1]);
    assert IsCapture(q.capture);
    SliceJoin(s, j + 1, g - 1, g);
    SliceJoin(s, j, j + 1, g);
  }

  /** Completeness of one quoted capture. */
  lemma QuotedComplete(s: string, j: nat, q: QuotedText)
    requires QuotedWellFormed(q)
    requires j + |QuotedSpelling(q)| <= |s| && s[j..j + |QuotedSpelling(q)|] == QuotedSpelling(q)
    ensures Quoted(s, j) == Some((q.capture, j + |QuotedSpelling(q)|))
  {
    SliceSplit(s, j, [q.open], q.capture + [q.close]);
    SliceSplit(s, j + 1, q.capture, [q.close]);
    assert s[j] == q.open;
    assert s[j + 1 + |q.capture|] == q.close;
    RunFromBlock(s, j + 1, q.capture, NotQuote);
  }

  /** Soundness of one clause: what Clause reports spells a well-formed clause after the keyword. */
  lemma ClauseSound(s: string, j: nat, keyword: string) returns (c: ClauseText)
    requires Clause(s, j, keyword).Some?
    ensures ClauseWellFormed(c) && c.quoted.capture == Clause(s, j, keyword).value.0
    ensures ClauseSpelling(keyword, c) == s[j..Clause(s, j, keyword).value.1]
  {
    var a := j + |keyword|;
    var b := Gap(s, a).value;
    assert Clause(s, j, keyword) == Quoted(s, b);
    var h := Quoted(s, b).value.1;
    GapSound(s, a);
    var q := QuotedSound(s, b);
    c := ClauseText(s[a..b], q);
    SliceJoin(s, a, b, h);
    SliceJoin(s, j, a, h);
  }

  /** Completeness of one clause. */
  lemma ClauseComplete(s: string, j: nat, keyword: string, c: ClauseText)
    requires ClauseWellFormed(c)
    requires j + |ClauseSpelling(keyword, c)| <= |s|
    requires s[j..j + |ClauseSpelling(keyword, c)|] == ClauseSpelling(keyword, c)
    ensures Clause(s, j, keyword) == Some((c.quoted.capture, j + |ClauseSpelling(keyword, c)|))
  {
    var qs := QuotedSpelling(c.quoted);
    var a := j + |keyword|;
    var b := a + |c.gap|;
    SliceSplit(s, j, keyword, c.gap + qs);
    SliceSplit(s, a, c.gap, qs);
    assert qs[0] == c.quoted.open;
    assert s[b] == c.quoted.open;
    GapComplete(s, a, c.gap);
    QuotedComplete(s, b, c.quoted);
    ClauseOfPieces(s, j, keyword, b, b + |qs|, c.quoted.capture);
  }

  /** Clause assembled from the outcomes of its pieces. */
  lemma ClauseOfPieces(s: string, j: nat, keyword: string, b: nat, e: nat, capture: string)
    requires Literal(s, j, keyword).Some? && Gap(s, j + |keyword|) == Some(b)
    requires Quoted(s, b) == Some((capture, e))
    ensures Clause(s, j, keyword) == Some((capture, e))
  {
  }

  /**
   * Every match MatchAt reports is the text of a well-formed declaration
   * whose captures are the ones reported.
   */
  lemma MatchAtSound(s: string, i: nat) returns (d: Decl)
    requires MatchAt(s, i).Some?
    ensures WellFormed(d)
    ensures Text(d) == s[i..MatchAt(s, i).value.end]
    ensures Captures(d) == (MatchAt(s, i).value.plugin, MatchAt(s, i).value.version)
  {
    var a := Clause(s, i, "id").value.1;
    var b := Gap(s, a).value;
    var h := Clause(s, b, "version").value.1;
    var p := ClauseSound(s, i, "id");
    GapSound(s, a);
    var v := ClauseSound(s, b, "version");
    d := Decl(p, s[a..b], v);
    SliceJoin(s, a, b, h);
    SliceJoin(s, i, a, h);
  }

  /**
   * Conversely, wherever the text of a well-formed declaration starts,
   * MatchAt finds exactly that declaration: the same end and the same
   * captures. So the outcome of the pattern at a position is unique.
   */
  lemma MatchAtComplete(s: string, i: nat, d: Decl)
    requires WellFormed(d)
    requires i + |Text(d)| <= |s| && s[i..i + |Text(d)|] == Text(d)
    ensures MatchAt(s, i) == Some(Match(i, i + |Text(d)|, Captures(d).0, Captures(d).1))
  {
    var ps, vs := ClauseSpelling("id", d.plugin), ClauseSpelling("version", d.version);
    var a := i + |ps|;
    var b := a + |d.gap|;
    assert Text(d) == ps + (d.gap + vs);
    SliceSplit(s, i, ps, d.gap + vs);
    SliceSplit(s, a, d.gap, vs);
    assert vs[0] == 'v';
    assert s[b] == 'v';
    ClauseComplete(s, i, "id", d.plugin);
    GapComplete(s, a, d.gap);
    ClauseComplete(s, b, "version", d.version);
    MatchAtOfPieces(s, i, a, b, b + |vs|, Captures(d).0, Captures(d).1);
  }

  /** MatchAt assembled from the outcomes of its pieces. */
  lemma MatchAtOfPieces(s: string, i: nat, a: nat, b: nat, e: nat, plugin: string, version: string)
    requires Clause(s, i, "id") == Some((plugin, a)) && Gap(s, a) == Some(b)
    requires Clause(s, b, "version") == Some((version, e))
    ensures MatchAt(s, i) == Some(Match(i, e, plugin, version))
  {
  }

  /** The captures of every match are non-empty and hold no quote character. */
  lemma MatchAtCaptures(s: string, i: nat)
    requires MatchAt(s, i).Some?
    ensures IsCapture(MatchAt(s, i).value.plugin) && IsCapture(MatchAt(s, i).value.version)
  {
    var d := MatchAtSound(s, i);
  }
}
