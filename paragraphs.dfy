/**
 * The paragraph segmenter `split_into_paragraphs`: the substitution
 * `re.sub(r"\n\s*\n+", "\n\n", text)`, then `split("\n\n")`, then
 * `strip()` of every chunk, keeping the non-empty ones.
 */
module Paragraphs {
  import opened Strings

  // ---------------------------------------------------------------------
  // The pattern \n\s*\n+ and the substitution
  // ---------------------------------------------------------------------

  /** The strings matched by `\n\s*\n+`: at least two characters, all of
      them whitespace, the first and the last a newline. */
  predicate BlankGap(t: string) {
    2 <= |t| && t[0] == '\n' && t[|t| - 1] == '\n' && AllSpace(t)
  }

  /** `t` reads as the pattern literally, with `\s*` covering `t[1..k]`
      and `\n+` covering `t[k..]`. */
  predicate PatternParse(t: string, k: int) {
    && 1 <= k < |t|
    && t[0] == '\n'
    && AllSpace(t[1..k])
    && forall j :: k <= j < |t| ==> t[j] == '\n'
  }

  /** `BlankGap` is exactly the language of `\n\s*\n+`. */
  lemma BlankGapIsPattern(t: string)
    ensures BlankGap(t) <==> exists k :: PatternParse(t, k)
  {
    if BlankGap(t) {
      assert PatternParse(t, |t| - 1);
    }
    if exists k :: PatternParse(t, k) {
      var k :| PatternParse(t, k);
      forall i | 0 <= i < |t| ensures IsSpace(t[i]) {
        if 1 <= i < k { assert t[i] == t[1..k][i - 1]; }
      }
    }
  }

  /** Position of the last newline of `t`, or -1 when there is none. */
  function LastNewline(t: string): (k: int)
    ensures -1 <= k < |t|
    ensures k >= 0 ==> t[k] == '\n'
    ensures forall j :: k < j < |t| ==> t[j] != '\n'
    decreases |t|
  {
    if t == [] then -1
    else if t[|t| - 1] == '\n' then |t| - 1
    else LastNewline(t[..|t| - 1])
  }

  lemma LastNewlineUnique(t: string, k: int)
    requires -1 <= k < |t|
    requires k >= 0 ==> t[k] == '\n'
    requires forall j :: k < j < |t| ==> t[j] != '\n'
    ensures LastNewline(t) == k
  {
  }

  lemma LastNewlineSuffix(t: string, f: nat)
    requires f <= LastNewline(t)
    ensures LastNewline(t[f..]) == LastNewline(t) - f
  {
    var l := LastNewline(t);
    forall j | l - f < j < |t| - f ensures t[f..][j] != '\n' {
      assert t[f..][j] == t[j + f];
    }
    LastNewlineUnique(t[f..], l - f);
  }

  /** Position of the first newline of `t`, or -1 when there is none. */
  function FirstNewline(t: string): (k: int)
    ensures -1 <= k < |t|
    ensures k >= 0 ==> t[k] == '\n'
    ensures forall j :: 0 <= j < |t| && (k < 0 || j < k) ==> t[j] != '\n'
    decreases |t|
  {
    if t == [] then -1
    else if t[0] == '\n' then 0
    else
      var k := FirstNewline(t[1..]);
      if k < 0 then -1 else k + 1
  }

  /** Length of the match of `\n\s*\n+` at the start of `s`, 0 when it
      does not match there. The greedy `\s*` backtracks to just before the
      last newline of the whitespace run and `\n+` takes that newline. */
  function MatchLength(s: string): (m: nat)
    ensures m <= |s|
  {
    if s == [] || s[0] != '\n' then 0
    else
      var k := LastNewline(s[..LeadingSpace(s)]);
      if k > 0 then k + 1 else 0
  }

  /** The match is the longest prefix of `s` in the pattern's language. */
  lemma MatchLengthLongest(s: string)
    ensures MatchLength(s) > 0 ==> BlankGap(s[..MatchLength(s)])
    ensures forall j :: MatchLength(s) < j <= |s| ==> !BlankGap(s[..j])
  {
    var m := MatchLength(s);
    if s != [] && s[0] == '\n' {
      var w := LeadingSpace(s);
      assert m > 0 ==> s[..m] == s[..w][..m];
      forall j | m < j <= |s| ensures !BlankGap(s[..j]) {
        if BlankGap(s[..j]) {
          SpacePrefixWithinLead(s, j);
        }
      }
    } else {
      assert forall j :: 0 < j <= |s| ==> s[..j][0] == s[0];
    }
  }

  /** The match ends at the last newline of the whitespace run: what
      remains of the run holds no newline. */
  lemma GreedyExtent(s: string)
    ensures MatchLength(s) <= LeadingSpace(s)
    ensures MatchLength(s) > 0 ==>
      forall k :: MatchLength(s) <= k < LeadingSpace(s) ==> s[k] != '\n'
    ensures MatchLength(s) == 0 && s != [] && s[0] == '\n' ==>
      forall k :: 1 <= k < LeadingSpace(s) ==> s[k] != '\n'
  {
    var m := MatchLength(s);
    if m > 0 {
      SpacePrefixWithinLead(s, m);
    }
    if s != [] && s[0] == '\n' {
      var w := LeadingSpace(s);
      assert forall k :: 0 <= k < w ==> s[k] == s[..w][k];
    }
  }

  /** `re.sub(r"\n\s*\n+", "\n\n", s)`: scan from the left; where the
      pattern matches, emit `"\n\n"` and resume after the match, otherwise
      copy one character. */
  function Normalize(s: string): string
    decreases |s|
  {
    if s == [] then [] else Emitted(s) + Normalize(s[Consumed(s)..])
  }

  /** How many characters one step of the scan consumes: the whole match,
      or the one character copied. */
  function Consumed(s: string): (n: nat)
    requires s != []
    ensures 1 <= n <= |s|
    ensures n == 1 || n == MatchLength(s)
  {
    if MatchLength(s) > 0 then MatchLength(s) else 1
  }

  /** What one step of the scan emits: the replacement, or the character
      copied. */
  function Emitted(s: string): (r: string)
    requires s != []
    ensures MatchLength(s) > 0 ==> r == "\n\n"
    ensures MatchLength(s) == 0 ==> r == [s[0]]
  {
    if MatchLength(s) > 0 then "\n\n" else [s[0]]
  }

  lemma NormalizeUnfold(s: string)
    requires s != []
    ensures Normalize(s) == Emitted(s) + Normalize(s[Consumed(s)..])
  {
  }

  // ---------------------------------------------------------------------
  // Composition of the substitution
  // ---------------------------------------------------------------------

  /** Cutting `a + b` between `a` and `b` does not cut a whitespace run. */
  predicate Boundary(a: string, b: string) {
    a == [] || b == [] || !IsSpace(a[|a| - 1]) || !IsSpace(b[0])
  }

  lemma {:induction false} LeadingSpaceAppend(a: string, b: string)
    requires a != [] && Boundary(a, b)
    ensures LeadingSpace(a + b) == LeadingSpace(a)
    decreases |a|
  {
    if IsSpace(a[0]) {
      assert (a + b)[1..] == a[1..] + b;
      if |a| > 1 {
        LeadingSpaceAppend(a[1..], b);
      }
    }
  }

  lemma MatchLengthAppend(a: string, b: string)
    requires a != [] && Boundary(a, b)
    ensures MatchLength(a + b) == MatchLength(a)
  {
    if a[0] == '\n' {
      LeadingSpaceAppend(a, b);
      var w := LeadingSpace(a);
      assert (a + b)[..w] == a[..w];
    }
  }

  /** One step of the scan over `a + b` is the step over `a`. */
  lemma AppendStep(a: string, b: string)
    requires a != [] && Boundary(a, b)
    ensures Consumed(a + b) == Consumed(a) && Emitted(a + b) == Emitted(a)
    ensures (a + b)[Consumed(a)..] == a[Consumed(a)..] + b
    ensures Boundary(a[Consumed(a)..], b)
  {
    MatchLengthAppend(a, b);
    var d := Consumed(a);
    assert (a + b)[0] == a[0];
    assert (a + b)[d..] == a[d..] + b;
    assert a[d..] != [] ==> a[d..][|a[d..]| - 1] == a[|a| - 1];
  }

  /** The substitution works separately on the two sides of a cut that
      does not fall inside a whitespace run. */
  lemma {:induction false} NormalizeAppend(a: string, b: string)
    requires Boundary(a, b)
    ensures Normalize(a + b) == Normalize(a) + Normalize(b)
    decreases |a|
  {
    if a == [] {
      assert a + b == b;
    } else {
      AppendStep(a, b);
      var k := Consumed(a);
      NormalizeAppend(a[k..], b);
      NormalizeUnfold(a);
      NormalizeUnfold(a + b);
      AppendAssoc(Emitted(a), Normalize(a[k..]), Normalize(b));
    }
  }

  /** A newline-free prefix is copied unchanged. */
  lemma {:induction false} NormalizeNewlineFreePrefix(a: string, b: string)
    requires forall k :: 0 <= k < |a| ==> a[k] != '\n'
    ensures Normalize(a + b) == a + Normalize(b)
    decreases |a|
  {
    if a != [] {
      var s := a + b;
      assert s[0] == a[0] && s[1..] == a[1..] + b;
      assert Consumed(s) == 1 && Emitted(s) == [a[0]];
      NormalizeUnfold(s);
      NormalizeNewlineFreePrefix(a[1..], b);
      assert [a[0]] + a[1..] == a;
      AppendAssoc([a[0]], a[1..], Normalize(b));
    } else {
      assert a + b == b;
    }
  }

  // ---------------------------------------------------------------------
  // Reference reading: collapse every whitespace run
  // ---------------------------------------------------------------------

  /** A whitespace run with at least two newlines has the part from its
      first to its last newline replaced by `"\n\n"`; whitespace before
      the first and after the last newline stays. */
  function CollapseRun(run: string): string {
    var f, l := FirstNewline(run), LastNewline(run);
    if 0 <= f < l then run[..f] + ("\n\n" + run[l + 1..]) else run
  }

  /** The substitution described run by run: non-whitespace characters are
      copied, each maximal whitespace run is collapsed. */
  function CollapseRuns(s: string): string
    decreases |s|
  {
    if s == [] then []
    else if !IsSpace(s[0]) then [s[0]] + CollapseRuns(s[1..])
    else
      var w := LeadingSpace(s);
      CollapseRun(s[..w]) + CollapseRuns(s[w..])
  }

  lemma NormalizeNewlineFree(x: string)
    requires forall k :: 0 <= k < |x| ==> x[k] != '\n'
    ensures Normalize(x) == x
  {
    NormalizeNewlineFreePrefix(x, []);
    assert x + [] == x;
  }

  lemma NewlineFreeAfterLast(t: string, f: nat)
    requires LastNewline(t) < f <= |t|
    ensures forall k :: 0 <= k < |t[f..]| ==> t[f..][k] != '\n'
  {
    forall k | 0 <= k < |t[f..]| ensures t[f..][k] != '\n' {
      assert t[f..][k] == t[f + k];
    }
  }

  /** A whitespace run that starts with a newline. */
  lemma RunMatchLength(v: string)
    requires AllSpace(v) && v != [] && v[0] == '\n'
    ensures var l := LastNewline(v);
      MatchLength(v) == if l > 0 then l + 1 else 0
  {
    assert v[..|v|] == v;
    SpacePrefixWithinLead(v, |v|);
    assert v[..LeadingSpace(v)] == v;
  }

  /** A step past the last newline leaves only text that is copied. */
  lemma NormalizeStepPastNewlines(v: string)
    requires v != [] && LastNewline(v) < Consumed(v)
    ensures Normalize(v) == Emitted(v) + v[Consumed(v)..]
  {
    NormalizeUnfold(v);
    NewlineFreeAfterLast(v, Consumed(v));
    NormalizeNewlineFree(v[Consumed(v)..]);
  }

  lemma NormalizeNewlineRun(v: string)
    requires AllSpace(v) && v != [] && v[0] == '\n'
    ensures var l := LastNewline(v);
      Normalize(v) == if l > 0 then "\n\n" + v[l + 1..] else v
  {
    RunMatchLength(v);
    NormalizeStepPastNewlines(v);
    if LastNewline(v) == 0 {
      assert [v[0]] + v[1..] == v;
    }
  }

  lemma NormalizeRunFromNewline(run: string, f: nat)
    requires AllSpace(run) && f < |run| && run[f] == '\n'
    ensures f <= LastNewline(run)
    ensures var l := LastNewline(run);
      Normalize(run[f..]) == if f < l then "\n\n" + run[l + 1..] else run[f..]
  {
    var v := run[f..];
    assert AllSpace(v) && v[0] == '\n';
    LastNewlineSuffix(run, f);
    NormalizeNewlineRun(v);
    var l := LastNewline(run);
    assert v[l - f + 1..] == run[l + 1..];
  }

  lemma CollapseRunAt(run: string)
    requires 0 <= FirstNewline(run) < LastNewline(run)
    ensures CollapseRun(run) == run[..FirstNewline(run)] + ("\n\n" + run[LastNewline(run) + 1..])
  {
  }

  lemma NormalizeRun(run: string)
    requires AllSpace(run)
    ensures Normalize(run) == CollapseRun(run)
  {
    var f := FirstNewline(run);
    if f < 0 {
      NormalizeNewlineFree(run);
    } else {
      var u, v := run[..f], run[f..];
      assert run == u + v;
      NormalizeNewlineFreePrefix(u, v);
      NormalizeRunFromNewline(run, f);
      var l := LastNewline(run);
      assert Normalize(run) == u + Normalize(v);
      if f < l {
        CollapseRunAt(run);
      } else {
        assert CollapseRun(run) == run;
      }
    }
  }

  /** The regex scan and the run-by-run reading agree on every input. */
  lemma {:induction false} NormalizeIsCollapseRuns(s: string)
    ensures Normalize(s) == CollapseRuns(s)
    decreases |s|
  {
    if s == [] {
    } else if !IsSpace(s[0]) {
      NormalizeIsCollapseRuns(s[1..]);
    } else {
      var w := LeadingSpace(s);
      assert s == s[..w] + s[w..];
      NormalizeAppend(s[..w], s[w..]);
      NormalizeRun(s[..w]);
      NormalizeIsCollapseRuns(s[w..]);
    }
  }

  // ---------------------------------------------------------------------
  // What the substitution leaves behind
  // ---------------------------------------------------------------------

  /** Every blank-line gap of `s` is exactly `"\n\n"`. */
  predicate SingleBlankLines(s: string) {
    forall i, j :: 0 <= i < j <= |s| && BlankGap(s[i..j]) ==> s[i..j] == "\n\n"
  }

  /** The same, stated at each position through the match length. */
  predicate GapsCollapsed(s: string) {
    forall i :: 0 <= i < |s| ==> MatchLength(s[i..]) <= 2
  }

  lemma GapWhereCollapsed(s: string, i: nat, j: nat)
    requires i < j <= |s| && MatchLength(s[i..]) <= 2 && BlankGap(s[i..j])
    ensures s[i..j] == "\n\n"
  {
    var t := s[i..];
    MatchLengthLongest(t);
    assert t[..j - i] == s[i..j];
  }

  lemma CollapsedWhereSingle(s: string, i: nat)
    requires i < |s| && SingleBlankLines(s)
    ensures MatchLength(s[i..]) <= 2
  {
    var t := s[i..];
    MatchLengthLongest(t);
    var m := MatchLength(t);
    if m > 0 {
      assert t[..m] == s[i..i + m];
    }
  }

  lemma CollapsedIffSingle(s: string)
    ensures GapsCollapsed(s) <==> SingleBlankLines(s)
  {
    if GapsCollapsed(s) {
      forall i, j | 0 <= i < j <= |s| && BlankGap(s[i..j]) ensures s[i..j] == "\n\n" {
        GapWhereCollapsed(s, i, j);
      }
    }
    if SingleBlankLines(s) {
      forall i | 0 <= i < |s| ensures MatchLength(s[i..]) <= 2 {
        CollapsedWhereSingle(s, i);
      }
    }
  }

  /** The whitespace run at the front of `s` holds no newline. */
  predicate QuietLead(s: string) {
    forall k :: 0 <= k < LeadingSpace(s) ==> s[k] != '\n'
  }

  lemma QuietAfterNewline(n: string)
    requires QuietLead(n)
    ensures LeadingSpace("\n" + n) == 1 + LeadingSpace(n)
    ensures MatchLength("\n" + n) == 0
  {
    var x := "\n" + n;
    assert x[1..] == n;
    var wx := LeadingSpace(x);
    assert forall j :: 0 < j < wx ==> x[..wx][j] == n[j - 1];
    LastNewlineUnique(x[..wx], 0);
  }

  lemma QuietAfterNewlines(n: string)
    requires QuietLead(n)
    ensures MatchLength("\n" + n) == 0
    ensures MatchLength("\n\n" + n) == 2
  {
    QuietAfterNewline(n);
    var x, y := "\n" + n, "\n\n" + n;
    assert y[1..] == x;
    var wy := LeadingSpace(y);
    assert wy == 2 + LeadingSpace(n);
    assert forall j :: 1 < j < wy ==> y[..wy][j] == n[j - 2];
    LastNewlineUnique(y[..wy], 1);
  }

  lemma QuietLeadTail(s: string)
    requires s != [] && IsSpace(s[0]) && QuietLead(s)
    ensures s[0] != '\n' && QuietLead(s[1..])
  {
    assert LeadingSpace(s[1..]) == LeadingSpace(s) - 1;
    forall k | 0 <= k < LeadingSpace(s[1..]) ensures s[1..][k] != '\n' {
      assert s[1..][k] == s[k + 1];
    }
  }

  lemma QuietLeadCons(c: char, n: string)
    requires IsSpace(c) && c != '\n' && QuietLead(n)
    ensures QuietLead([c] + n)
  {
    var r := [c] + n;
    assert r[1..] == n;
    assert LeadingSpace(r) == 1 + LeadingSpace(n);
  }

  lemma {:induction false} NormalizeQuietLead(s: string)
    requires QuietLead(s)
    ensures QuietLead(Normalize(s))
    decreases |s|
  {
    if s != [] {
      if IsSpace(s[0]) {
        QuietLeadTail(s);
      }
      assert MatchLength(s) == 0;
      NormalizeUnfold(s);
      if IsSpace(s[0]) {
        NormalizeQuietLead(s[1..]);
        QuietLeadCons(s[0], Normalize(s[1..]));
      } else {
        assert Normalize(s)[0] == s[0];
      }
    }
  }

  /** After a step from a newline, the rest of the whitespace run holds
      no newline. */
  lemma QuietRest(s: string)
    requires s != [] && s[0] == '\n'
    ensures QuietLead(s[Consumed(s)..])
  {
    var d := Consumed(s);
    GreedyExtent(s);
    LeadingSpaceSuffix(s, d);
    forall k | 0 <= k < LeadingSpace(s[d..]) ensures s[d..][k] != '\n' {
      assert s[d..][k] == s[k + d];
    }
  }

  /** Putting one step's output in front of a collapsed string keeps it
      collapsed, provided a newline is not followed by more newlines. */
  lemma ConsCollapsed(h: string, n: string)
    requires GapsCollapsed(n)
    requires h == "\n\n" || |h| == 1
    requires h[0] == '\n' ==> QuietLead(n)
    ensures GapsCollapsed(h + n)
  {
    var r := h + n;
    if h[0] == '\n' {
      QuietAfterNewlines(n);
    }
    forall i | 0 <= i < |r| ensures MatchLength(r[i..]) <= 2 {
      if i >= |h| {
        assert r[i..] == n[i - |h|..];
      } else if i == 1 {
        assert r[1..] == "\n" + n;
      } else if h[0] == '\n' {
        assert r[0..] == h + n;
      } else {
        assert r[i..][0] != '\n';
      }
    }
  }

  lemma {:induction false} NormalizeGapsCollapsed(s: string)
    ensures GapsCollapsed(Normalize(s))
    decreases |s|
  {
    if s != [] {
      var d := Consumed(s);
      NormalizeGapsCollapsed(s[d..]);
      NormalizeUnfold(s);
      if s[0] == '\n' {
        QuietRest(s);
        NormalizeQuietLead(s[d..]);
      }
      ConsCollapsed(Emitted(s), Normalize(s[d..]));
    }
  }

  /** The substitution's output has no blank-line gap other than
      `"\n\n"`. */
  lemma NormalizeLeavesSingleBlankLines(s: string)
    ensures SingleBlankLines(Normalize(s))
  {
    NormalizeGapsCollapsed(s);
    CollapsedIffSingle(Normalize(s));
  }

  lemma GapsCollapsedSuffix(s: string, d: nat)
    requires d <= |s| && GapsCollapsed(s)
    ensures GapsCollapsed(s[d..])
  {
    forall i | 0 <= i < |s[d..]| ensures MatchLength(s[d..][i..]) <= 2 {
      assert s[d..][i..] == s[i + d..];
    }
  }

  /** On a collapsed string each step emits what it consumes. */
  lemma StepKeepsCollapsed(s: string)
    requires s != [] && GapsCollapsed(s)
    ensures Emitted(s) + s[Consumed(s)..] == s
  {
    assert s[0..] == s;
    if MatchLength(s) > 0 {
      MatchLengthLongest(s);
    }
    assert s == s[..Consumed(s)] + s[Consumed(s)..];
  }

  lemma {:induction false} NormalizeFixesCollapsed(s: string)
    requires GapsCollapsed(s)
    ensures Normalize(s) == s
    decreases |s|
  {
    if s != [] {
      var d := Consumed(s);
      GapsCollapsedSuffix(s, d);
      NormalizeFixesCollapsed(s[d..]);
      NormalizeUnfold(s);
      StepKeepsCollapsed(s);
    }
  }

  /** A string is left unchanged by the substitution exactly when its
      blank-line gaps are all `"\n\n"`. */
  lemma NormalizeFixedPoints(s: string)
    ensures Normalize(s) == s <==> SingleBlankLines(s)
  {
    CollapsedIffSingle(s);
    if SingleBlankLines(s) {
      NormalizeFixesCollapsed(s);
    } else {
      NormalizeLeavesSingleBlankLines(s);
    }
  }

  /** Applying the substitution to its own output changes nothing. */
  lemma NormalizeIdempotent(s: string)
    ensures Normalize(Normalize(s)) == Normalize(s)
  {
    NormalizeLeavesSingleBlankLines(s);
    NormalizeFixedPoints(Normalize(s));
  }

  /** The substitution turns whitespace into whitespace and nothing else
      into whitespace. */
  lemma StepBlankness(s: string)
    requires s != []
    ensures AllSpace(Emitted(s)) <==> AllSpace(s[..Consumed(s)])
  {
    if MatchLength(s) > 0 {
      MatchLengthLongest(s);
    } else {
      assert s[..1] == [s[0]];
    }
  }

  lemma {:induction false} NormalizeKeepsBlankness(s: string)
    ensures AllSpace(Normalize(s)) <==> AllSpace(s)
    decreases |s|
  {
    if s != [] {
      var d := Consumed(s);
      NormalizeUnfold(s);
      NormalizeKeepsBlankness(s[d..]);
      SplitAt(s, d);
      AllSpaceConcat(s[..d], s[d..]);
      AllSpaceConcat(Emitted(s), Normalize(s[d..]));
      StepBlankness(s);
    }
  }

  // ---------------------------------------------------------------------
  // Paragraphs
  // ---------------------------------------------------------------------

  /** `[p.strip() for p in chunks if p.strip()]`. */
  function StripNonEmpty(chunks: seq<string>): seq<string> {
    if chunks == [] then []
    else if Strip(chunks[0]) == [] then StripNonEmpty(chunks[1..])
    else [Strip(chunks[0])] + StripNonEmpty(chunks[1..])
  }

  /** `split_into_paragraphs(text)`. */
  function SplitIntoParagraphs(text: string): seq<string> {
    StripNonEmpty(Split(Normalize(text), "\n\n"))
  }

  /** No part of `p` is a newline, optional whitespace and a newline. */
  predicate NoBlankGap(p: string) {
    forall i, j :: 0 <= i < j <= |p| ==> !BlankGap(p[i..j])
  }

  /** What every paragraph looks like: non-empty, no whitespace at either
      end, and not spanning a blank line. */
  predicate IsParagraph(p: string) {
    p != [] && !IsSpace(p[0]) && !IsSpace(p[|p| - 1]) && NoBlankGap(p)
  }

  lemma SingleBlankLinesSuffix(s: string, d: nat)
    requires d <= |s| && SingleBlankLines(s)
    ensures SingleBlankLines(s[d..])
  {
    forall i, j | 0 <= i < j <= |s[d..]| && BlankGap(s[d..][i..j])
      ensures s[d..][i..j] == "\n\n"
    {
      assert s[d..][i..j] == s[i + d..j + d];
    }
  }

  /** A prefix of `s` whose tail has no blank-line gap has none either,
      when `s` does not start with a blank line and its gaps are single
      blank lines. */
  lemma HeadChunkGapFree(s: string, c: string)
    requires SingleBlankLines(s) && c != [] && c <= s && !("\n\n" <= s)
    requires NoBlankGap(c[1..])
    ensures NoBlankGap(c)
  {
    forall i, j | 0 <= i < j <= |c| ensures !BlankGap(c[i..j]) {
      if i > 0 {
        var d := c[1..];
        assert forall k :: 0 <= k < j - i ==> c[i..j][k] == d[i - 1..j - 1][k];
        assert c[i..j] == d[i - 1..j - 1];
      } else {
        assert c[i..j] == s[..j];
        assert s[..j] == "\n\n" ==> "\n\n" <= s;
      }
    }
  }

  /** The chunks of a text whose gaps are single blank lines do not span
      a blank line. */
  lemma {:induction false} ChunksGapFree(s: string)
    requires SingleBlankLines(s)
    ensures forall k :: 0 <= k < |Split(s, "\n\n")| ==> NoBlankGap(Split(s, "\n\n")[k])
    decreases |s|
  {
    var cs := Split(s, "\n\n");
    if |s| < 2 {
      assert cs == [s];
    } else if "\n\n" <= s {
      SingleBlankLinesSuffix(s, 2);
      ChunksGapFree(s[2..]);
      assert cs == [[]] + Split(s[2..], "\n\n");
    } else {
      SingleBlankLinesSuffix(s, 1);
      ChunksGapFree(s[1..]);
      var rest := Split(s[1..], "\n\n");
      var c := [s[0]] + rest[0];
      assert cs == [c] + rest[1..];
      SplitHeadPrefix(s, "\n\n");
      assert c[1..] == rest[0];
      HeadChunkGapFree(s, c);
      assert forall k :: 1 <= k < |cs| ==> cs[k] == rest[k];
    }
  }

  lemma SliceOfSlice(c: string, a: nat, p: string, i: nat, j: nat)
    requires a + |p| <= |c| && p == c[a..a + |p|] && i <= j <= |p|
    ensures p[i..j] == c[a + i..a + j]
  {
    assert forall k :: 0 <= k < j - i ==> p[i..j][k] == p[i + k] == c[a + i + k];
  }

  lemma StripGapFree(c: string)
    requires NoBlankGap(c)
    ensures NoBlankGap(Strip(c))
  {
    var p, a := Strip(c), LeadingSpace(c);
    forall i, j | 0 <= i < j <= |p| ensures !BlankGap(p[i..j]) {
      SliceOfSlice(c, a, p, i, j);
      assert !BlankGap(c[a + i..a + j]);
    }
  }

  lemma {:induction false} StripNonEmptyParagraphs(cs: seq<string>)
    requires forall k :: 0 <= k < |cs| ==> NoBlankGap(cs[k])
    ensures forall k :: 0 <= k < |StripNonEmpty(cs)| ==> IsParagraph(StripNonEmpty(cs)[k])
  {
    if cs != [] {
      StripGapFree(cs[0]);
      StripNonEmptyParagraphs(cs[1..]);
    }
  }

  /** Every paragraph is non-empty, has no leading or trailing whitespace
      and does not span a blank line. */
  lemma ParagraphsWellFormed(text: string)
    ensures forall k :: 0 <= k < |SplitIntoParagraphs(text)| ==> IsParagraph(SplitIntoParagraphs(text)[k])
  {
    var n := Normalize(text);
    NormalizeLeavesSingleBlankLines(text);
    ChunksGapFree(n);
    StripNonEmptyParagraphs(Split(n, "\n\n"));
  }

  /** Every chunk is whitespace only. */
  predicate AllBlank(cs: seq<string>) {
    forall k :: 0 <= k < |cs| ==> AllSpace(cs[k])
  }

  lemma AllBlankCons(cs: seq<string>)
    requires cs != []
    ensures AllBlank(cs) <==> AllSpace(cs[0]) && AllBlank(cs[1..])
  {
    assert forall k :: 1 <= k < |cs| ==> cs[k] == cs[1..][k - 1];
  }

  lemma {:induction false} JoinAllSpace(cs: seq<string>, sep: string)
    requires AllSpace(sep)
    ensures AllSpace(Join(cs, sep)) <==> AllBlank(cs)
  {
    if |cs| > 1 {
      JoinAllSpace(cs[1..], sep);
      AllBlankCons(cs);
      AllSpaceConcat(cs[0], sep);
      AllSpaceConcat(cs[0] + sep, Join(cs[1..], sep));
    }
  }

  lemma {:induction false} StripNonEmptyEmpty(cs: seq<string>)
    ensures StripNonEmpty(cs) == [] <==> AllBlank(cs)
  {
    if cs != [] {
      StripTrims(cs[0]);
      StripNonEmptyEmpty(cs[1..]);
      AllBlankCons(cs);
    }
  }

  /** A text yields no paragraph exactly when it is empty or whitespace
      only. */
  lemma ParagraphsEmptyIff(text: string)
    ensures SplitIntoParagraphs(text) == [] <==> AllSpace(text)
  {
    var n := Normalize(text);
    var cs := Split(n, "\n\n");
    NormalizeKeepsBlankness(text);
    JoinSplit(n, "\n\n");
    JoinAllSpace(cs, "\n\n");
    StripNonEmptyEmpty(cs);
  }

  // ---------------------------------------------------------------------
  // Document order
  // ---------------------------------------------------------------------

  /** `ps[i]` occurs in `s` at `offs[i]`, and the occurrences follow one
      another without overlapping. */
  predicate InOrder(s: string, ps: seq<string>, offs: seq<nat>) {
    && |offs| == |ps|
    && (forall i :: 0 <= i < |ps| ==> OccursAt(s, ps[i], offs[i]))
    && (forall i, j :: 0 <= i < j < |ps| ==> offs[i] + |ps[i]| <= offs[j])
  }

  /** The same, stated one occurrence at a time: each occurrence ends
      before the next one starts. */
  predicate Placed(s: string, ps: seq<string>, offs: seq<nat>)
    decreases |ps|
  {
    && |offs| == |ps|
    && (ps != [] ==>
          && OccursAt(s, ps[0], offs[0])
          && (|ps| > 1 ==> offs[0] + |ps[0]| <= offs[1])
          && Placed(s, ps[1..], offs[1..]))
  }

  lemma {:induction false} PlacedInOrder(s: string, ps: seq<string>, offs: seq<nat>)
    requires Placed(s, ps, offs)
    ensures InOrder(s, ps, offs)
    ensures ps != [] ==> forall j :: 0 <= j < |ps| ==> offs[0] <= offs[j]
    decreases |ps|
  {
    if ps != [] {
      var ps', offs' := ps[1..], offs[1..];
      PlacedInOrder(s, ps', offs');
      forall i | 0 <= i < |ps| ensures OccursAt(s, ps[i], offs[i]) {
        if i > 0 { assert ps[i] == ps'[i - 1] && offs[i] == offs'[i - 1]; }
      }
      forall i, j | 0 <= i < j < |ps| ensures offs[i] + |ps[i]| <= offs[j] {
        assert offs[j] == offs'[j - 1];
        if i > 0 {
          assert ps[i] == ps'[i - 1] && offs[i] == offs'[i - 1];
        } else {
          assert offs[1] == offs'[0];
        }
      }
    }
  }

  function Shift(offs: seq<nat>, d: nat): (r: seq<nat>)
    ensures |r| == |offs| && forall i :: 0 <= i < |offs| ==> r[i] == offs[i] + d
  {
    seq(|offs|, i requires 0 <= i < |offs| => offs[i] + d)
  }

  /** Where each kept paragraph starts in `Join(cs, sep)`. */
  function Offsets(cs: seq<string>, sep: string): seq<nat> {
    if cs == [] then []
    else
      var rest := Shift(Offsets(cs[1..], sep), |cs[0]| + |sep|);
      if Strip(cs[0]) == [] then rest else [LeadingSpace(cs[0])] + rest
  }

  lemma OccursShift(pre: string, s: string, p: string, a: nat)
    requires OccursAt(s, p, a)
    ensures OccursAt(pre + s, p, a + |pre|)
  {
    assert (pre + s)[a + |pre|..a + |pre| + |p|] == s[a..a + |p|];
  }

  /** Strings placed in `s` stay placed, further on, in `pre + s`. */
  lemma {:induction false} PlacedShift(pre: string, s: string, t: string, ps: seq<string>, offs: seq<nat>, d: nat)
    requires Placed(s, ps, offs) && t == pre + s && d == |pre|
    ensures Placed(t, ps, Shift(offs, d))
    decreases |ps|
  {
    if ps != [] {
      OccursShift(pre, s, ps[0], offs[0]);
      PlacedShift(pre, s, t, ps[1..], offs[1..], d);
      assert Shift(offs, d)[1..] == Shift(offs[1..], d);
    }
  }

  /** The paragraph kept from a chunk at the front of `s` occurs in `s`
      where it occurs in the chunk. */
  lemma KeptOccurs(s: string, c: string)
    requires c <= s
    ensures Strip(c) != [] ==> OccursAt(s, Strip(c), LeadingSpace(c))
  {
    var p, a := Strip(c), LeadingSpace(c);
    if p != [] {
      assert s[a..a + |p|] == c[a..a + |p|];
    }
  }

  lemma PlacedOffsetsSingle(cs: seq<string>, sep: string)
    requires |cs| == 1
    ensures Placed(Join(cs, sep), StripNonEmpty(cs), Offsets(cs, sep))
  {
    var c := cs[0];
    assert StripNonEmpty(cs[1..]) == [] && Offsets(cs[1..], sep) == [];
    KeptOccurs(c, c);
  }

  lemma JoinFront(cs: seq<string>, sep: string)
    requires |cs| > 1
    ensures Join(cs, sep) == (cs[0] + sep) + Join(cs[1..], sep)
  {
  }

  /** The paragraph kept from the first chunk occurs in the join where it
      occurs in that chunk. */
  lemma JoinFrontKept(cs: seq<string>, sep: string)
    requires |cs| > 1
    ensures Strip(cs[0]) != [] ==> OccursAt(Join(cs, sep), Strip(cs[0]), LeadingSpace(cs[0]))
  {
    var s := Join(cs, sep);
    assert s[..|cs[0]|] == cs[0];
    KeptOccurs(s, cs[0]);
  }

  /** A chunk `c` and a separator in front of a text whose paragraphs
      are placed; `p`, when not empty, is what the chunk contributes, found
      at `a`. */
  lemma PlacedBehind(s: string, c: string, sep: string, tail: string, p: string, a: nat,
                     ps: seq<string>, offs: seq<nat>, ps': seq<string>, offs': seq<nat>)
    requires Placed(tail, ps, offs) && s == (c + sep) + tail
    requires p != [] ==> OccursAt(s, p, a) && a + |p| <= |c|
    requires p == [] ==> ps' == ps && offs' == Shift(offs, |c| + |sep|)
    requires p != [] ==> ps' == [p] + ps && offs' == [a] + Shift(offs, |c| + |sep|)
    ensures Placed(s, ps', offs')
  {
    PlacedShift(c + sep, tail, s, ps, offs, |c| + |sep|);
    if p != [] {
      assert ps'[1..] == ps && offs'[1..] == Shift(offs, |c| + |sep|);
    }
  }

  lemma ChunksCons(cs: seq<string>, sep: string)
    requires cs != []
    ensures Strip(cs[0]) == [] ==>
      && StripNonEmpty(cs) == StripNonEmpty(cs[1..])
      && Offsets(cs, sep) == Shift(Offsets(cs[1..], sep), |cs[0]| + |sep|)
    ensures Strip(cs[0]) != [] ==>
      && StripNonEmpty(cs) == [Strip(cs[0])] + StripNonEmpty(cs[1..])
      && Offsets(cs, sep) == [LeadingSpace(cs[0])] + Shift(Offsets(cs[1..], sep), |cs[0]| + |sep|)
  {
  }

  lemma PlacedOffsetsStep(cs: seq<string>, sep: string)
    requires |cs| > 1
    requires Placed(Join(cs[1..], sep), StripNonEmpty(cs[1..]), Offsets(cs[1..], sep))
    ensures Placed(Join(cs, sep), StripNonEmpty(cs), Offsets(cs, sep))
  {
    var s, c, tail := Join(cs, sep), cs[0], Join(cs[1..], sep);
    var p, a := Strip(c), LeadingSpace(c);
    var ps, offs := StripNonEmpty(cs[1..]), Offsets(cs[1..], sep);
    var ps', offs' := StripNonEmpty(cs), Offsets(cs, sep);
    JoinFront(cs, sep);
    ChunksCons(cs, sep);
    if p == [] {
      assert ps' == ps && offs' == Shift(offs, |c| + |sep|);
    } else {
      JoinFrontKept(cs, sep);
      assert OccursAt(s, p, a) && a + |p| <= |c|;
      assert ps' == [p] + ps && offs' == [a] + Shift(offs, |c| + |sep|);
    }
    PlacedBehind(s, c, sep, tail, p, a, ps, offs, ps', offs');
  }

  lemma {:induction false} PlacedOffsets(cs: seq<string>, sep: string)
    ensures Placed(Join(cs, sep), StripNonEmpty(cs), Offsets(cs, sep))
  {
    if |cs| == 1 {
      PlacedOffsetsSingle(cs, sep);
    } else if cs != [] {
      PlacedOffsets(cs[1..], sep);
      PlacedOffsetsStep(cs, sep);
    } else {
      assert StripNonEmpty(cs) == [] && Offsets(cs, sep) == [];
    }
  }

  // ---------------------------------------------------------------------
  // Nothing but whitespace between the paragraphs
  // ---------------------------------------------------------------------

  /** A separator between two paragraphs: whitespace holding a blank
      line. */
  predicate ParagraphBreak(g: string) {
    AllSpace(g) && Contains(g, "\n\n")
  }

  /** A paragraph break follows occurrence `i`, up to occurrence `i + 1`. */
  predicate BreakAfter(s: string, ps: seq<string>, offs: seq<nat>, i: nat)
    requires i + 1 < |ps| && |offs| == |ps|
  {
    offs[i] + |ps[i]| <= offs[i + 1] <= |s| && ParagraphBreak(s[offs[i] + |ps[i]|..offs[i + 1]])
  }

  /** Between consecutive occurrences there is a paragraph break. */
  predicate Separated(s: string, ps: seq<string>, offs: seq<nat>) {
    |offs| == |ps| && forall i :: 0 <= i < |ps| - 1 ==> BreakAfter(s, ps, offs, i)
  }

  /** Before the first occurrence and after the last there is only
      whitespace, and without occurrences all of `s` is whitespace. */
  predicate Margins(s: string, ps: seq<string>, offs: seq<nat>) {
    && |offs| == |ps|
    && (ps == [] ==> AllSpace(s))
    && (ps != [] ==>
          && offs[0] <= |s| && AllSpace(s[..offs[0]])
          && offs[|ps| - 1] + |ps[|ps| - 1]| <= |s|
          && AllSpace(s[offs[|ps| - 1] + |ps[|ps| - 1]|..]))
  }

  lemma SliceBehind(pre: string, tail: string, x: nat, y: nat)
    requires x <= y <= |tail|
    ensures (pre + tail)[|pre| + x..|pre| + y] == tail[x..y]
    ensures (pre + tail)[|pre| + x..] == tail[x..]
    ensures (pre + tail)[..|pre| + x] == pre + tail[..x]
  {
  }

  /** The text between position `x` of `c` and position `y` of `tail`,
      across a blank line. */
  lemma Middle(c: string, sep: string, tail: string, x: nat, y: nat)
    requires x <= |c| && y <= |tail|
    ensures ((c + sep) + tail)[x..|c| + |sep| + y] == (c[x..] + sep) + tail[..y]
  {
  }

  lemma SpaceMiddle(c: string, sep: string, tail: string, x: nat, y: nat)
    requires x <= |c| && y <= |tail|
    requires AllSpace(c[x..]) && AllSpace(sep) && AllSpace(tail[..y])
    ensures AllSpace(((c + sep) + tail)[x..|c| + |sep| + y])
  {
    Middle(c, sep, tail, x, y);
    AllSpaceConcat(c[x..], sep);
    AllSpaceConcat(c[x..] + sep, tail[..y]);
  }

  lemma BlankMiddle(c: string, sep: string, tail: string, x: nat, y: nat)
    requires sep == "\n\n" && x <= |c| && y <= |tail|
    requires AllSpace(c[x..]) && AllSpace(tail[..y])
    ensures ParagraphBreak(((c + sep) + tail)[x..|c| + |sep| + y])
  {
    var g := ((c + sep) + tail)[x..|c| + |sep| + y];
    SpaceMiddle(c, sep, tail, x, y);
    Middle(c, sep, tail, x, y);
    assert OccursAt(g, sep, |c| - x);
    ContainsIffOccurs(g, sep);
  }

  /** Breaks found in `tail` are still there, further on, in `pre + tail`. */
  lemma SeparatedShift(pre: string, tail: string, ps: seq<string>, offs: seq<nat>)
    requires Separated(tail, ps, offs)
    ensures Separated(pre + tail, ps, Shift(offs, |pre|))
  {
    var s, d, offs' := pre + tail, |pre|, Shift(offs, |pre|);
    forall i | 0 <= i < |ps| - 1 ensures BreakAfter(s, ps, offs', i) {
      assert BreakAfter(tail, ps, offs, i);
      SliceBehind(pre, tail, offs[i] + |ps[i]|, offs[i + 1]);
    }
  }

  /** One more occurrence in front, followed by a break. */
  lemma SeparatedCons(s: string, p: string, a: nat, ps: seq<string>, offs: seq<nat>)
    requires Separated(s, ps, offs)
    requires ps != [] ==> a + |p| <= offs[0] <= |s| && ParagraphBreak(s[a + |p|..offs[0]])
    ensures Separated(s, [p] + ps, [a] + offs)
  {
    var ps', offs' := [p] + ps, [a] + offs;
    forall i | 1 <= i < |ps'| - 1 ensures BreakAfter(s, ps', offs', i) {
      assert ps'[i] == ps[i - 1] && offs'[i] == offs[i - 1] && offs'[i + 1] == offs[i];
      assert BreakAfter(s, ps, offs, i - 1);
    }
  }

  /** Whitespace in front keeps the margins whitespace. */
  lemma MarginsShift(pre: string, tail: string, ps: seq<string>, offs: seq<nat>)
    requires AllSpace(pre) && Margins(tail, ps, offs)
    ensures Margins(pre + tail, ps, Shift(offs, |pre|))
  {
    var s, offs' := pre + tail, Shift(offs, |pre|);
    if ps == [] {
      AllSpaceConcat(pre, tail);
    } else {
      var l := |ps| - 1;
      SliceBehind(pre, tail, offs[0], offs[0]);
      AllSpaceConcat(pre, tail[..offs[0]]);
      SliceBehind(pre, tail, offs[l] + |ps[l]|, offs[l] + |ps[l]|);
    }
  }

  /** A kept chunk in front, whose paragraph `p` sits at `a` between
      whitespace: its leading whitespace is the first margin. */
  lemma MarginsKept(c: string, p: string, a: nat, sep: string, tail: string, ps: seq<string>, offs: seq<nat>)
    requires p != [] && a + |p| <= |c| && AllSpace(c[..a]) && AllSpace(c[a + |p|..])
    requires AllSpace(sep) && Margins(tail, ps, offs)
    ensures Margins((c + sep) + tail, [p] + ps, [a] + Shift(offs, |c| + |sep|))
  {
    var s, pre := (c + sep) + tail, c + sep;
    var ps', offs' := [p] + ps, [a] + Shift(offs, |pre|);
    assert s[..a] == c[..a];
    if ps == [] {
      assert tail[..|tail|] == tail;
      SpaceMiddle(c, sep, tail, a + |p|, |tail|);
    } else {
      var l := |ps| - 1;
      assert ps'[l + 1] == ps[l] && offs'[l + 1] == offs[l] + |pre|;
      SliceBehind(pre, tail, offs[l] + |ps[l]|, offs[l] + |ps[l]|);
    }
  }

  lemma SeparatedKept(c: string, p: string, a: nat, sep: string, tail: string, ps: seq<string>, offs: seq<nat>)
    requires sep == "\n\n" && a + |p| <= |c| && AllSpace(c[a + |p|..])
    requires Margins(tail, ps, offs) && Separated(tail, ps, offs)
    ensures Separated((c + sep) + tail, [p] + ps, [a] + Shift(offs, |c| + |sep|))
  {
    var s, pre := (c + sep) + tail, c + sep;
    SeparatedShift(pre, tail, ps, offs);
    if ps != [] {
      BlankMiddle(c, sep, tail, a + |p|, offs[0]);
    }
    SeparatedCons(s, p, a, ps, Shift(offs, |pre|));
  }

  lemma CoverSingle(cs: seq<string>)
    requires |cs| == 1
    ensures Margins(Join(cs, "\n\n"), StripNonEmpty(cs), Offsets(cs, "\n\n"))
    ensures Separated(Join(cs, "\n\n"), StripNonEmpty(cs), Offsets(cs, "\n\n"))
  {
    var c := cs[0];
    assert StripNonEmpty(cs[1..]) == [] && Offsets(cs[1..], "\n\n") == [];
    StripTrims(c);
  }

  /** The cover of `c + sep + tail`, from the cover of `tail` and the
      paragraph, if any, that the chunk `c` contributes. */
  lemma CoverFront(c: string, p: string, a: nat, sep: string, tail: string, ps: seq<string>, offs: seq<nat>,
                   ps': seq<string>, offs': seq<nat>)
    requires sep == "\n\n" && Margins(tail, ps, offs) && Separated(tail, ps, offs)
    requires p == [] ==> AllSpace(c) && ps' == ps && offs' == Shift(offs, |c| + |sep|)
    requires p != [] ==> a + |p| <= |c| && AllSpace(c[..a]) && AllSpace(c[a + |p|..])
    requires p != [] ==> ps' == [p] + ps && offs' == [a] + Shift(offs, |c| + |sep|)
    ensures Margins((c + sep) + tail, ps', offs') && Separated((c + sep) + tail, ps', offs')
  {
    if p == [] {
      AllSpaceConcat(c, sep);
      MarginsShift(c + sep, tail, ps, offs);
      SeparatedShift(c + sep, tail, ps, offs);
    } else {
      MarginsKept(c, p, a, sep, tail, ps, offs);
      SeparatedKept(c, p, a, sep, tail, ps, offs);
    }
  }

  lemma CoverStep(cs: seq<string>)
    requires |cs| > 1
    requires Margins(Join(cs[1..], "\n\n"), StripNonEmpty(cs[1..]), Offsets(cs[1..], "\n\n"))
    requires Separated(Join(cs[1..], "\n\n"), StripNonEmpty(cs[1..]), Offsets(cs[1..], "\n\n"))
    ensures Margins(Join(cs, "\n\n"), StripNonEmpty(cs), Offsets(cs, "\n\n"))
    ensures Separated(Join(cs, "\n\n"), StripNonEmpty(cs), Offsets(cs, "\n\n"))
  {
    var sep := "\n\n";
    JoinFront(cs, sep);
    ChunksCons(cs, sep);
    StripTrims(cs[0]);
    CoverFront(cs[0], Strip(cs[0]), LeadingSpace(cs[0]), sep, Join(cs[1..], sep),
               StripNonEmpty(cs[1..]), Offsets(cs[1..], sep), StripNonEmpty(cs), Offsets(cs, sep));
  }

  lemma {:induction false} CoverOffsets(cs: seq<string>)
    ensures Margins(Join(cs, "\n\n"), StripNonEmpty(cs), Offsets(cs, "\n\n"))
    ensures Separated(Join(cs, "\n\n"), StripNonEmpty(cs), Offsets(cs, "\n\n"))
  {
    if |cs| == 1 {
      CoverSingle(cs);
    } else if cs != [] {
      CoverOffsets(cs[1..]);
      CoverStep(cs);
    } else {
      assert StripNonEmpty(cs) == [] && Offsets(cs, "\n\n") == [];
    }
  }

  /** The paragraphs occur in the normalised text, in the order they are
      returned, and they account for all of it: what lies before the
      first, after the last and between two of them is whitespace, and
      each stretch between two of them holds a blank line. */
  lemma ParagraphsInDocumentOrder(text: string)
    ensures exists offs ::
      && InOrder(Normalize(text), SplitIntoParagraphs(text), offs)
      && Margins(Normalize(text), SplitIntoParagraphs(text), offs)
      && Separated(Normalize(text), SplitIntoParagraphs(text), offs)
  {
    var n := Normalize(text);
    var cs := Split(n, "\n\n");
    JoinSplit(n, "\n\n");
    PlacedOffsets(cs, "\n\n");
    PlacedInOrder(n, SplitIntoParagraphs(text), Offsets(cs, "\n\n"));
    CoverOffsets(cs);
  }

  // ---------------------------------------------------------------------
  // Re-segmentation
  // ---------------------------------------------------------------------

  lemma NormalizeGapFree(t: string)
    requires NoBlankGap(t)
    ensures Normalize(t) == t
  {
    forall i | 0 <= i < |t| ensures MatchLength(t[i..]) == 0 {
      var m := MatchLength(t[i..]);
      assert t[i..][..m] == t[i..i + m];
    }
    NormalizeFixesCollapsed(t);
  }

  lemma {:induction false} NormalizeJoined(ps: seq<string>)
    requires forall k :: 0 <= k < |ps| ==> IsParagraph(ps[k])
    ensures Normalize(Join(ps, "\n\n")) == Join(ps, "\n\n")
  {
    if ps != [] {
      NormalizeGapFree(ps[0]);
      if |ps| > 1 {
        var tail := Join(ps[1..], "\n\n");
        NormalizeJoined(ps[1..]);
        JoinStartsWith(ps[1..], "\n\n");
        assert tail[0] == ps[1][0];
        assert LeadingSpace(tail) == 0;
        QuietAfterNewlines(tail);
        assert Normalize("\n\n" + tail) == "\n\n" + Normalize(("\n\n" + tail)[2..]);
        assert ("\n\n" + tail)[2..] == tail;
        assert Join(ps, "\n\n") == ps[0] + ("\n\n" + tail);
        NormalizeAppend(ps[0], "\n\n" + tail);
      }
    }
  }

  lemma ParagraphSeparable(p: string)
    requires IsParagraph(p)
    ensures Separable(p, "\n\n")
  {
    var u := p + "\n";
    assert "\n\n"[..1] == "\n";
    forall i | 0 <= i <= |u| - 2 ensures !OccursAt(u, "\n\n", i) {
      if i + 1 < |p| {
        assert u[i..i + 2] == p[i..i + 2];
      } else {
        assert u[i] == p[|p| - 1];
      }
    }
    ContainsIffOccurs(u, "\n\n");
  }

  lemma ParagraphsSeparable(ps: seq<string>)
    requires forall k :: 0 <= k < |ps| ==> IsParagraph(ps[k])
    ensures forall k :: 0 <= k < |ps| ==> Separable(ps[k], "\n\n")
  {
    forall k | 0 <= k < |ps| ensures Separable(ps[k], "\n\n") {
      ParagraphSeparable(ps[k]);
    }
  }

  lemma {:induction false} StripNonEmptyKeepsParagraphs(ps: seq<string>)
    requires forall k :: 0 <= k < |ps| ==> IsParagraph(ps[k])
    ensures StripNonEmpty(ps) == ps
  {
    if ps != [] {
      StripUnique(ps[0], [], ps[0], []);
      assert [] + ps[0] + [] == ps[0];
      StripNonEmptyKeepsParagraphs(ps[1..]);
    }
  }

  lemma EmptyTextNoParagraphs()
    ensures SplitIntoParagraphs([]) == []
  {
    assert Split([], "\n\n") == [[]];
    StripTrims([]);
  }

  /** A sequence of paragraphs joined with blank lines segments back into
      itself. */
  lemma ResegmentParagraphs(ps: seq<string>)
    requires forall k :: 0 <= k < |ps| ==> IsParagraph(ps[k])
    ensures SplitIntoParagraphs(Join(ps, "\n\n")) == ps
  {
    NormalizeJoined(ps);
    if ps == [] {
      EmptyTextNoParagraphs();
    } else {
      ParagraphsSeparable(ps);
      SplitJoin(ps, "\n\n");
      StripNonEmptyKeepsParagraphs(ps);
    }
  }

  /** Re-segmenting `"\n\n".join(paragraphs)` returns the same paragraphs. */
  lemma ParagraphsResegment(text: string)
    ensures SplitIntoParagraphs(Join(SplitIntoParagraphs(text), "\n\n")) == SplitIntoParagraphs(text)
  {
    ParagraphsWellFormed(text);
    ResegmentParagraphs(SplitIntoParagraphs(text));
  }

  /** A blank-line gap on its own becomes exactly one blank line. */
  lemma NormalizeBlankGap(g: string)
    requires BlankGap(g)
    ensures Normalize(g) == "\n\n"
  {
    NormalizeNewlineRun(g);
    LastNewlineUnique(g, |g| - 1);
    assert g[|g|..] == [];
  }

  lemma NormalizeAroundGap(p: string, g: string, q: string)
    requires IsParagraph(p) && IsParagraph(q) && BlankGap(g)
    ensures Normalize(p + g + q) == Join([p, q], "\n\n")
  {
    NormalizeGapFree(p);
    NormalizeGapFree(q);
    NormalizeBlankGap(g);
    NormalizeAppend(g, q);
    var gq := g + q;
    assert gq[0] == g[0];
    NormalizeAppend(p, gq);
    AppendAssoc(p, g, q);
    JoinPair(p, q, "\n\n");
  }

  /** Any blank-line gap, whatever whitespace it holds, separates the two
      paragraphs around it and nothing else. */
  lemma BlankGapSeparates(p: string, g: string, q: string)
    requires IsParagraph(p) && IsParagraph(q) && BlankGap(g)
    ensures SplitIntoParagraphs(p + g + q) == [p, q]
  {
    NormalizeAroundGap(p, g, q);
    NormalizeJoined([p, q]);
    ResegmentParagraphs([p, q]);
  }
}
