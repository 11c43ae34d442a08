/**
 * The context presenter `show_matches_with_context`: for every match
 * position it lists the paragraphs of a window around it, each labelled
 * MATCH or CONTEXT. The console output is left aside; what the loops
 * compute is returned as groups of labelled lines.
 */
module Context {

  datatype Label = Match | Context

  /** One displayed paragraph: its position, its label and its text. */
  datatype Line = Line(index: nat, kind: Label, text: string)

  /** The lines shown for one match position. */
  datatype Group = Group(matchIndex: int, lines: seq<Line>)

  /** "No matches found." or the groups, one per match. */
  datatype Display = NoMatches | Results(groups: seq<Group>)

  function Max(a: int, b: int): int { if a < b then b else a }

  function Min(a: int, b: int): int { if a < b then a else b }

  /** `start = max(0, idx - context_size)`. */
  function WindowStart(idx: int, k: int): nat {
    Max(0, idx - k)
  }

  /** `end = min(len(paragraphs), idx + context_size + 1)`. */
  function WindowEnd(n: nat, idx: int, k: int): int {
    Min(n, idx + k + 1)
  }

  function LabelFor(i: int, idx: int): Label {
    if i == idx then Match else Context
  }

  /** The lines of `range(start, end)`, from `from` on. */
  function LinesFrom(ps: seq<string>, idx: int, from: nat, end: int): seq<Line>
    requires end <= |ps|
    decreases end - from
  {
    if from >= end then []
    else [Line(from, LabelFor(from, idx), ps[from])] + LinesFrom(ps, idx, from + 1, end)
  }

  /** The lines shown around position `idx` with radius `k`. */
  function Window(ps: seq<string>, idx: int, k: int): seq<Line> {
    LinesFrom(ps, idx, WindowStart(idx, k), WindowEnd(|ps|, idx, k))
  }

  /** What `show_matches_with_context` displays. */
  function Present(ps: seq<string>, matches: seq<int>, k: int): Display {
    if matches == [] then NoMatches
    else Results(seq(|matches|, g requires 0 <= g < |matches| => Group(matches[g], Window(ps, matches[g], k))))
  }

  // ---------------------------------------------------------------------
  // The loops
  // ---------------------------------------------------------------------

  /** The two nested loops of `show_matches_with_context`, collecting
      what they print. */
  method ShowMatchesWithContext(paragraphs: seq<string>, matchIndices: seq<int>, contextSize: int)
    returns (out: Display)
    ensures out == Present(paragraphs, matchIndices, contextSize)
  {
    if |matchIndices| == 0 {
      return NoMatches;
    }
    var groups: seq<Group> := [];
    var count := 0;
    while count < |matchIndices|
      invariant 0 <= count <= |matchIndices|
      invariant |groups| == count
      invariant forall g :: 0 <= g < count ==>
        groups[g] == Group(matchIndices[g], Window(paragraphs, matchIndices[g], contextSize))
    {
      var idx := matchIndices[count];
      var start := Max(0, idx - contextSize);
      var end := Min(|paragraphs|, idx + contextSize + 1);
      var lines: seq<Line> := [];
      var paraIndex := start;
      while paraIndex < end
        invariant start <= paraIndex
        invariant lines + LinesFrom(paragraphs, idx, paraIndex, end) == Window(paragraphs, idx, contextSize)
      {
        var kind := if paraIndex == idx then Match else Context;
        lines := lines + [Line(paraIndex, kind, paragraphs[paraIndex])];
        paraIndex := paraIndex + 1;
      }
      groups := groups + [Group(idx, lines)];
      count := count + 1;
    }
    out := Results(groups);
  }

  // ---------------------------------------------------------------------
  // What the windows look like
  // ---------------------------------------------------------------------

  /** The lines from `from` to `end` are the positions in between, in
      order, each with its own paragraph and labelled MATCH exactly at
      `idx`. */
  lemma {:induction false} LinesFromShape(ps: seq<string>, idx: int, from: nat, end: int)
    requires end <= |ps|
    ensures |LinesFrom(ps, idx, from, end)| == Max(0, end - from)
    ensures forall j :: 0 <= j < |LinesFrom(ps, idx, from, end)| ==>
      && LinesFrom(ps, idx, from, end)[j].index == from + j
      && LinesFrom(ps, idx, from, end)[j].text == ps[from + j]
      && (LinesFrom(ps, idx, from, end)[j].kind == Match <==> from + j == idx)
    decreases end - from
  {
    if from < end {
      LinesFromShape(ps, idx, from + 1, end);
      var r, t := LinesFrom(ps, idx, from, end), LinesFrom(ps, idx, from + 1, end);
      assert r == [Line(from, LabelFor(from, idx), ps[from])] + t;
      forall j | 0 <= j < |r|
        ensures r[j].index == from + j && r[j].text == ps[from + j]
        ensures r[j].kind == Match <==> from + j == idx
      {
        if j > 0 {
          assert r[j] == t[j - 1];
        }
      }
    }
  }

  /** Every displayed position is a paragraph of the list, shown with its
      own text; the positions are consecutive and ascending. */
  lemma WindowWithinBounds(ps: seq<string>, idx: int, k: int)
    ensures forall j :: 0 <= j < |Window(ps, idx, k)| ==>
      && 0 <= Window(ps, idx, k)[j].index < |ps|
      && Window(ps, idx, k)[j].text == ps[Window(ps, idx, k)[j].index]
    ensures forall j :: 0 < j < |Window(ps, idx, k)| ==>
      Window(ps, idx, k)[j].index == Window(ps, idx, k)[j - 1].index + 1
  {
    LinesFromShape(ps, idx, WindowStart(idx, k), WindowEnd(|ps|, idx, k));
  }

  /** A window around a position of the list with a non-negative radius
      shows that position, labelled MATCH, and every other position is
      CONTEXT. */
  lemma WindowShowsMatch(ps: seq<string>, idx: int, k: int)
    requires 0 <= idx < |ps| && 0 <= k
    ensures exists j :: 0 <= j < |Window(ps, idx, k)| && Window(ps, idx, k)[j] == Line(idx, Match, ps[idx])
    ensures forall j :: 0 <= j < |Window(ps, idx, k)| ==>
      (Window(ps, idx, k)[j].kind == Match <==> Window(ps, idx, k)[j].index == idx)
  {
    var start := WindowStart(idx, k);
    LinesFromShape(ps, idx, start, WindowEnd(|ps|, idx, k));
    assert Window(ps, idx, k)[idx - start] == Line(idx, Match, ps[idx]);
  }

  /** A window has at most `2k + 1` positions, and none when the radius
      is negative. */
  lemma WindowSize(ps: seq<string>, idx: int, k: int)
    ensures k >= 0 ==> |Window(ps, idx, k)| <= 2 * k + 1
    ensures k < 0 ==> Window(ps, idx, k) == []
  {
    LinesFromShape(ps, idx, WindowStart(idx, k), WindowEnd(|ps|, idx, k));
  }

  /** With radius 0 only the matched paragraph is shown. */
  lemma RadiusZero(ps: seq<string>, idx: int)
    requires 0 <= idx < |ps|
    ensures Window(ps, idx, 0) == [Line(idx, Match, ps[idx])]
  {
    LinesFromShape(ps, idx, idx, idx + 1);
  }

  /** The number of lines labelled MATCH. */
  function MatchCount(lines: seq<Line>): nat {
    if lines == [] then 0
    else (if lines[0].kind == Match then 1 else 0) + MatchCount(lines[1..])
  }

  lemma {:induction false} MatchCountNone(lines: seq<Line>)
    requires forall j :: 0 <= j < |lines| ==> lines[j].kind == Context
    ensures MatchCount(lines) == 0
  {
    if lines != [] {
      MatchCountNone(lines[1..]);
    }
  }

  lemma {:induction false} MatchCountOne(lines: seq<Line>, p: nat)
    requires p < |lines|
    requires forall j :: 0 <= j < |lines| ==> (lines[j].kind == Match <==> j == p)
    ensures MatchCount(lines) == 1
  {
    if p == 0 {
      MatchCountNone(lines[1..]);
    } else {
      MatchCountOne(lines[1..], p - 1);
    }
  }

  /** Each group around a position of the list holds exactly one MATCH
      line. */
  lemma WindowOneMatch(ps: seq<string>, idx: int, k: int)
    requires 0 <= idx < |ps| && 0 <= k
    ensures MatchCount(Window(ps, idx, k)) == 1
  {
    var start := WindowStart(idx, k);
    LinesFromShape(ps, idx, start, WindowEnd(|ps|, idx, k));
    MatchCountOne(Window(ps, idx, k), idx - start);
  }

  /** A window near the start or the end of the list is cut short there
      rather than reaching past it. */
  lemma WindowClamped(ps: seq<string>, idx: int, k: int)
    requires 0 <= idx < |ps| && 0 <= k
    ensures Window(ps, idx, k)[0].index == Max(0, idx - k)
    ensures Window(ps, idx, k)[|Window(ps, idx, k)| - 1].index == Min(|ps| - 1, idx + k)
  {
    LinesFromShape(ps, idx, WindowStart(idx, k), WindowEnd(|ps|, idx, k));
  }

  /** The lines of one group are the positions of
      `range(max(0, idx - k), min(n, idx + k + 1))`, consecutive and in
      order, each a paragraph of the list shown with its own text, and
      labelled MATCH exactly at `idx`. */
  predicate ShowsRange(ps: seq<string>, idx: int, k: int, lines: seq<Line>) {
    && |lines| == Max(0, Min(|ps|, idx + k + 1) - Max(0, idx - k))
    && forall j :: 0 <= j < |lines| ==>
         && lines[j].index == Max(0, idx - k) + j
         && lines[j].index < |ps|
         && lines[j].text == ps[lines[j].index]
         && (lines[j].kind == Match <==> lines[j].index == idx)
  }

  /** The display: "No matches found." exactly for an empty match list,
      otherwise one group per match, in the order given. Each group shows
      the range of positions around its match, and when the match is a
      position of the list and the radius is not negative, exactly one of
      its lines is MATCH. */
  lemma PresentGroups(ps: seq<string>, matches: seq<int>, k: int)
    ensures Present(ps, matches, k).NoMatches? <==> matches == []
    ensures Present(ps, matches, k).Results? ==>
      && |Present(ps, matches, k).groups| == |matches|
      && forall g :: 0 <= g < |matches| ==>
           && Present(ps, matches, k).groups[g].matchIndex == matches[g]
           && ShowsRange(ps, matches[g], k, Present(ps, matches, k).groups[g].lines)
           && (0 <= matches[g] < |ps| && 0 <= k ==> MatchCount(Present(ps, matches, k).groups[g].lines) == 1)
  {
    if matches != [] {
      var groups := Present(ps, matches, k).groups;
      forall g | 0 <= g < |matches|
        ensures ShowsRange(ps, matches[g], k, groups[g].lines)
        ensures 0 <= matches[g] < |ps| && 0 <= k ==> MatchCount(groups[g].lines) == 1
      {
        var idx := matches[g];
        assert groups[g].lines == Window(ps, idx, k);
        LinesFromShape(ps, idx, WindowStart(idx, k), WindowEnd(|ps|, idx, k));
        if 0 <= idx < |ps| && 0 <= k {
          WindowOneMatch(ps, idx, k);
        }
      }
    }
  }
}
