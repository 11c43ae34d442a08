/**
 * The whole pipeline on one small document: one page whose two
 * paragraphs are separated by two blank lines, searched for "para b"
 * and shown with one paragraph of context.
 */
module Scenario {
  import opened Strings
  import opened Paragraphs
  import opened Matches
  import opened Context
  import opened Extraction

  /** A single line of text with no whitespace at either end is a
      paragraph. */
  lemma OneLineParagraph(p: string)
    requires p != [] && NoNewline(p)
    requires !IsSpace(p[0]) && !IsSpace(p[|p| - 1])
    ensures IsParagraph(p)
  {
    forall i, j | 0 <= i < j <= |p| ensures !BlankGap(p[i..j]) {
      assert p[i..j][0] == p[i];
    }
  }

  lemma PageJoinExample()
    ensures Join(PageTexts([Some("Para A\n\n\nPara B")]), "\n") == "Para A\n\n\nPara B"
  {
    assert PageTexts([Some("Para A\n\n\nPara B")]) == ["Para A\n\n\nPara B"];
  }

  lemma SegmentExample()
    ensures SplitIntoParagraphs("Para A\n\n\nPara B") == ["Para A", "Para B"]
  {
    var p, g, q := "Para A", "\n\n\n", "Para B";
    OneLineParagraph(p);
    OneLineParagraph(q);
    assert AllSpace(g);
    BlankGapSeparates(p, g, q);
    ExampleText();
  }

  lemma ExampleText()
    ensures "Para A" + "\n\n\n" + "Para B" == "Para A\n\n\nPara B"
  {
  }

  lemma {:induction false} ShorterNotContains(s: string, t: string)
    requires |s| < |t|
    ensures !Contains(s, t)
    decreases |s|
  {
    if s != [] {
      ShorterNotContains(s[1..], t);
    }
  }

  /** Between strings of the same length, containment is equality. */
  lemma ContainsSameLength(s: string, t: string)
    requires |s| == |t|
    ensures Contains(s, t) <==> s == t
  {
    if s != [] {
      ShorterNotContains(s[1..], t);
    }
  }

  lemma OnlySecondMatches(ps: seq<string>, q: string)
    requires |ps| == 2
    requires !Contains(Lower(ps[0]), Needle(q)) && Contains(Lower(ps[1]), Needle(q))
    ensures FindMatches(ps, q) == [1]
  {
    var r := FindMatches(ps, q);
    assert 1 in r && 0 !in r;
    AscendingUnique(r, [1]);
  }

  lemma LowerExample()
    ensures Lower("Para A") == "para a" && Lower("Para B") == "para b"
    ensures Lower("para b") == "para b"
  {
    assert LowerChar('P') == 'p' && LowerChar('A') == 'a' && LowerChar('B') == 'b';
    assert forall c :: 'a' <= c <= 'z' ==> LowerChar(c) == c;
  }

  lemma NeedleExample()
    ensures Needle("para b") == "para b"
  {
    var n := "para b";
    LowerExample();
    assert [] + n + [] == n;
    StripUnique(n, [], n, []);
  }

  lemma FindExample()
    ensures FindMatches(["Para A", "Para B"], "para b") == [1]
  {
    var ps := ["Para A", "Para B"];
    var n := "para b";
    LowerExample();
    NeedleExample();
    ContainsSameLength(n, n);
    assert "para a"[5] != n[5];
    ContainsSameLength("para a", n);
    OnlySecondMatches(ps, n);
  }

  lemma PresentExample()
    ensures Present(["Para A", "Para B"], [1], 1)
      == Results([Group(1, [Line(0, Context, "Para A"), Line(1, Match, "Para B")])])
  {
    var ps := ["Para A", "Para B"];
    assert LinesFrom(ps, 1, 2, 2) == [];
    assert LinesFrom(ps, 1, 1, 2) == [Line(1, Match, "Para B")];
    assert Window(ps, 1, 1) == LinesFrom(ps, 1, 0, 2);
    assert Window(ps, 1, 1) == [Line(0, Context, "Para A"), Line(1, Match, "Para B")];
  }

  lemma JoinTwoPages()
    ensures Join(PageTexts([Some("A"), Some("B")]), "\n") == "A\nB"
  {
    assert PageTexts([Some("A"), Some("B")]) == ["A", "B"];
    JoinPair("A", "B", "\n");
  }

  lemma JoinThreePages()
    ensures Join(PageTexts([Some("A"), None, Some("B")]), "\n") == "A\n\nB"
  {
    assert PageTexts([Some("A"), None, Some("B")]) == ["A", "", "B"];
    assert ["A", "", "B"][1..] == ["", "B"];
    JoinPair("", "B", "\n");
  }

  lemma TwoLineParagraph()
    ensures IsParagraph("A\nB")
  {
    var p := "A\nB";
    forall i, j | 0 <= i < j <= |p| ensures !BlankGap(p[i..j]) {
      assert p[i..j][0] == p[i] && p[i..j][j - i - 1] == p[j - 1];
    }
  }

  /** Two one-line pages make one paragraph of two lines. */
  lemma PagesWithoutGap()
    ensures SplitIntoParagraphs(Join(PageTexts([Some("A"), Some("B")]), "\n")) == ["A\nB"]
  {
    JoinTwoPages();
    TwoLineParagraph();
    ResegmentParagraphs(["A\nB"]);
  }

  /** A page without text between them still adds its line break, which
      makes a blank line: the two lines become two paragraphs. */
  lemma EmptyPageSplitsParagraph()
    ensures SplitIntoParagraphs(Join(PageTexts([Some("A"), None, Some("B")]), "\n")) == ["A", "B"]
  {
    JoinThreePages();
    OneLineParagraph("A");
    OneLineParagraph("B");
    assert AllSpace("\n\n");
    BlankGapSeparates("A", "\n\n", "B");
    assert "A" + "\n\n" + "B" == "A\n\nB";
  }
}
