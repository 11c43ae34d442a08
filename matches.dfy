/**
 * The match locator `find_matches`: the positions of the paragraphs that
 * contain the query, ignoring the case of ASCII letters and the
 * whitespace around the query.
 */
module Matches {
  import opened Strings

  /** The positions `i >= from` whose paragraph, lower-cased, contains
      `needle`, in ascending order. */
  function MatchesFrom(ps: seq<string>, needle: string, from: nat): (r: seq<nat>)
    requires from <= |ps|
    ensures forall k :: 0 <= k < |r| ==> from <= r[k] < |ps|
    ensures forall k, l :: 0 <= k < l < |r| ==> r[k] < r[l]
    ensures forall i :: from <= i < |ps| ==> (i in r <==> Contains(Lower(ps[i]), needle))
    decreases |ps| - from
  {
    if from == |ps| then []
    else
      var rest := MatchesFrom(ps, needle, from + 1);
      if Contains(Lower(ps[from]), needle) then [from] + rest else rest
  }

  /** The needle searched for: `query.lower().strip()`. */
  function Needle(query: string): string {
    Strip(Lower(query))
  }

  /** `find_matches(paragraphs, query)`: every position holding a
      paragraph that contains the needle, each once, in ascending
      order. */
  function FindMatches(ps: seq<string>, query: string): (r: seq<nat>)
    ensures forall k :: 0 <= k < |r| ==> r[k] < |ps|
    ensures forall k, l :: 0 <= k < l < |r| ==> r[k] < r[l]
    ensures forall i :: 0 <= i < |ps| ==> (i in r <==> Contains(Lower(ps[i]), Needle(query)))
  {
    MatchesFrom(ps, Needle(query), 0)
  }

  /** Two ascending position lists with the same members are equal. */
  lemma {:induction false} AscendingUnique(r: seq<nat>, t: seq<nat>)
    requires forall k, l :: 0 <= k < l < |r| ==> r[k] < r[l]
    requires forall k, l :: 0 <= k < l < |t| ==> t[k] < t[l]
    requires forall x :: x in r <==> x in t
    ensures r == t
    decreases |r|
  {
    assert r != [] ==> r[0] in t;
    assert t != [] ==> t[0] in r;
    if r != [] && t != [] {
      assert r[0] == t[0] by {
        assert t[0] in r && r[0] in t;
      }
      forall x ensures x in r[1..] <==> x in t[1..] {
        if x in r[1..] {
          var l :| 1 <= l < |r| && r[l] == x;
          assert x in t && x != t[0];
        }
        if x in t[1..] {
          var l :| 1 <= l < |t| && t[l] == x;
          assert x in r && x != r[0];
        }
      }
      AscendingUnique(r[1..], t[1..]);
    }
  }

  /** The result depends on the query only through its needle. */
  lemma SameNeedleSameMatches(ps: seq<string>, q: string, q': string)
    requires Needle(q) == Needle(q')
    ensures FindMatches(ps, q) == FindMatches(ps, q')
  {
  }

  lemma LowerConcat(u: string, v: string)
    ensures Lower(u + v) == Lower(u) + Lower(v)
  {
  }

  /** Whitespace added at either end of the query changes nothing. */
  lemma PaddingIgnored(ps: seq<string>, a: string, q: string, b: string)
    requires AllSpace(a) && AllSpace(b)
    ensures FindMatches(ps, a + q + b) == FindMatches(ps, q)
  {
    LowerConcat(a, q);
    LowerConcat(a + q, b);
    LowerKeepsSpace(a);
    LowerKeepsSpace(b);
    StripPadding(Lower(a), Lower(q), Lower(b));
    SameNeedleSameMatches(ps, a + q + b, q);
  }

  /** Changing the case of letters in the query changes nothing. */
  lemma QueryCaseIgnored(ps: seq<string>, q: string, q': string)
    requires SameIgnoringCase(q, q')
    ensures FindMatches(ps, q) == FindMatches(ps, q')
  {
    assert Lower(q) == Lower(q');
  }

  /** Changing the case of letters in the paragraphs changes nothing. */
  lemma ParagraphCaseIgnored(ps: seq<string>, ps': seq<string>, q: string)
    requires |ps| == |ps'|
    requires forall i :: 0 <= i < |ps| ==> SameIgnoringCase(ps[i], ps'[i])
    ensures FindMatches(ps, q) == FindMatches(ps', q)
  {
    var r, t := FindMatches(ps, q), FindMatches(ps', q);
    forall i | 0 <= i < |ps| ensures Lower(ps[i]) == Lower(ps'[i]) {
      assert forall j :: 0 <= j < |ps[i]| ==> Lower(ps[i])[j] == Lower(ps'[i])[j];
    }
    forall x ensures x in r <==> x in t {
      if x in r || x in t {
        assert x < |ps|;
      }
    }
    AscendingUnique(r, t);
  }
}
