/**
 * The few Python string primitives the search script relies on, over
 * `string` (a `seq<char>`): `str.isspace`, `str.strip`, `str.lower`,
 * the `in` substring test, `sep.join(xs)` and `s.split(sep)`.
 */
module Strings {

  /** Python's `str.isspace` for one character, which is also what `\s`
      matches in a `str` regular expression: the ASCII controls
      TAB, LF, VT, FF, CR, the separators FS, GS, RS, US, the space, and
      the Unicode space characters NEL, NBSP, OGHAM SPACE MARK, U+2000 to
      U+200A, LINE and PARAGRAPH SEPARATOR, NNBSP, MMSP and the ideographic
      space. */
  predicate IsSpace(c: char) {
    || ('\t' <= c <= '\r')
    || ('\U{1C}' <= c <= '\U{1F}')
    || c == ' '
    || c == '\U{85}'
    || c == '\U{A0}'
    || c == '\U{1680}'
    || ('\U{2000}' <= c <= '\U{200A}')
    || c == '\U{2028}'
    || c == '\U{2029}'
    || c == '\U{202F}'
    || c == '\U{205F}'
    || c == '\U{3000}'
  }

  predicate AllSpace(s: string) {
    forall i :: 0 <= i < |s| ==> IsSpace(s[i])
  }

  lemma SplitAt(s: string, d: nat)
    requires d <= |s|
    ensures s[..d] + s[d..] == s
  {
  }

  /** Number of whitespace characters at the front of `s`. */
  function LeadingSpace(s: string): (n: nat)
    ensures n <= |s|
    ensures AllSpace(s[..n])
    ensures n < |s| ==> !IsSpace(s[n])
  {
    if s == [] || !IsSpace(s[0]) then 0 else 1 + LeadingSpace(s[1..])
  }

  /** Number of whitespace characters at the end of `s`. */
  function TrailingSpace(s: string): (n: nat)
    ensures n <= |s|
    ensures forall k :: |s| - n <= k < |s| ==> IsSpace(s[k])
    ensures n < |s| ==> !IsSpace(s[|s| - n - 1])
  {
    if s == [] || !IsSpace(s[|s| - 1]) then 0 else TrailingSpace(s[..|s| - 1]) + 1
  }

  /** A whitespace-only prefix is never longer than the leading run. */
  lemma {:induction false} SpacePrefixWithinLead(s: string, j: nat)
    requires j <= |s| && AllSpace(s[..j])
    ensures j <= LeadingSpace(s)
  {
    if j > 0 {
      assert IsSpace(s[..j][0]);
      assert s[1..][..j - 1] == s[..j][1..];
      SpacePrefixWithinLead(s[1..], j - 1);
    }
  }

  /** Dropping part of the leading run shortens it by as much. */
  lemma {:induction false} LeadingSpaceSuffix(s: string, m: nat)
    requires m <= LeadingSpace(s)
    ensures LeadingSpace(s[m..]) == LeadingSpace(s) - m
  {
    if m > 0 {
      assert s[1..][m - 1..] == s[m..];
      LeadingSpaceSuffix(s[1..], m - 1);
    }
  }

  /** Empty, or neither starting nor ending with whitespace. */
  predicate Trimmed(r: string) {
    r == [] || (!IsSpace(r[0]) && !IsSpace(r[|r| - 1]))
  }

  /** `s.strip()`: `s` with its leading and trailing whitespace removed.
      The result is the unique middle part of `s = lead + r + trail` with
      `lead` and `trail` whitespace and `r` empty or bounded by
      non-whitespace characters. */
  function Strip(s: string): (r: string)
    ensures LeadingSpace(s) + |r| <= |s|
    ensures r == s[LeadingSpace(s)..LeadingSpace(s) + |r|]
    ensures Trimmed(r)
  {
    var a := LeadingSpace(s);
    if a == |s| then []
    else
      var n := TrailingSpace(s);
      s[a..|s| - n]
  }

  /** What `Strip` removes is whitespace, and it removes everything
      exactly when everything is whitespace. */
  lemma StripTrims(s: string)
    ensures AllSpace(s[..LeadingSpace(s)])
    ensures AllSpace(s[LeadingSpace(s) + |Strip(s)|..])
    ensures Strip(s) == [] <==> AllSpace(s)
  {
    var a := LeadingSpace(s);
    var e := a + |Strip(s)|;
    assert forall k :: 0 <= k < |s[e..]| ==> s[e..][k] == s[e + k];
    if AllSpace(s) {
      assert a == |s|;
    }
    if a == |s| {
      assert s[..a] == s;
    }
  }

  /** The leading run of `lead + rest` is `lead` when `rest` starts with
      a non-whitespace character. */
  lemma {:induction false} LeadingSpaceOf(lead: string, rest: string)
    requires AllSpace(lead) && rest != [] && !IsSpace(rest[0])
    ensures LeadingSpace(lead + rest) == |lead|
  {
    if lead == [] {
      assert lead + rest == rest;
    } else {
      assert (lead + rest)[1..] == lead[1..] + rest;
      LeadingSpaceOf(lead[1..], rest);
    }
  }

  /** The trailing run of `rest + trail` is `trail` when `rest` ends with
      a non-whitespace character. */
  lemma {:induction false} TrailingSpaceOf(rest: string, trail: string)
    requires AllSpace(trail) && rest != [] && !IsSpace(rest[|rest| - 1])
    ensures TrailingSpace(rest + trail) == |trail|
  {
    if trail == [] {
      assert rest + trail == rest;
    } else {
      var t := rest + trail;
      assert t[..|t| - 1] == rest + trail[..|trail| - 1];
      TrailingSpaceOf(rest, trail[..|trail| - 1]);
    }
  }

  /** The strip of `s` is the only middle part that the contract of
      `Strip` allows. */
  lemma StripUnique(s: string, lead: string, r: string, trail: string)
    requires s == lead + r + trail
    requires AllSpace(lead) && AllSpace(trail)
    requires Trimmed(r)
    ensures Strip(s) == r
  {
    if r == [] {
      AllSpaceConcat(lead, trail);
      assert s == lead + trail;
      StripTrims(s);
    } else {
      assert s == lead + (r + trail);
      LeadingSpaceOf(lead, r + trail);
      TrailingSpaceOf(lead + r, trail);
      assert s[|lead|..|s| - |trail|] == r;
    }
  }

  lemma AllSpaceConcat(u: string, v: string)
    ensures AllSpace(u + v) <==> AllSpace(u) && AllSpace(v)
  {
    assert forall i :: 0 <= i < |u| ==> (u + v)[i] == u[i];
    assert forall i :: 0 <= i < |v| ==> (u + v)[i + |u|] == v[i];
    assert forall i :: |u| <= i < |u + v| ==> (u + v)[i] == v[i - |u|];
  }

  /** `x = u + r + t` padded with `a` and `b`, cut around `r`. */
  lemma Regroup(a: string, x: string, u: string, r: string, t: string, b: string)
    requires x == u + r + t
    ensures a + x + b == (a + u) + r + (t + b)
  {
  }

  lemma StripDecompose(x: string)
    ensures x == x[..LeadingSpace(x)] + Strip(x) + x[LeadingSpace(x) + |Strip(x)|..]
  {
    var l, r := LeadingSpace(x), Strip(x);
    assert r == x[l..l + |r|];
    assert x == x[..l] + x[l..l + |r|] + x[l + |r|..];
  }

  /** Whitespace around a string does not change its strip. */
  lemma StripPadding(a: string, x: string, b: string)
    requires AllSpace(a) && AllSpace(b)
    ensures Strip(a + x + b) == Strip(x)
  {
    var l := LeadingSpace(x);
    var r := Strip(x);
    var u, t := x[..l], x[l + |r|..];
    StripDecompose(x);
    StripTrims(x);
    Regroup(a, x, u, r, t, b);
    AllSpaceConcat(a, u);
    AllSpaceConcat(t, b);
    StripUnique(a + x + b, a + u, r, t + b);
  }

  /** `str.lower()` restricted to ASCII letters. */
  function LowerChar(c: char): char {
    if 'A' <= c <= 'Z' then (c as int - 'A' as int + 'a' as int) as char else c
  }

  function Lower(s: string): string {
    seq(|s|, i requires 0 <= i < |s| => LowerChar(s[i]))
  }

  /** Lower-casing is the same for both strings: they differ only in the
      case of ASCII letters. */
  predicate SameIgnoringCase(s: string, t: string) {
    |s| == |t| && forall i :: 0 <= i < |s| ==> LowerChar(s[i]) == LowerChar(t[i])
  }

  /** Lower-casing keeps whitespace whitespace and only whitespace. */
  lemma LowerKeepsSpace(s: string)
    ensures AllSpace(Lower(s)) <==> AllSpace(s)
  {
    assert forall i :: 0 <= i < |s| ==> (IsSpace(Lower(s)[i]) <==> IsSpace(s[i]));
  }

  /** Python's `t in s` for strings. */
  predicate Contains(s: string, t: string)
    decreases |s|
  {
    t <= s || (s != [] && Contains(s[1..], t))
  }

  /** `t` occurs in `s` starting at position `i`. */
  predicate OccursAt(s: string, t: string, i: int) {
    0 <= i <= |s| - |t| && s[i..i + |t|] == t
  }

  /** Occurrences in `s[1..]` are the occurrences in `s` after the first
      position, one place to the left. */
  lemma OccursTail(s: string, t: string, i: int)
    requires s != [] && 0 <= i
    ensures OccursAt(s[1..], t, i) <==> OccursAt(s, t, i + 1)
  {
    if 0 <= i <= |s| - 1 - |t| {
      assert s[1..][i..i + |t|] == s[i + 1..i + 1 + |t|];
    }
  }

  lemma OccursAtStart(s: string, t: string)
    ensures OccursAt(s, t, 0) <==> t <= s
  {
    if |t| <= |s| {
      assert s[0..|t|] == s[..|t|];
    }
  }

  /** `t in s` holds exactly when `t` occurs in `s` at some position. */
  lemma {:induction false} ContainsIffOccurs(s: string, t: string)
    ensures Contains(s, t) <==> exists i :: OccursAt(s, t, i)
  {
    OccursAtStart(s, t);
    if t <= s {
    } else if s == [] {
    } else {
      ContainsIffOccurs(s[1..], t);
      if exists i :: OccursAt(s, t, i) {
        var i :| OccursAt(s, t, i);
        OccursTail(s, t, i - 1);
      }
      if Contains(s[1..], t) {
        var i :| OccursAt(s[1..], t, i);
        OccursTail(s, t, i);
      }
    }
  }

  /** `sep.join(xs)`. */
  function Join(xs: seq<string>, sep: string): string {
    if xs == [] then []
    else if |xs| == 1 then xs[0]
    else xs[0] + sep + Join(xs[1..], sep)
  }

  /** A join starts with its first piece. */
  lemma JoinStartsWith(xs: seq<string>, sep: string)
    requires xs != []
    ensures xs[0] <= Join(xs, sep)
  {
    if |xs| > 1 {
      assert Join(xs, sep) == xs[0] + (sep + Join(xs[1..], sep));
    }
  }

  lemma AppendAssoc(x: string, y: string, z: string)
    ensures x + y + z == x + (y + z)
  {
  }

  lemma JoinPair(x: string, y: string, sep: string)
    ensures Join([x, y], sep) == x + (sep + y)
  {
    assert [x, y][1..] == [y];
  }

  /** `s.split(sep)`: cut `s` at every occurrence of `sep`, searching from
      the left and resuming after each occurrence found. */
  function Split(s: string, sep: string): (r: seq<string>)
    requires sep != []
    ensures r != []
    decreases |s|
  {
    if |s| < |sep| then [s]
    else if sep <= s then [[]] + Split(s[|sep|..], sep)
    else
      var rest := Split(s[1..], sep);
      [[s[0]] + rest[0]] + rest[1..]
  }

  /** The first piece of a split is a prefix of the string. */
  lemma {:induction false} SplitHeadPrefix(s: string, sep: string)
    requires sep != []
    ensures Split(s, sep)[0] <= s
    decreases |s|
  {
    if |s| >= |sep| && !(sep <= s) {
      SplitHeadPrefix(s[1..], sep);
      var h := Split(s[1..], sep)[0];
      assert Split(s, sep)[0] == [s[0]] + h;
      assert s == [s[0]] + s[1..];
    }
  }

  /** Joining the pieces of a split gives back the original string. */
  lemma JoinCons(x: string, xs: seq<string>, sep: string)
    requires xs != []
    ensures Join([x] + xs, sep) == x + sep + Join(xs, sep)
  {
    assert ([x] + xs)[1..] == xs;
  }

  lemma JoinEmptyCons(xs: seq<string>, sep: string)
    requires xs != []
    ensures Join([[]] + xs, sep) == sep + Join(xs, sep)
  {
    JoinCons([], xs, sep);
  }

  lemma JoinSplitAtSep(s: string, sep: string)
    requires sep != [] && |sep| <= |s| && sep <= s
    ensures Join(Split(s, sep), sep) == sep + Join(Split(s[|sep|..], sep), sep)
  {
    var rest := Split(s[|sep|..], sep);
    assert Split(s, sep) == [[]] + rest;
    JoinEmptyCons(rest, sep);
  }

  /** Putting a character in front of the first piece puts it in front
      of the join. */
  lemma JoinHeadCons(c: char, xs: seq<string>, sep: string)
    requires xs != []
    ensures Join([[c] + xs[0]] + xs[1..], sep) == [c] + Join(xs, sep)
  {
    if |xs| > 1 {
      JoinCons([c] + xs[0], xs[1..], sep);
      assert [xs[0]] + xs[1..] == xs;
      JoinCons(xs[0], xs[1..], sep);
    }
  }

  lemma JoinSplitAtChar(s: string, sep: string)
    requires sep != [] && |sep| <= |s| && !(sep <= s)
    ensures Join(Split(s, sep), sep) == [s[0]] + Join(Split(s[1..], sep), sep)
  {
    JoinHeadCons(s[0], Split(s[1..], sep), sep);
  }

  lemma {:induction false} JoinSplit(s: string, sep: string)
    requires sep != []
    ensures Join(Split(s, sep), sep) == s
    decreases |s|
  {
    if |s| < |sep| {
      assert Split(s, sep) == [s];
    } else if sep <= s {
      JoinSplit(s[|sep|..], sep);
      JoinSplitAtSep(s, sep);
      assert s == sep + s[|sep|..] by {
        assert s[..|sep|] == sep;
        assert s == s[..|sep|] + s[|sep|..];
      }
    } else {
      JoinSplit(s[1..], sep);
      JoinSplitAtChar(s, sep);
      assert s == [s[0]] + s[1..];
    }
  }

  /** `sep` does not occur in `x`, not even straddling the end of `x`
      and the start of a following `sep`. */
  predicate Separable(x: string, sep: string)
    requires sep != []
  {
    !Contains(x + sep[..|sep| - 1], sep)
  }

  lemma {:induction false} SplitWithoutSep(x: string, sep: string)
    requires sep != [] && !Contains(x, sep)
    ensures Split(x, sep) == [x]
    decreases |x|
  {
    if |x| >= |sep| {
      SplitWithoutSep(x[1..], sep);
      assert x == [x[0]] + x[1..];
    }
  }

  lemma {:induction false} SplitAfterPiece(x: string, sep: string, rest: string)
    requires sep != [] && Separable(x, sep)
    ensures Split(x + sep + rest, sep) == [x] + Split(rest, sep)
    decreases |x|
  {
    var s := x + sep + rest;
    if x == [] {
      assert s == sep + rest;
      assert s[|sep|..] == rest;
    } else {
      var u := x + sep[..|sep| - 1];
      assert u[..|sep|] == s[..|sep|];
      assert !(sep <= s);
      assert u[1..] == x[1..] + sep[..|sep| - 1];
      assert s[1..] == x[1..] + sep + rest;
      SplitAfterPiece(x[1..], sep, rest);
      assert [x[0]] + x[1..] == x;
    }
  }

  lemma SeparableHasNoSep(x: string, sep: string)
    requires sep != [] && Separable(x, sep)
    ensures !Contains(x, sep)
  {
    if Contains(x, sep) {
      ContainsIffOccurs(x, sep);
      var i :| OccursAt(x, sep, i);
      var u := x + sep[..|sep| - 1];
      assert OccursAt(u, sep, i);
      ContainsIffOccurs(u, sep);
    }
  }

  /** Splitting undoes joining when no piece contains the separator. */
  lemma {:induction false} SplitJoin(xs: seq<string>, sep: string)
    requires sep != [] && xs != []
    requires forall i :: 0 <= i < |xs| ==> Separable(xs[i], sep)
    ensures Split(Join(xs, sep), sep) == xs
  {
    if |xs| == 1 {
      SeparableHasNoSep(xs[0], sep);
      SplitWithoutSep(xs[0], sep);
    } else {
      SplitJoin(xs[1..], sep);
      SplitAfterPiece(xs[0], sep, Join(xs[1..], sep));
    }
  }
}
