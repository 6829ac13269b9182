/** The attenuation test on patterns: `globSubset` and `patternsSubset` of src/tokens.js. */
module Attenuation {
  import opened Glob

  // ----- globSubset -----

  /** `s.indexOf('*')` for a string that holds a star. */
  function FirstStar(s: string): (i: nat)
    requires '*' in s
    ensures i < |s| && s[i] == '*' && '*' !in s[..i]
  {
    if s[0] == '*' then 0 else 1 + FirstStar(s[1..])
  }

  predicate EndsWith(s: string, suffix: string) {
    |suffix| <= |s| && s[|s| - |suffix|..] == suffix
  }

  predicate GlobSubset(parent: string, child: string) {
    if parent == "*" || parent == "**" || parent == child then true
    else if '*' !in parent then false
    else if '*' !in child then GlobMatch(parent, child)
    else
      var pi, ci := FirstStar(parent), FirstStar(child);
      && parent[..pi] <= child[..ci]
      && (parent[pi + 1..] == "" || EndsWith(child[ci + 1..], parent[pi + 1..]))
  }

  predicate PatternsSubset(child: seq<string>, parent: seq<string>) {
    if child == [] then true
    else if parent == [] then false
    else forall i :: 0 <= i < |child| ==> exists j :: 0 <= j < |parent| && GlobSubset(parent[j], child[i])
  }

  // ----- globSubset is sound -----

  lemma AroundFirstStar(s: string)
    requires '*' in s
    ensures s == s[..FirstStar(s)] + ("*" + s[FirstStar(s) + 1..])
  {
    AroundStar(s, FirstStar(s));
    hide FirstStar;
  }

  lemma AroundStar(s: string, i: nat)
    requires i < |s| && s[i] == '*'
    ensures s == s[..i] + ("*" + s[i + 1..])
  {
    assert s[i..] == "*" + s[i + 1..];
  }

  lemma WildSplit3(p0: string, mid: string, p1: string, v: string) returns (a: string, x: string, b: string)
    requires Wild(p0 + (mid + p1), v)
    ensures v == a + (x + b) && Wild(p0, a) && Wild(mid, x) && Wild(p1, b)
  {
    var rest;
    a, rest := WildSplit(p0, mid + p1, v);
    x, b := WildSplit(mid, p1, rest);
  }

  lemma WildAround(p0: string, p1: string, a: string, x: string, b: string)
    requires Wild(p0, a) && LineFree(x) && Wild(p1, b)
    ensures Wild(p0 + ("*" + p1), a + (x + b))
  {
    WildStar(x);
    WildJoin("*", p1, x, b);
    WildJoin(p0, "*" + p1, a, x + b);
  }

  /** What stands between two parts of a pattern is covered by a star there, unless it
      brings a line terminator with it. */
  lemma StarCovers(p0: string, mid: string, p1: string, v: string)
    requires Wild(p0 + (mid + p1), v)
    requires LineFree(v) || Terminators(mid) == 0
    ensures Wild(p0 + ("*" + p1), v)
  {
    var a, x, b := WildSplit3(p0, mid, p1, v);
    assert LineFree(x) by {
      MatchFixesTerminators(mid, x);
      LineFreeCount(x);
      LineFreeCount(v);
      TerminatorsConcat(a, x + b);
      TerminatorsConcat(x, b);
    }
    WildAround(p0, p1, a, x, b);
  }

  /** The case with a star on both sides: the child is the parent with more in the middle. */
  lemma BothStars(p: string, c: string) returns (p0: string, mid: string, p1: string)
    requires '*' in p && '*' in c && GlobSubset(p, c) && p != "*" && p != "**" && p != c
    ensures p == p0 + ("*" + p1) && c == p0 + (mid + p1) && |mid| >= 1
    ensures Terminators(c) - Terminators(p) == Terminators(mid)
  {
    hide Terminators;
    AroundFirstStar(p);
    AroundFirstStar(c);
    p0, p1 := p[..FirstStar(p)], p[FirstStar(p) + 1..];
    mid := Middle(p0, p1, c[..FirstStar(c)], c[FirstStar(c) + 1..]);
    MiddleTerminators(p0, mid, p1);
  }

  lemma Middle(p0: string, p1: string, c0: string, c1: string) returns (mid: string)
    requires p0 <= c0 && EndsWith(c1, p1)
    ensures c0 + ("*" + c1) == p0 + (mid + p1) && |mid| >= 1
  {
    mid := c0[|p0|..] + ("*" + c1[..|c1| - |p1|]);
    assert c0 == p0 + c0[|p0|..] && c1 == c1[..|c1| - |p1|] + p1;
  }

  lemma MiddleTerminators(p0: string, mid: string, p1: string)
    ensures Terminators(p0 + (mid + p1)) - Terminators(p0 + ("*" + p1)) == Terminators(mid)
  {
    TerminatorsConcat(p0, mid + p1);
    TerminatorsConcat(mid, p1);
    TerminatorsConcat(p0, "*" + p1);
    TerminatorsConcat("*", p1);
    assert "*"[1..] == "";
  }

  /** A pattern admitted by `globSubset` that is not the parent itself is never universal. */
  lemma AdmittedIsProper(p: string, c: string)
    requires GlobSubset(p, c) && p != "*" && p != "**" && p != c
    ensures c != "*" && c != "**"
  {
    if '*' in p && '*' in c {
      var p0, mid, p1 := BothStars(p, c);
      hide GlobSubset, Terminators;
      assert p[|p0|] == '*' && |p| <= |c|;
      assert |p| == 1 ==> p == "*";
    }
  }

  /** Everything the child pattern accepts, the parent accepts: for every value without a
      line terminator, and for every value whatever when both patterns hold equally many. */
  lemma GlobSubsetSound(p: string, c: string, v: string)
    requires GlobSubset(p, c) && GlobMatch(c, v)
    requires LineFree(v) || Terminators(p) == Terminators(c)
    ensures GlobMatch(p, v)
  {
    GlobMatchIsWild(p, v);
    GlobMatchIsWild(c, v);
    if p != "*" && p != "**" && p != c {
      AdmittedIsProper(p, c);
      if '*' in c {
        var p0, mid, p1 := BothStars(p, c);
        StarCovers(p0, mid, p1, v);
      } else {
        WildWithoutStar(c, v);
      }
    }
  }

  /** The shortest value a pattern accepts: all its stars empty. */
  function Shortest(p: string): string {
    if p == "" then "" else (if p[0] == '*' then "" else [p[0]]) + Shortest(p[1..])
  }

  lemma {:induction false} ShortestMatches(p: string)
    ensures Wild(p, Shortest(p))
  {
    if p != "" {
      ShortestMatches(p[1..]);
      var v := Shortest(p);
      if p[0] == '*' {
        assert v[..0] == "" && v[0..] == v;
      } else {
        assert v[1..] == Shortest(p[1..]);
      }
    }
  }

  /** Over all values, terminators included: an admitted pattern stays inside its parent
      exactly when the parent is universal or the two patterns hold equally many terminators. */
  lemma GlobSubsetOverAllValues(p: string, c: string)
    requires GlobSubset(p, c)
    ensures (forall v :: GlobMatch(c, v) ==> GlobMatch(p, v))
       <==> p == "*" || p == "**" || Terminators(p) == Terminators(c)
  {
    if p == "*" || p == "**" {
    } else if Terminators(p) == Terminators(c) {
      forall v | GlobMatch(c, v) ensures GlobMatch(p, v) { GlobSubsetSound(p, c, v); }
    } else {
      var v := Shortest(c);
      ShortestMatches(c);
      GlobMatchIsWild(c, v);
      GlobMatchIsWild(p, v);
      MatchFixesTerminators(c, v);
      if Wild(p, v) { MatchFixesTerminators(p, v); }
      assert GlobMatch(c, v) && !GlobMatch(p, v);
    }
  }

  /** A small case: an `a`, a line separator and a star. The child accepts the separator,
      the parent does not. */
  lemma TerminatorEscapes() returns (p: string, c: string, v: string)
    ensures p == ['a', '*'] && c == ['a', '\U{2028}', '*'] && v == ['a', '\U{2028}']
    ensures GlobSubset(p, c) && GlobMatch(c, v) && !GlobMatch(p, v)
  {
    hide GlobSubset, GlobMatch, Wild;
    p, c, v := ['a', '*'], ['a', '\U{2028}', '*'], ['a', '\U{2028}'];
    EscapeAdmitted(p, c);
    EscapeCounts(p, c, v);
    ShortestMatches(c);
    GlobMatchIsWild(c, v);
    GlobMatchIsWild(p, v);
    if Wild(p, v) { MatchFixesTerminators(p, v); }
  }

  lemma EscapeCounts(p: string, c: string, v: string)
    requires p == ['a', '*'] && c == ['a', '\U{2028}', '*'] && v == ['a', '\U{2028}']
    ensures Terminators(p) == 0 && Terminators(v) == 1 && Shortest(c) == v
  {
    var star, separator := ['*'], ['\U{2028}'];
    assert star[1..] == "" && separator[1..] == "";
    assert Terminators(star) == 0 && Terminators(separator) == 1 && Shortest(star) == "";
    assert p[1..] == star && v[1..] == separator;
    var tail := c[1..];
    assert tail == ['\U{2028}', '*'] && tail[1..] == star;
    assert Shortest(tail) == separator;
  }

  lemma EscapeAdmitted(p: string, c: string)
    requires p == ['a', '*'] && c == ['a', '\U{2028}', '*']
    ensures GlobSubset(p, c)
  {
    hide GlobMatch;
    assert FirstStar(p) == 1 && p[..1] == ['a'] && p[2..] == "";
    assert FirstStar(c) == 2 && c[..2] == ['a', '\U{2028}'];
  }

  // ----- globSubset is complete for patterns with one star -----

  predicate AtMostOneStar(p: string) {
    '*' in p ==> '*' !in p[FirstStar(p) + 1..]
  }

  lemma OneStarMatch(p: string, v: string)
    requires '*' in p && AtMostOneStar(p) && Wild(p, v)
    ensures p[..FirstStar(p)] <= v && EndsWith(v, p[FirstStar(p) + 1..])
    ensures |p| <= |v| + 1
  {
    var i := FirstStar(p);
    AroundFirstStar(p);
    var a, rest := WildSplit(p[..i], "*" + p[i + 1..], v);
    WildWithoutStar(p[..i], a);
    var x, b := WildSplit("*", p[i + 1..], rest);
    WildWithoutStar(p[i + 1..], b);
    assert v == a + x + b;
  }

  /** A value of the child in which the star stands for one chosen character. */
  function WithStarAs(c: string, d: char): (v: string)
    requires '*' in c
  {
    c[..FirstStar(c)] + ([d] + c[FirstStar(c) + 1..])
  }

  lemma OneStarValue(c: string, d: char)
    requires '*' in c && AtMostOneStar(c) && !IsLineTerminator(d)
    ensures Wild(c, WithStarAs(c, d))
  {
    var c0, c1 := c[..FirstStar(c)], c[FirstStar(c) + 1..];
    AroundFirstStar(c);
    WildLiteral(c0);
    WildLiteral(c1);
    WildStar([d]);
    WildJoin("*", c1, [d], c1);
    WildJoin(c0, "*" + c1, c0, [d] + c1);
  }

  /** If every value of the child, with any single character for its star, is one of the
      parent's, then the parent's two literal parts enclose the child's. */
  lemma OneStarComplete(p: string, c: string)
    requires '*' in p && '*' in c && AtMostOneStar(p) && AtMostOneStar(c)
    requires forall d :: d in "abc" ==> Wild(p, WithStarAs(c, d))
    ensures GlobSubset(p, c)
  {
    var p0, p1 := p[..FirstStar(p)], p[FirstStar(p) + 1..];
    var c0, c1 := c[..FirstStar(c)], c[FirstStar(c) + 1..];
    var d := Avoid(if |c0| < |p0| then p0[|c0|] else 'a', if |c1| < |p1| then p1[|p1| - 1 - |c1|] else 'a');
    OneStarMatch(p, WithStarAs(c, d));
    hide Wild, AtMostOneStar, GlobMatch, FirstStar;
    PrefixIsShort(p0, c0, d, c1);
    SuffixIsShort(p1, c0, d, c1);
  }

  /** A prefix that differs from `d` in its place ends before it. */
  lemma PrefixIsShort(p0: string, c0: string, d: char, c1: string)
    requires p0 <= c0 + ([d] + c1) && (|c0| < |p0| ==> p0[|c0|] != d)
    ensures p0 <= c0
  {
    var v := c0 + ([d] + c1);
    assert v[|c0|] == d;
    assert forall i :: 0 <= i < |p0| ==> p0[i] == v[i];
    assert p0 == c0[..|p0|];
  }

  lemma SuffixIsShort(p1: string, c0: string, d: char, c1: string)
    requires EndsWith(c0 + ([d] + c1), p1) && (|c1| < |p1| ==> p1[|p1| - 1 - |c1|] != d)
    ensures EndsWith(c1, p1)
  {
    var v := c0 + ([d] + c1);
    assert v[|v| - 1 - |c1|] == d;
    assert forall i :: 0 <= i < |p1| ==> p1[i] == v[|v| - |p1|..][i] == v[|v| - |p1| + i];
    assert c1[|c1| - |p1|..] == v[|v| - |p1|..];
  }

  function Avoid(x: char, y: char): (d: char)
    ensures d != x && d != y && d in "abc"
  {
    if x != 'a' && y != 'a' then 'a' else if x != 'b' && y != 'b' then 'b' else 'c'
  }

  lemma InclusionImpliesSubset(p: string, c: string)
    requires AtMostOneStar(p) && AtMostOneStar(c) && LineFree(c)
    requires forall v :: LineFree(v) && GlobMatch(c, v) ==> GlobMatch(p, v)
    ensures GlobSubset(p, c)
  {
    if '*' !in c {
      assert GlobMatch(c, c);
    } else if p != "*" && p != "**" {
      forall d | d in "abc" ensures Wild(p, WithStarAs(c, d)) {
        var v := WithStarAs(c, d);
        OneStarValue(c, d);
        GlobMatchIsWild(c, v);
        GlobMatchIsWild(p, v);
      }
      if '*' in p {
        OneStarComplete(p, c);
      } else {
        var va, vb := WithStarAs(c, 'a'), WithStarAs(c, 'b');
        assert 'a' in "abc" && 'b' in "abc" && va[FirstStar(c)] != vb[FirstStar(c)];
        WildWithoutStar(p, va);
        WildWithoutStar(p, vb);
      }
    }
  }

  /** With at most one star in each pattern, the syntactic test decides inclusion. */
  lemma GlobSubsetDecidesOneStar(p: string, c: string)
    requires AtMostOneStar(p) && AtMostOneStar(c) && LineFree(c)
    ensures GlobSubset(p, c) <==> forall v :: LineFree(v) && GlobMatch(c, v) ==> GlobMatch(p, v)
  {
    if GlobSubset(p, c) {
      forall v | LineFree(v) && GlobMatch(c, v) ensures GlobMatch(p, v) { GlobSubsetSound(p, c, v); }
    } else if forall v :: LineFree(v) && GlobMatch(c, v) ==> GlobMatch(p, v) {
      InclusionImpliesSubset(p, c);
    }
  }

  // ----- What inclusion is, for any number of stars -----

  /** A pattern read as a value, its stars as characters: if the parent accepts the child, it
      accepts whatever the child accepts. */
  lemma {:induction false} WildComposes(p: string, c: string, v: string)
    requires Wild(p, c) && Wild(c, v)
    ensures Wild(p, v)
    decreases |p|
  {
    hide Wild;
    if p == "" {
      WildEmptyOnly(c);
      WildEmptyOnly(v);
    } else if p[0] == '*' {
      var j := StarTakes(p, c);
      assert c == c[..j] + c[j..];
      var a, b := WildSplit(c[..j], c[j..], v);
      MatchFixesTerminators(c[..j], a);
      LineFreeCount(c[..j]);
      LineFreeCount(a);
      WildComposes(p[1..], c[j..], b);
      StarGives(p, a, b);
    } else {
      LiteralTakes(p, c);
      LiteralTakes(c, v);
      WildComposes(p[1..], c[1..], v[1..]);
      LiteralGives(p, v[1..]);
      assert v == [p[0]] + v[1..];
    }
  }

  /** Every star replaced by one and the same character. */
  function Filled(c: string, d: char): (v: string)
    ensures |v| == |c| && forall i :: 0 <= i < |c| ==> v[i] == if c[i] == '*' then d else c[i]
  {
    if c == "" then "" else [if c[0] == '*' then d else c[0]] + Filled(c[1..], d)
  }

  lemma {:induction false} FilledMatches(c: string, d: char)
    requires !IsLineTerminator(d)
    ensures Wild(c, Filled(c, d))
  {
    hide Wild;
    if c == "" {
      WildEmpty();
    } else {
      FilledMatches(c[1..], d);
      if c[0] == '*' { StarGives(c, [d], Filled(c[1..], d)); } else { LiteralGives(c, Filled(c[1..], d)); }
    }
  }

  /** A parent that does not mention the character can have matched it by stars only. */
  lemma {:induction false} FilledUnfills(p: string, c: string, d: char)
    requires d !in p && !IsLineTerminator(d) && Wild(p, Filled(c, d))
    ensures Wild(p, c)
    decreases |p|
  {
    hide Wild;
    var v := Filled(c, d);
    if p == "" {
      WildEmptyOnly(v);
      WildEmpty();
    } else if p[0] == '*' {
      var j := StarTakes(p, v);
      FilledRest(c, d, j);
      FilledFront(c, d, j);
      CutAt(c, j);
      FilledUnfills(p[1..], c[j..], d);
      StarGives(p, c[..j], c[j..]);
    } else {
      LiteralTakes(p, v);
      FilledRest(c, d, 1);
      FilledUnfills(p[1..], c[1..], d);
      LiteralGives(p, c[1..]);
      CutAt(c, 1);
      assert c[..1] == [p[0]];
    }
  }

  lemma CutAt(c: string, j: nat)
    requires j <= |c|
    ensures c == c[..j] + c[j..]
  {
  }

  lemma {:induction false} FilledRest(c: string, d: char, j: nat)
    requires j <= |c|
    ensures Filled(c, d)[j..] == Filled(c[j..], d)
  {
    if j > 0 {
      FilledRest(c[1..], d, j - 1);
      assert Filled(c, d)[1..] == Filled(c[1..], d);
      assert Filled(c, d)[j..] == Filled(c, d)[1..][j - 1..] && c[j..] == c[1..][j - 1..];
    }
  }

  lemma FilledFront(c: string, d: char, j: nat)
    requires j <= |c| && LineFree(Filled(c, d)[..j])
    ensures LineFree(c[..j])
  {
    var v := Filled(c, d);
    hide Filled;
    forall i | 0 <= i < j ensures !IsLineTerminator(c[i]) { assert v[..j][i] == v[i]; }
  }

  /** Registration bounds patterns by 512 UTF-16 units, which normalising may triple, so some
      character is not in one. */
  const PATTERN_MAX: nat := 3 * 512

  function Letter(code: nat): char
    requires code < 0x1000
  {
    code as char
  }

  lemma {:induction false} Unused(used: set<char>, code: nat) returns (d: char)
    requires 0x100 <= code && code + |used| < 0x1000
    ensures d !in used && code <= d as int <= code + |used|
    decreases |used|
  {
    var x := Letter(code);
    if x in used {
      d := Unused(used - {x}, code + 1);
    } else {
      d := x;
    }
  }

  lemma {:induction false} CharsCount(p: string)
    ensures |set x | x in p| <= |p|
  {
    if p == "" {
      assert (set x | x in p) == {};
    } else {
      CharsCount(p[1..]);
      assert (set x | x in p) == {p[0]} + (set x | x in p[1..]);
    }
  }

  lemma UnusedIn(p: string) returns (d: char)
    requires |p| <= PATTERN_MAX
    ensures d !in p && !IsLineTerminator(d)
  {
    CharsCount(p);
    d := Unused(set x | x in p, 0x100);
  }

  /** Inclusion of the wildcard languages is decided by one match. */
  lemma WildInclusionExactly(p: string, c: string)
    requires |p| <= PATTERN_MAX
    ensures (forall v | Wild(c, v) :: Wild(p, v)) <==> Wild(p, c)
  {
    if Wild(p, c) {
      forall v | Wild(c, v) ensures Wild(p, v) { WildComposes(p, c, v); }
    } else {
      var v := Missing(p, c);
    }
  }

  predicate Universal(p: string) { p == "*" || p == "**" }

  lemma UniversalIsWild(p: string, v: string)
    requires LineFree(v)
    ensures Universal(p) ==> Wild(p, v)
    ensures GlobMatch(p, v) <==> Wild(p, v)
  {
    GlobMatchIsWild(p, v);
    if p == "*" {
      WildStar(v);
    } else if p == "**" {
      WildStar(v);
      WildStar("");
      WildJoin("*", "*", v, "");
      assert "*" + "*" == "**" && v + "" == v;
    }
  }

  /** Over values without line terminators, a pattern is inside another exactly when the other
      accepts it as a value, or it accepts no such value at all. */
  lemma InclusionExactly(p: string, c: string)
    requires |p| <= PATTERN_MAX
    ensures (forall v | LineFree(v) && GlobMatch(c, v) :: GlobMatch(p, v)) <==> !LineFree(c) || GlobMatch(p, c)
  {
    hide GlobMatch, Wild;
    SameTerminators(c);
    if LineFree(c) {
      UniversalIsWild(p, c);
      if Wild(p, c) {
        forall v | LineFree(v) && GlobMatch(c, v) ensures GlobMatch(p, v) {
          UniversalIsWild(c, v);
          UniversalIsWild(p, v);
          WildComposes(p, c, v);
        }
      } else {
        var v := Missing(p, c);
        UniversalIsWild(c, v);
        UniversalIsWild(p, v);
      }
    } else {
      forall v ensures LineFree(v) ==> (GlobMatch(c, v) <==> Wild(c, v)) {
        if LineFree(v) { UniversalIsWild(c, v); }
      }
    }
  }

  /** A value of the child that the parent refuses. */
  lemma Missing(p: string, c: string) returns (v: string)
    requires |p| <= PATTERN_MAX && !Wild(p, c)
    ensures Wild(c, v) && !Wild(p, v) && (LineFree(c) ==> LineFree(v))
  {
    hide Wild;
    var d := UnusedIn(p);
    v := Filled(c, d);
    FilledMatches(c, d);
    if Wild(p, v) { FilledUnfills(p, c, d); }
  }

  lemma SameTerminators(c: string)
    ensures forall v | Wild(c, v) :: LineFree(v) <==> LineFree(c)
  {
    forall v | Wild(c, v) ensures LineFree(v) <==> LineFree(c) {
      MatchFixesTerminators(c, v);
      LineFreeCount(v);
      LineFreeCount(c);
    }
  }

  /** Over all values. */
  lemma InclusionOverAllValues(p: string, c: string)
    requires |p| <= PATTERN_MAX
    ensures (forall v | GlobMatch(c, v) :: GlobMatch(p, v)) <==> Universal(p) || (!Universal(c) && GlobMatch(p, c))
  {
    if Universal(p) {
    } else if Universal(c) {
      var v := "\n";
      GlobMatchIsWild(p, p + v);
      NotInside(p);
    } else {
      hide GlobMatch, Wild;
      WildInclusionExactly(p, c);
      GlobMatchIsWild(p, c);
      forall v ensures (GlobMatch(c, v) ==> GlobMatch(p, v)) <==> (Wild(c, v) ==> Wild(p, v)) {
        GlobMatchIsWild(c, v);
        GlobMatchIsWild(p, v);
      }
      if v :| Wild(c, v) && !Wild(p, v) { assert !(GlobMatch(c, v) ==> GlobMatch(p, v)); }
      if v :| GlobMatch(c, v) && !GlobMatch(p, v) { assert !(Wild(c, v) ==> Wild(p, v)); }
    }
  }

  /** No pattern but the universal ones accepts every value. */
  lemma NotInside(p: string)
    requires !Universal(p)
    ensures exists v :: !GlobMatch(p, v)
  {
    var v := p + "\n";
    GlobMatchIsWild(p, v);
    TerminatorsConcat(p, "\n");
    assert "\n"[1..] == "";
    if Wild(p, v) { MatchFixesTerminators(p, v); }
    assert !GlobMatch(p, v);
  }

  /** Behind the parent's first literal part, all of the child is accepted by a star and the rest
      of the parent read as a pattern, but the texts behind the two first stars do not end alike. */
  predicate Missed(p: string, c: string) {
    && '*' in p && '*' in c && !Universal(p)
    && var p0, p1 := p[..FirstStar(p)], p[FirstStar(p) + 1..];
       p0 <= c && GlobMatch("*" + p1, c[|p0|..]) && !EndsWith(c[FirstStar(c) + 1..], p1)
  }

  /** When the test errs: it refuses a pattern that is inside the other exactly when it takes for a
      text what the parent has behind its first star. It never errs the other way. */
  lemma GlobSubsetErrsExactly(p: string, c: string)
    requires |p| <= PATTERN_MAX && LineFree(c)
    ensures (GlobSubset(p, c) <==> forall v | LineFree(v) && GlobMatch(c, v) :: GlobMatch(p, v)) <==> !Missed(p, c)
  {
    hide GlobMatch, GlobSubset, Missed;
    InclusionExactly(p, c);
    MissedExactly(p, c);
    if GlobSubset(p, c) {
      forall v | LineFree(v) && GlobMatch(c, v) ensures GlobMatch(p, v) { GlobSubsetSound(p, c, v); }
    }
  }

  lemma MissedExactly(p: string, c: string)
    requires LineFree(c)
    ensures Missed(p, c) <==> GlobMatch(p, c) && !GlobSubset(p, c)
  {
    if '*' in p && '*' in c && !Universal(p) {
      StarsMissed(p, c);
    } else {
      hide GlobMatch;
    }
  }

  lemma StarsMissed(p: string, c: string)
    requires LineFree(c) && '*' in p && '*' in c && !Universal(p)
    ensures Missed(p, c) <==> GlobMatch(p, c) && !GlobSubset(p, c)
  {
    hide GlobMatch, FirstStar;
    var p0, p1 := p[..FirstStar(p)], p[FirstStar(p) + 1..];
    GlobBehindLiteral(p, c);
    if p0 <= c { PrefixBeforeStar(p0, c); }
  }

  /** The literal text in front of the first star can be cut off. */
  lemma GlobBehindLiteral(p: string, c: string)
    requires LineFree(c) && '*' in p
    ensures var p0, p1 := p[..FirstStar(p)], p[FirstStar(p) + 1..];
            GlobMatch(p, c) <==> p0 <= c && GlobMatch("*" + p1, c[|p0|..])
  {
    hide GlobMatch, Wild;
    var p0, p1 := p[..FirstStar(p)], p[FirstStar(p) + 1..];
    UniversalIsWild(p, c);
    AroundFirstStar(p);
    LiteralInFront(p0, "*" + p1, c);
    if p0 <= c { UniversalIsWild("*" + p1, c[|p0|..]); }
  }

  lemma LiteralInFront(p0: string, rest: string, v: string)
    requires '*' !in p0
    ensures Wild(p0 + rest, v) <==> p0 <= v && Wild(rest, v[|p0|..])
  {
    hide Wild;
    if Wild(p0 + rest, v) {
      var a, b := WildSplit(p0, rest, v);
      WildWithoutStar(p0, a);
      assert v[|p0|..] == b;
    } else if p0 <= v && Wild(rest, v[|p0|..]) {
      assert p0 + v[|p0|..] == v;
      WildLiteral(p0);
      WildJoin(p0, rest, p0, v[|p0|..]);
    }
  }

  lemma PrefixBeforeStar(p0: string, c: string)
    requires '*' in c && '*' !in p0 && p0 <= c
    ensures p0 <= c[..FirstStar(c)]
  {
    assert forall k :: 0 <= k < |p0| ==> p0[k] == c[k];
    assert c[FirstStar(c)] == '*';
  }

  /** A parent with one star that accepts the child as a value encloses its stars. */
  lemma OneStarAdmits(p: string, c: string)
    requires AtMostOneStar(p) && GlobMatch(p, c)
    ensures GlobSubset(p, c)
  {
    if '*' in p && '*' in c && p != "*" {
      GlobMatchIsWild(p, c);
      assert "**"[0] == '*' && "**"[1..] == "*" && '*' in "*";
      OneStarMatch(p, c);
      StarsEnclosed(p[..FirstStar(p)], p[FirstStar(p) + 1..], c);
    }
  }

  lemma StarsEnclosed(p0: string, p1: string, c: string)
    requires '*' in c && '*' !in p0 && '*' !in p1 && p0 <= c && EndsWith(c, p1)
    ensures p0 <= c[..FirstStar(c)] && EndsWith(c[FirstStar(c) + 1..], p1)
  {
    PrefixBeforeStar(p0, c);
    SuffixBehindStar(p1, c, FirstStar(c));
  }

  lemma SuffixBehindStar(p1: string, c: string, i: nat)
    requires i < |c| && c[i] == '*' && '*' !in p1 && EndsWith(c, p1)
    ensures EndsWith(c[i + 1..], p1)
  {
    var n := |c| - |p1|;
    assert c == c[..n] + p1;
    if n <= i { assert false; }
    assert c[i + 1..] == c[i + 1..n] + p1;
  }

  /** So the test errs only on parents with two stars or more, whatever the child. */
  lemma OneStarParentDecides(p: string, c: string)
    requires AtMostOneStar(p) && LineFree(c) && |p| <= PATTERN_MAX
    ensures GlobSubset(p, c) <==> forall v | LineFree(v) && GlobMatch(c, v) :: GlobMatch(p, v)
  {
    hide GlobMatch, GlobSubset, AtMostOneStar, Missed;
    GlobSubsetErrsExactly(p, c);
    MissedExactly(p, c);
    if GlobMatch(p, c) { OneStarAdmits(p, c); }
  }

  /** With two it does: the parent accepts every value of the child and is refused. */
  lemma GlobSubsetIncomplete(v: string)
    ensures !GlobSubset("a**", "a*") && GlobMatch("a**", "a*")
    ensures GlobMatch("a*", v) ==> GlobMatch("a**", v)
  {
    NotAdmitted();
    GlobMatchIsWild("a*", v);
    GlobMatchIsWild("a**", v);
    GlobMatchIsWild("a**", "a*");
    WildMissed();
    if Wild("a*", v) { WildComposes("a**", "a*", v); }
  }

  lemma WildMissed()
    ensures Wild("a**", "a*")
  {
    hide Wild;
    WildStar("*");
    WildStar("");
    WildLiteral("a");
    WildJoin("*", "*", "*", "");
    assert "*" + "*" == "**" && "*" + "" == "*";
    WildJoin("a", "**", "a", "*");
    assert "a" + "**" == "a**" && "a" + "*" == "a*";
  }

  lemma NotAdmitted()
    ensures !GlobSubset("a**", "a*")
  {
    hide GlobMatch;
    var p, c := "a**", "a*";
    assert FirstStar(p) == 1 && FirstStar(c) == 1;
    assert p[2..] == "*" && c[2..] == "";
  }

  // ----- Lists of patterns -----

  /** The parent admits the child for all values, line terminators included. */
  predicate AdmitsAnywhere(p: string, c: string) {
    GlobSubset(p, c) && (Universal(p) || Terminators(p) == Terminators(c))
  }

  predicate AdmittedAnywhere(c: string, parent: seq<string>) {
    exists j :: 0 <= j < |parent| && AdmitsAnywhere(parent[j], c)
  }

  predicate ListAdmitsAnywhere(child: seq<string>, parent: seq<string>) {
    forall i :: 0 <= i < |child| ==> AdmittedAnywhere(child[i], parent)
  }

  /** A narrowed list of patterns accepts nothing the wider list refuses: no value without a line
      terminator, and none at all when the patterns agree in their own terminators. */
  lemma PatternsSubsetSound(child: seq<string>, parent: seq<string>, v: string)
    requires PatternsSubset(child, parent) && AnyMatch(child, v)
    requires LineFree(v) || ListAdmitsAnywhere(child, parent)
    ensures AnyMatch(parent, v)
  {
    hide GlobSubset, GlobMatch;
    var i :| 0 <= i < |child| && (GlobMatch(child[i], v) || child[i] == "*");
    StarMatches(v);
    if LineFree(v) {
      var j :| 0 <= j < |parent| && GlobSubset(parent[j], child[i]);
      GlobSubsetSound(parent[j], child[i], v);
    } else {
      assert AdmittedAnywhere(child[i], parent);
      var j :| 0 <= j < |parent| && AdmitsAnywhere(parent[j], child[i]);
      GlobSubsetOverAllValues(parent[j], child[i]);
    }
  }

  lemma StarMatches(v: string)
    ensures GlobMatch("*", v)
  {
  }

  /** Patterns that hold no terminator themselves agree in them. */
  lemma LineFreeListsAgree(child: seq<string>, parent: seq<string>)
    requires PatternsSubset(child, parent)
    requires forall i :: 0 <= i < |child| ==> LineFree(child[i])
    requires forall j :: 0 <= j < |parent| ==> LineFree(parent[j])
    ensures ListAdmitsAnywhere(child, parent)
  {
    hide GlobSubset, Terminators, LineFree;
    forall i | 0 <= i < |child| ensures AdmittedAnywhere(child[i], parent) {
      var j :| 0 <= j < |parent| && GlobSubset(parent[j], child[i]);
      LineFreeCount(child[i]);
      LineFreeCount(parent[j]);
      assert AdmitsAnywhere(parent[j], child[i]);
    }
  }
}
