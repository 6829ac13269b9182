/** Wildcard patterns: `globMatch` and `anyMatch` of src/policy.js.

    `globMatch` builds a regular expression as text, so the model builds the same text,
    reads it back with a reader for the fragment of the regular-expression grammar that can
    occur, and runs the result. */
module Glob {
  import opened Prelude

  // ----- What "." refuses to match -----

  predicate IsLineTerminator(c: char) {
    c == '\n' || c == '\r' || c == '\U{2028}' || c == '\U{2029}'
  }

  predicate LineFree(v: string) {
    forall i :: 0 <= i < |v| ==> !IsLineTerminator(v[i])
  }

  function Terminators(v: string): nat {
    if v == "" then 0 else (if IsLineTerminator(v[0]) then 1 else 0) + Terminators(v[1..])
  }

  // ----- The text that globMatch compiles -----

  predicate NeedsEscape(c: char) {
    c in ".+?^${}()|[]\\"
  }

  function EscapedChar(c: char): string {
    if NeedsEscape(c) then ['\\', c] else [c]
  }

  function Escape(s: string): string {
    if s == "" then "" else EscapedChar(s[0]) + Escape(s[1..])
  }

  function Split(p: string): (parts: seq<string>)
    ensures |parts| > 0
  {
    if p == "" then [""]
    else
      var rest := Split(p[1..]);
      if p[0] == '*' then [""] + rest else [[p[0]] + rest[0]] + rest[1..]
  }

  /** `parts.map(escape).join('.*')` */
  function EscapeAndJoin(parts: seq<string>): string
    requires |parts| > 0
  {
    if |parts| == 1 then Escape(parts[0]) else Escape(parts[0]) + ".*" + EscapeAndJoin(parts[1..])
  }

  function RegexSource(p: string): string {
    "^" + EscapeAndJoin(Split(p)) + "$"
  }

  // ----- Regular expressions: the fragment that occurs -----

  datatype Atom = Lit(c: char) | AnyRun

  /** The syntax characters of ECMA-262, section 22.2.1. */
  predicate IsSyntax(c: char) {
    || c == '^' || c == '$' || c == '\\' || c == '.' || c == '*' || c == '+' || c == '?' || c == '(' || c == ')'
    || c == '[' || c == ']' || c == '{' || c == '}' || c == '|'
  }

  /** Reads the text between the anchors. A syntax character that is neither escaped nor part
      of ".*" is outside the fragment. */
  function ReadAtoms(src: string): Option<seq<Atom>> {
    if src == "" then Some([])
    else if src[0] == '\\' then
      if |src| == 1 || !IsSyntax(src[1]) then None
      else match ReadAtoms(src[2..]) case None => None case Some(a) => Some([Lit(src[1])] + a)
    else if src[0] == '.' then
      if |src| == 1 || src[1] != '*' then None
      else match ReadAtoms(src[2..]) case None => None case Some(a) => Some([AnyRun] + a)
    else if IsSyntax(src[0]) then None
    else match ReadAtoms(src[1..]) case None => None case Some(a) => Some([Lit(src[0])] + a)
  }

  function ReadRegex(src: string): Option<seq<Atom>> {
    if |src| >= 2 && src[0] == '^' && src[|src| - 1] == '$' then ReadAtoms(src[1..|src| - 1]) else None
  }

  /** Backtracking match of the whole value. */
  predicate RunAtoms(atoms: seq<Atom>, v: string)
    decreases |atoms| + |v|
  {
    if atoms == [] then v == ""
    else match atoms[0]
      case Lit(c) => v != "" && v[0] == c && RunAtoms(atoms[1..], v[1..])
      case AnyRun =>
        || RunAtoms(atoms[1..], v)
        || (v != "" && !IsLineTerminator(v[0]) && RunAtoms(atoms, v[1..]))
  }

  predicate GlobMatch(pattern: string, value: string) {
    if pattern == "*" || pattern == "**" then true
    else if '*' !in pattern then pattern == value
    else
      match ReadRegex(RegexSource(pattern))
      case None => false
      case Some(atoms) => RunAtoms(atoms, value)
  }

  predicate AnyMatch(patterns: seq<string>, value: string) {
    exists i :: 0 <= i < |patterns| && (GlobMatch(patterns[i], value) || patterns[i] == "*")
  }

  // ----- The wildcard relation, stated without regular expressions -----

  /** A star stands for any run of characters without a line terminator. */
  ghost predicate Wild(p: string, v: string) {
    if p == "" then v == ""
    else if p[0] == '*' then exists k :: 0 <= k <= |v| && LineFree(v[..k]) && Wild(p[1..], v[k..])
    else v != "" && v[0] == p[0] && Wild(p[1..], v[1..])
  }

  function AtomsOf(p: string): seq<Atom> {
    if p == "" then [] else [if p[0] == '*' then AnyRun else Lit(p[0])] + AtomsOf(p[1..])
  }

  function Before(a: Atom, r: Option<seq<Atom>>): Option<seq<Atom>> {
    match r case None => None case Some(atoms) => Some([a] + atoms)
  }

  lemma ReadStar(tail: string)
    ensures ReadAtoms(".*" + tail) == Before(AnyRun, ReadAtoms(tail))
  {
    assert (".*" + tail)[2..] == tail;
  }

  lemma ReadLiteral(c: char, tail: string)
    requires c != '*'
    ensures ReadAtoms(EscapedChar(c) + tail) == Before(Lit(c), ReadAtoms(tail))
  {
    assert (EscapedChar(c) + tail)[|EscapedChar(c)|..] == tail;
  }

  lemma JoinStar(rest: seq<string>)
    requires rest != []
    ensures EscapeAndJoin([""] + rest) == ".*" + EscapeAndJoin(rest)
  {
    assert ([""] + rest)[1..] == rest;
  }

  lemma JoinLiteral(c: char, rest: seq<string>)
    requires rest != []
    ensures EscapeAndJoin([[c] + rest[0]] + rest[1..]) == EscapedChar(c) + EscapeAndJoin(rest)
  {
    hide Escape, EscapedChar;
    var parts := [[c] + rest[0]] + rest[1..];
    EscapeCons(c, rest[0]);
    assert parts[1..] == rest[1..] && |parts| == |rest|;
    if |rest| > 1 { Reassociate(EscapedChar(c), Escape(rest[0]), EscapeAndJoin(rest[1..])); }
  }

  lemma Reassociate(a: string, b: string, c: string)
    ensures a + b + ".*" + c == a + (b + ".*" + c)
  {
  }

  lemma EscapeCons(c: char, s: string)
    ensures Escape([c] + s) == EscapedChar(c) + Escape(s)
  {
    assert ([c] + s)[1..] == s;
  }

  /** What `globMatch` compiles reads back as the pattern, sign by sign. */
  lemma {:induction false} EscapedPatternReads(p: string)
    ensures ReadAtoms(EscapeAndJoin(Split(p))) == Some(AtomsOf(p))
  {
    hide ReadAtoms, EscapeAndJoin, EscapedChar;
    if p == "" {
      NothingReads();
    } else {
      var rest := Split(p[1..]);
      EscapedPatternReads(p[1..]);
      if p[0] == '*' {
        JoinStar(rest);
        ReadStar(EscapeAndJoin(rest));
      } else {
        JoinLiteral(p[0], rest);
        ReadLiteral(p[0], EscapeAndJoin(rest));
      }
    }
  }

  lemma NothingReads()
    ensures ReadAtoms(EscapeAndJoin([""])) == Some([])
  {
  }

  lemma {:induction false} RunIsWild(p: string, v: string)
    ensures RunAtoms(AtomsOf(p), v) <==> Wild(p, v)
    decreases |p| + |v|
  {
    if p != "" {
      assert AtomsOf(p)[1..] == AtomsOf(p[1..]);
      if p[0] != '*' {
        if v != "" { RunIsWild(p[1..], v[1..]); }
      } else {
        StarUnfolds(p, v);
        RunIsWild(p[1..], v);
        if v != "" { RunIsWild(p, v[1..]); }
      }
    }
  }

  /** A star is empty or takes one more character. */
  lemma StarUnfolds(p: string, v: string)
    requires p != "" && p[0] == '*'
    ensures Wild(p, v) <==> Wild(p[1..], v) || (v != "" && !IsLineTerminator(v[0]) && Wild(p, v[1..]))
  {
    hide Wild;
    if Wild(p[1..], v) {
      StarGives(p, "", v);
      assert "" + v == v;
    } else if v != "" && !IsLineTerminator(v[0]) && Wild(p, v[1..]) {
      var k := StarTakes(p, v[1..]);
      StarGives(p, [v[0]] + v[1..][..k], v[1..][k..]);
      assert v == [v[0]] + v[1..][..k] + v[1..][k..];
    } else if Wild(p, v) {
      var k := StarTakes(p, v);
      assert v[0..] == v;
      if k > 0 {
        assert v[..k][0] == v[0] && v[1..] == v[1..k] + v[k..];
        assert forall i :: 0 <= i < k - 1 ==> v[1..k][i] == v[..k][i + 1];
        StarGives(p, v[1..k], v[k..]);
      }
    }
  }

  lemma {:induction false} WildWithoutStar(p: string, v: string)
    requires '*' !in p
    ensures Wild(p, v) <==> p == v
  {
    if p != "" && v != "" {
      assert p[0] in p;
      forall c | c in p[1..] ensures c in p {}
      WildWithoutStar(p[1..], v[1..]);
      assert p == [p[0]] + p[1..] && v == [v[0]] + v[1..];
    } else if p != "" {
      assert p[0] in p;
    }
  }

  /** The regular expression that `globMatch` builds accepts exactly what the wildcard
      relation accepts; the two universal patterns accept everything besides. */
  lemma GlobMatchIsWild(p: string, v: string)
    ensures GlobMatch(p, v) <==> p == "*" || p == "**" || Wild(p, v)
  {
    if p != "*" && p != "**" {
      if '*' !in p {
        WildWithoutStar(p, v);
      } else {
        var body := EscapeAndJoin(Split(p));
        assert RegexSource(p)[1..|RegexSource(p)| - 1] == body;
        EscapedPatternReads(p);
        RunIsWild(p, v);
      }
    }
  }

  /** Accepted: the same text, or by a lone star or two, or as the wildcards stand for it. */
  ghost predicate Accepts(p: string, v: string) {
    p == v || p == "*" || p == "**" || Wild(p, v)
  }

  lemma AcceptsExactly(p: string, v: string)
    ensures GlobMatch(p, v) <==> Accepts(p, v)
  {
    GlobMatchIsWild(p, v);
    WildItself(p);
  }

  lemma {:induction false} WildItself(p: string)
    ensures Wild(p, p)
  {
    if p != "" {
      WildItself(p[1..]);
      if p[0] == '*' {
        assert LineFree(p[..1]);
        assert Wild(p[1..], p[1..]);
      }
    }
  }

  ghost predicate SomeAccepts(patterns: seq<string>, v: string) {
    exists p :: p in patterns && Accepts(p, v)
  }

  lemma AnyMatchExactly(patterns: seq<string>, v: string)
    ensures AnyMatch(patterns, v) <==> SomeAccepts(patterns, v)
  {
    hide GlobMatch, Accepts;
    forall p ensures (GlobMatch(p, v) || p == "*") <==> Accepts(p, v) {
      AcceptsExactly(p, v);
      StarAccepts(v);
    }
    if p :| p in patterns && Accepts(p, v) {
      var i :| 0 <= i < |patterns| && patterns[i] == p;
    }
  }

  lemma StarAccepts(v: string)
    ensures Accepts("*", v)
  {
  }

  // ----- Facts about the wildcard relation -----

  lemma {:induction false} TerminatorsConcat(a: string, b: string)
    ensures Terminators(a + b) == Terminators(a) + Terminators(b)
  {
    if a == "" {
      assert a + b == b;
    } else {
      TerminatorsConcat(a[1..], b);
      assert (a + b)[1..] == a[1..] + b;
    }
  }

  lemma {:induction false} LineFreeCount(v: string)
    ensures LineFree(v) <==> Terminators(v) == 0
  {
    if v != "" {
      LineFreeCount(v[1..]);
      assert v == [v[0]] + v[1..];
    }
  }

  /** Stars never absorb a line terminator, so a match fixes their number. */
  lemma {:induction false} MatchFixesTerminators(p: string, v: string)
    requires Wild(p, v)
    ensures Terminators(v) == Terminators(p)
  {
    if p == "" {
    } else if p[0] == '*' {
      var k :| 0 <= k <= |v| && LineFree(v[..k]) && Wild(p[1..], v[k..]);
      MatchFixesTerminators(p[1..], v[k..]);
      LineFreeCount(v[..k]);
      TerminatorsConcat(v[..k], v[k..]);
      assert v[..k] + v[k..] == v;
    } else {
      MatchFixesTerminators(p[1..], v[1..]);
    }
  }

  /** Splitting the pattern splits the value. */
  lemma {:induction false} WildSplit(p: string, q: string, v: string) returns (a: string, b: string)
    requires Wild(p + q, v)
    ensures v == a + b && Wild(p, a) && Wild(q, b)
  {
    hide Wild;
    if p == "" {
      a, b := "", v;
      assert p + q == q;
      WildEmpty();
    } else {
      assert (p + q)[1..] == p[1..] + q;
      if p[0] == '*' {
        var j := StarTakes(p + q, v);
        a, b := WildSplit(p[1..], q, v[j..]);
        StarGives(p, v[..j], a);
        a := v[..j] + a;
      } else {
        LiteralTakes(p + q, v);
        a, b := WildSplit(p[1..], q, v[1..]);
        LiteralGives(p, a);
        a := [v[0]] + a;
      }
    }
  }

  // The wildcard relation, one sign at a time.

  lemma WildEmpty()
    ensures Wild("", "")
  {
  }

  lemma StarTakes(p: string, v: string) returns (j: nat)
    requires p != "" && p[0] == '*' && Wild(p, v)
    ensures j <= |v| && LineFree(v[..j]) && Wild(p[1..], v[j..])
  {
    j :| 0 <= j <= |v| && LineFree(v[..j]) && Wild(p[1..], v[j..]);
  }

  lemma StarGives(p: string, lead: string, v: string)
    requires p != "" && p[0] == '*' && LineFree(lead) && Wild(p[1..], v)
    ensures Wild(p, lead + v)
  {
    assert (lead + v)[..|lead|] == lead && (lead + v)[|lead|..] == v;
  }

  lemma LiteralTakes(p: string, v: string)
    requires p != "" && p[0] != '*' && Wild(p, v)
    ensures v != "" && v[0] == p[0] && Wild(p[1..], v[1..])
  {
  }

  lemma LiteralGives(p: string, v: string)
    requires p != "" && p[0] != '*' && Wild(p[1..], v)
    ensures Wild(p, [p[0]] + v)
  {
    assert ([p[0]] + v)[1..] == v;
  }

  lemma {:induction false} WildJoin(p: string, q: string, v: string, w: string)
    requires Wild(p, v) && Wild(q, w)
    ensures Wild(p + q, v + w)
  {
    hide Wild;
    if p == "" {
      WildEmptyOnly(v);
      assert p + q == q && v + w == w;
    } else {
      assert (p + q)[1..] == p[1..] + q;
      if p[0] == '*' {
        var j := StarTakes(p, v);
        WildJoin(p[1..], q, v[j..], w);
        StarGives(p + q, v[..j], v[j..] + w);
        assert v + w == v[..j] + (v[j..] + w);
      } else {
        LiteralTakes(p, v);
        WildJoin(p[1..], q, v[1..], w);
        LiteralGives(p + q, v[1..] + w);
        assert v + w == [v[0]] + (v[1..] + w);
      }
    }
  }

  lemma WildEmptyOnly(v: string)
    requires Wild("", v)
    ensures v == ""
  {
  }

  lemma WildStar(x: string)
    requires LineFree(x)
    ensures Wild("*", x)
  {
    assert x[..|x|] == x && x[|x|..] == "";
    assert "*"[1..] == "";
    assert Wild("", x[|x|..]);
  }

  lemma {:induction false} WildLiteral(p: string)
    requires '*' !in p
    ensures Wild(p, p)
  {
    WildWithoutStar(p, p);
  }
}
