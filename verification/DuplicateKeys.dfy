/** The duplicate-key scanner of src/crypto.js: a second pass over a text that JSON.parse has
    accepted, with a cursor, a flag and a depth counter. */
module DuplicateKeys {
  import opened Prelude
  import opened JsonStrings

  const MAX_DEPTH: nat := 100

  /** What a regular expression calls white space; more than JSON does. */
  predicate IsSpace(u: Unit) {
    || 0x09 <= u <= 0x0D || u == 0x20 || u == 0xA0 || u == 0x1680 || 0x2000 <= u <= 0x200A
    || u == 0x2028 || u == 0x2029 || u == 0x202F || u == 0x205F || u == 0x3000 || u == 0xFEFF
  }

  predicate IsJsonSpace(u: Unit) { u == 0x20 || u == 0x0A || u == 0x0D || u == 0x09 }

  /** Where a number or a literal ends. */
  predicate IsStop(u: Unit) { u == COMMA || u == CLOSE_BRACE || u == CLOSE_BRACKET || IsJsonSpace(u) }

  // ----- What the scanner computes, from a place in the text -----

  /** A scan that threw, or the place behind it and whether a key came twice. */
  datatype Scan = Thrown | Past(next: nat, dup: bool)

  datatype Key = Key(text: Text, next: nat)

  function Or(dup: bool, r: Scan): Scan {
    match r case Thrown => Thrown case Past(next, d) => Past(next, dup || d)
  }

  predicate At(s: Text, p: nat, u: Unit) { p < |s| && s[p] == u }

  function AfterSpace(s: Text, p: nat): (q: nat)
    requires p <= |s|
    ensures p <= q <= |s|
    decreases |s| - p
  {
    if p < |s| && IsSpace(s[p]) then AfterSpace(s, p + 1) else p
  }

  function AfterLiteral(s: Text, p: nat): (q: nat)
    requires p <= |s|
    ensures p <= q <= |s|
    decreases |s| - p
  {
    if p < |s| && !IsStop(s[p]) then AfterLiteral(s, p + 1) else p
  }

  /** Behind the closing quote. */
  function AfterQuote(s: Text, p: nat, esc: bool): (q: Option<nat>)
    requires p <= |s|
    ensures q.Some? ==> p < q.value <= |s|
    decreases |s| - p
  {
    if p == |s| then None
    else if esc then AfterQuote(s, p + 1, false)
    else if s[p] == BACKSLASH then AfterQuote(s, p + 1, true)
    else if s[p] == QUOTE then Some(p + 1)
    else if s[p] < 0x20 then None
    else AfterQuote(s, p + 1, false)
  }

  /** The string token whose opening quote is here: its end is found first, and then JSON.parse
      reads it alone. */
  function StringAt(s: Text, p: nat): (k: Option<Key>)
    requires p < |s|
    ensures k.Some? ==> p < k.value.next <= |s|
  {
    var q := AfterQuote(s, p + 1, false);
    if q.None? then None
    else
      var t := ReadBody(s[p + 1..q.value]);
      if t.Some? && t.value.rest == [] then Some(Key(t.value.text, q.value)) else None
  }

  function Val(s: Text, p: nat, depth: nat): (r: Scan)
    requires p <= |s|
    ensures r.Past? ==> p <= r.next <= |s|
    decreases |s| - p, 2
  {
    if depth > MAX_DEPTH then Thrown
    else
      var q := AfterSpace(s, p);
      if At(s, q, OPEN_BRACE) then ObjAt(s, q, depth + 1)
      else if At(s, q, OPEN_BRACKET) then
        var w := AfterSpace(s, q + 1);
        if At(s, w, CLOSE_BRACKET) then Past(w + 1, false) else ItemsAt(s, w, depth + 1)
      else if At(s, q, QUOTE) then
        var k := StringAt(s, q);
        if k.None? then Thrown else Past(k.value.next, false)
      else Past(AfterLiteral(s, q), false)
  }

  function ItemsAt(s: Text, p: nat, depth: nat): (r: Scan)
    requires p <= |s|
    ensures r.Past? ==> p < r.next <= |s|
    decreases |s| - p, 3
  {
    var v := Val(s, p, depth);
    if v.Thrown? then Thrown
    else
      var w := AfterSpace(s, v.next);
      if At(s, w, COMMA) then Or(v.dup, ItemsAt(s, w + 1, depth))
      else if At(s, w, CLOSE_BRACKET) then Past(w + 1, v.dup)
      else Thrown
  }

  function ObjAt(s: Text, p: nat, depth: nat): (r: Scan)
    requires p < |s|
    ensures r.Past? ==> p < r.next <= |s|
    decreases |s| - p, 1
  {
    if depth > MAX_DEPTH then Thrown
    else
      var w := AfterSpace(s, p + 1);
      if At(s, w, CLOSE_BRACE) then Past(w + 1, false) else MembersAt(s, w, depth, {})
  }

  /** A name, a colon and a value. */
  datatype Member = Member(name: Text, next: nat, dup: bool)

  function MemberAt(s: Text, p: nat, depth: nat): (m: Option<Member>)
    requires p <= |s|
    ensures m.Some? ==> p < m.value.next <= |s|
    decreases |s| - p, 3
  {
    var w := AfterSpace(s, p);
    if !At(s, w, QUOTE) then None
    else
      var k := StringAt(s, w);
      if k.None? then None
      else
        var c := AfterSpace(s, k.value.next);
        if !At(s, c, COLON) then None
        else
          var v := Val(s, c + 1, depth + 1);
          if v.Thrown? then None else Some(Member(k.value.text, v.next, v.dup))
  }

  function MembersAt(s: Text, p: nat, depth: nat, keys: set<Text>): (r: Scan)
    requires p <= |s|
    ensures r.Past? ==> p < r.next <= |s|
    decreases |s| - p, 4
  {
    var m := MemberAt(s, p, depth);
    if m.None? then Thrown
    else
      var twice := m.value.dup || m.value.name in keys;
      var e := AfterSpace(s, m.value.next);
      if At(s, e, COMMA) then Or(twice, MembersAt(s, e + 1, depth, keys + {m.value.name}))
      else if At(s, e, CLOSE_BRACE) then Past(e + 1, twice)
      else Thrown
  }

  /** The whole test, on a text that JSON.parse has accepted or not. Whatever is thrown, the
      answer is then no. */
  function Duplicates(s: Text, parsed: bool): bool {
    var p := AfterSpace(s, 0);
    parsed && p < |s| && Val(s, p, 0).Past? && Val(s, p, 0).dup
  }

  // Their definitions, one step at a time.

  lemma ItemsStep(s: Text, p: nat, depth: nat)
    requires p <= |s|
    ensures ItemsAt(s, p, depth)
         == var v := Val(s, p, depth);
            if v.Thrown? then Thrown
            else
              var w := AfterSpace(s, v.next);
              if At(s, w, COMMA) then Or(v.dup, ItemsAt(s, w + 1, depth))
              else if At(s, w, CLOSE_BRACKET) then Past(w + 1, v.dup)
              else Thrown
  {
  }

  lemma MembersStep(s: Text, p: nat, depth: nat, keys: set<Text>)
    requires p <= |s|
    ensures MembersAt(s, p, depth, keys)
         == var m := MemberAt(s, p, depth);
            if m.None? then Thrown
            else
              var twice := m.value.dup || m.value.name in keys;
              var e := AfterSpace(s, m.value.next);
              if At(s, e, COMMA) then Or(twice, MembersAt(s, e + 1, depth, keys + {m.value.name}))
              else if At(s, e, CLOSE_BRACE) then Past(e + 1, twice)
              else Thrown
  {
  }

  // ----- The scanner -----

  class Scanner {
    const s: Text
    var pos: nat
    var dup: bool

    constructor (s: Text)
      ensures this.s == s && pos == 0 && !dup
    {
      this.s := s;
      pos := 0;
      dup := false;
    }

    method SkipWs()
      requires pos <= |s|
      modifies this`pos
      ensures pos == AfterSpace(s, old(pos))
    {
      while pos < |s| && IsSpace(s[pos])
        invariant old(pos) <= pos <= |s| && AfterSpace(s, pos) == AfterSpace(s, old(pos))
      {
        pos := pos + 1;
      }
    }

    method ParseStr() returns (key: Option<Text>)
      requires pos < |s|
      modifies this`pos
      ensures var k := StringAt(s, old(pos));
              if k.None? then key.None? else key == Some(k.value.text) && pos == k.value.next
    {
      var start := pos;
      pos := pos + 1;
      var esc := false;
      while pos < |s|
        invariant start < pos <= |s| && AfterQuote(s, start + 1, false) == AfterQuote(s, pos, esc)
      {
        var ch := s[pos];
        if esc {
          esc := false;
          pos := pos + 1;
        } else if ch == BACKSLASH {
          esc := true;
          pos := pos + 1;
        } else if ch == QUOTE {
          pos := pos + 1;
          var t := ReadBody(s[start + 1..pos]);
          if t.Some? && t.value.rest == [] { return Some(t.value.text); }
          return None;
        } else if ch < 0x20 {
          return None;
        } else {
          pos := pos + 1;
        }
      }
      return None;
    }

    /** What a scanning method leaves behind. */
    ghost predicate Does(r: Scan, threw: bool, before: bool)
      reads this
    {
      if r.Thrown? then threw else !threw && pos == r.next && dup == (before || r.dup)
    }

    method ParseVal(depth: nat) returns (threw: bool)
      requires pos <= |s|
      modifies this
      ensures Does(Val(s, old(pos), depth), threw, old(dup))
      decreases |s| - pos, 2
    {
      hide AfterSpace, StringAt, ItemsAt, ObjAt;
      if depth > MAX_DEPTH { return true; }
      SkipWs();
      if At(s, pos, OPEN_BRACE) {
        threw := ParseObj(depth + 1);
      } else if At(s, pos, OPEN_BRACKET) {
        pos := pos + 1;
        SkipWs();
        if At(s, pos, CLOSE_BRACKET) {
          pos := pos + 1;
          return false;
        }
        threw := ParseItems(depth + 1);
      } else if At(s, pos, QUOTE) {
        var key := ParseStr();
        return key.None?;
      } else {
        while pos < |s| && !IsStop(s[pos])
          invariant AfterSpace(s, old(pos)) <= pos <= |s| && dup == old(dup)
          invariant AfterLiteral(s, pos) == AfterLiteral(s, AfterSpace(s, old(pos)))
        {
          pos := pos + 1;
        }
        return false;
      }
    }

    /** The loop over the items of an array. */
    method ParseItems(depth: nat) returns (threw: bool)
      requires pos <= |s|
      modifies this
      ensures Does(ItemsAt(s, old(pos), depth), threw, old(dup))
      decreases |s| - pos, 3
    {
      hide AfterSpace, Val, ItemsAt;
      ghost var start := pos;
      ghost var found := false;
      while true
        invariant old(pos) <= pos <= |s| && dup == (old(dup) || found)
        invariant ItemsAt(s, start, depth) == Or(found, ItemsAt(s, pos, depth))
        decreases |s| - pos
      {
        ItemsStep(s, pos, depth);
        ghost var v := Val(s, pos, depth);
        threw := ParseVal(depth);
        if threw { return true; }
        found := found || v.dup;
        SkipWs();
        if At(s, pos, COMMA) {
          pos := pos + 1;
        } else if At(s, pos, CLOSE_BRACKET) {
          pos := pos + 1;
          return false;
        } else {
          return true;
        }
      }
    }

    method ParseObj(depth: nat) returns (threw: bool)
      requires pos < |s|
      modifies this
      ensures Does(ObjAt(s, old(pos), depth), threw, old(dup))
      decreases |s| - pos, 1
    {
      hide AfterSpace, MemberAt, MembersAt;
      if depth > MAX_DEPTH { return true; }
      pos := pos + 1;
      SkipWs();
      if At(s, pos, CLOSE_BRACE) {
        pos := pos + 1;
        return false;
      }
      ghost var start := pos;
      ghost var found := false;
      var keys: set<Text> := {};
      while true
        invariant old(pos) < pos <= |s| && dup == (old(dup) || found)
        invariant MembersAt(s, start, depth, {}) == Or(found, MembersAt(s, pos, depth, keys))
        decreases |s| - pos
      {
        MembersStep(s, pos, depth, keys);
        ghost var m := MemberAt(s, pos, depth);
        ghost var before := keys;
        threw, keys := ParseMember(depth, keys);
        if threw { return true; }
        found := found || m.value.dup || m.value.name in before;
        SkipWs();
        if At(s, pos, COMMA) {
          pos := pos + 1;
        } else if At(s, pos, CLOSE_BRACE) {
          pos := pos + 1;
          return false;
        } else {
          return true;
        }
      }
    }

    /** The part of the loop that reads one member. */
    method ParseMember(depth: nat, keys: set<Text>) returns (threw: bool, keys': set<Text>)
      requires pos <= |s|
      modifies this
      ensures threw <==> MemberAt(s, old(pos), depth).None?
      ensures !threw ==>
                var m := MemberAt(s, old(pos), depth).value;
                pos == m.next && keys' == keys + {m.name} && dup == (old(dup) || m.dup || m.name in keys)
      decreases |s| - pos, 3
    {
      hide AfterSpace, StringAt, Val;
      threw, keys' := true, keys;
      SkipWs();
      if !At(s, pos, QUOTE) { return; }
      var k := ParseStr();
      if k.None? { return; }
      if k.value in keys { dup := true; }
      keys' := keys + {k.value};
      SkipWs();
      if !At(s, pos, COLON) { return; }
      pos := pos + 1;
      threw := ParseVal(depth + 1);
    }
  }

  method HasDuplicateKeys(raw: Text, parsed: bool) returns (answer: bool)
    ensures answer == Duplicates(raw, parsed)
  {
    if !parsed { return false; }
    var scanner := new Scanner(raw);
    scanner.SkipWs();
    if scanner.pos == |raw| { return false; }
    var threw := scanner.ParseVal(0);
    if threw { return false; }
    return scanner.dup;
  }

  // ----- JSON texts (RFC 8259) -----

  /** A value as it is written: strings and names by their insides, white space included. The
      `lead` is the space inside empty brackets. */
  datatype Value =
    | Literal(text: Text)
    | String(body: Text)
    | Array(lead: Text, items: seq<Item>)
    | Object(lead: Text, members: seq<Pair>)

  datatype Item = Item(before: Text, value: Value, after: Text)

  datatype Pair = Pair(before: Text, name: Text, afterName: Text, beforeValue: Text, value: Value, after: Text)

  function Render(v: Value): Text
    decreases v
  {
    match v
    case Literal(text) => text
    case String(body) => [QUOTE] + (body + [QUOTE])
    case Array(lead, items) =>
      [OPEN_BRACKET] + if items == [] then lead + [CLOSE_BRACKET]
                       else JoinFrom(ItemTexts(v), 0) + [CLOSE_BRACKET]
    case Object(lead, members) =>
      [OPEN_BRACE] + if members == [] then lead + [CLOSE_BRACE]
                     else JoinFrom(PairTexts(v), 0) + [CLOSE_BRACE]
  }

  function ItemTexts(v: Value): seq<Text>
    requires v.Array?
    decreases v, 0
  {
    seq(|v.items|, i requires 0 <= i < |v.items| =>
      v.items[i].before + (Render(v.items[i].value) + v.items[i].after))
  }

  function PairTexts(v: Value): seq<Text>
    requires v.Object?
    decreases v, 0
  {
    seq(|v.members|, i requires 0 <= i < |v.members| =>
      var m := v.members[i];
      m.before + ([QUOTE] + ((m.name + [QUOTE]) +
        (m.afterName + ([COLON] + (m.beforeValue + (Render(m.value) + m.after)))))))
  }

  predicate Blank(t: Text) {
    forall i :: 0 <= i < |t| ==> IsJsonSpace(t[i])
  }

  const TRUE: Text := [0x74, 0x72, 0x75, 0x65]
  const FALSE: Text := [0x66, 0x61, 0x6C, 0x73, 0x65]
  const NULL: Text := [0x6E, 0x75, 0x6C, 0x6C]

  ghost predicate IsLiteral(t: Text) {
    || t == TRUE || t == FALSE || t == NULL
    || exists sign, whole, fraction, exponent ::
         IsNumber(sign, whole, fraction, exponent) && t == sign + whole + fraction + exponent
  }

  /** The inside of a string token: escapes as section 7 has them, and no bare quote. */
  predicate IsBody(body: Text) {
    ReadBody(body + [QUOTE]).Some? && ReadBody(body + [QUOTE]).value.rest == []
  }

  function Decoded(body: Text): Text
    requires IsBody(body)
  {
    ReadBody(body + [QUOTE]).value.text
  }

  ghost predicate Valid(v: Value) {
    match v
    case Literal(text) => IsLiteral(text)
    case String(body) => IsBody(body)
    case Array(lead, items) =>
      Blank(lead) && forall i :: 0 <= i < |items| ==>
        Blank(items[i].before) && Valid(items[i].value) && Blank(items[i].after)
    case Object(lead, members) =>
      Blank(lead) && forall i :: 0 <= i < |members| ==>
        && Blank(members[i].before) && IsBody(members[i].name) && Blank(members[i].afterName)
        && Blank(members[i].beforeValue) && Valid(members[i].value) && Blank(members[i].after)
  }

  /** Some object in the value has two members whose names decode alike. */
  ghost predicate HasDup(v: Value)
    requires Valid(v)
  {
    match v
    case Literal(_) => false
    case String(_) => false
    case Array(_, items) => exists i :: 0 <= i < |items| && HasDup(items[i].value)
    case Object(_, members) =>
      || (exists i, j :: 0 <= i < j < |members| && Decoded(members[i].name) == Decoded(members[j].name))
      || (exists i :: 0 <= i < |members| && HasDup(members[i].value))
  }

  /** The depth counter stays within its limit; an object counts twice. */
  ghost predicate Fits(v: Value, depth: nat) {
    depth <= MAX_DEPTH &&
    match v
    case Literal(_) => true
    case String(_) => true
    case Array(_, items) => forall i :: 0 <= i < |items| ==> Fits(items[i].value, depth + 1)
    case Object(_, members) =>
      depth + 1 <= MAX_DEPTH && forall i :: 0 <= i < |members| ==> Fits(members[i].value, depth + 2)
  }

  // ----- Places in a text -----

  ghost predicate Lies(s: Text, p: nat, a: Text) {
    p + |a| <= |s| && s[p..p + |a|] == a
  }

  ghost predicate Ends(s: Text, p: nat) {
    p == |s| || (p < |s| && IsStop(s[p]))
  }

  lemma LiesSplit(s: Text, p: nat, a: Text, b: Text)
    requires Lies(s, p, a + b)
    ensures Lies(s, p, a) && Lies(s, p + |a|, b)
    ensures a != [] ==> s[p] == a[0]
    ensures b != [] ==> s[p + |a|] == b[0]
  {
    var t := s[p..p + |a + b|];
    forall i | 0 <= i < |a| ensures s[p + i] == a[i] { assert t[i] == (a + b)[i]; }
    forall i | 0 <= i < |b| ensures s[p + |a| + i] == b[i] { assert t[|a| + i] == (a + b)[|a| + i]; }
    assert s[p..p + |a|] == a;
    assert s[p + |a|..p + |a| + |b|] == b;
  }

  lemma {:induction false} BlankSkips(s: Text, p: nat, b: Text)
    requires Lies(s, p, b) && Blank(b)
    ensures AfterSpace(s, p) == AfterSpace(s, p + |b|)
    decreases |b|
  {
    if b != [] {
      assert b == [b[0]] + b[1..];
      LiesSplit(s, p, [b[0]], b[1..]);
      BlankSkips(s, p + 1, b[1..]);
    }
  }

  lemma {:induction false} SpaceTwice(s: Text, p: nat)
    requires p <= |s|
    ensures AfterSpace(s, AfterSpace(s, p)) == AfterSpace(s, p)
    decreases |s| - p
  {
    if p < |s| && IsSpace(s[p]) { SpaceTwice(s, p + 1); }
  }

  // White space in front of a value, an item or a member makes no difference.

  lemma ValSpace(s: Text, p: nat, q: nat, depth: nat)
    requires p <= |s| && q <= |s| && AfterSpace(s, p) == AfterSpace(s, q)
    ensures Val(s, p, depth) == Val(s, q, depth)
  {
    hide AfterSpace, ItemsAt, ObjAt;
  }

  lemma ItemsSpace(s: Text, p: nat, q: nat, depth: nat)
    requires p <= |s| && q <= |s| && AfterSpace(s, p) == AfterSpace(s, q)
    ensures ItemsAt(s, p, depth) == ItemsAt(s, q, depth)
  {
    ValSpace(s, p, q, depth);
    ItemsStep(s, p, depth);
    ItemsStep(s, q, depth);
    hide AfterSpace, ItemsAt, Val;
  }

  lemma MembersSpace(s: Text, p: nat, q: nat, depth: nat, keys: set<Text>)
    requires p <= |s| && q <= |s| && AfterSpace(s, p) == AfterSpace(s, q)
    ensures MembersAt(s, p, depth, keys) == MembersAt(s, q, depth, keys)
  {
    hide AfterSpace, MembersAt, MemberAt, At;
    MemberSpace(s, p, q, depth);
    MembersStep(s, p, depth, keys);
    MembersStep(s, q, depth, keys);
  }

  lemma MemberSpace(s: Text, p: nat, q: nat, depth: nat)
    requires p <= |s| && q <= |s| && AfterSpace(s, p) == AfterSpace(s, q)
    ensures MemberAt(s, p, depth) == MemberAt(s, q, depth)
  {
    hide AfterSpace, Val, StringAt;
  }

  lemma LiesFirst(s: Text, p: nat, t: Text)
    requires Lies(s, p, t) && t != []
    ensures p < |s| && s[p] == t[0]
  {
    assert s[p..p + |t|][0] == t[0];
  }

  lemma {:induction false} LiteralSkips(s: Text, p: nat, t: Text)
    requires Lies(s, p, t) && Ends(s, p + |t|) && forall i :: 0 <= i < |t| ==> !IsStop(t[i])
    ensures AfterLiteral(s, p) == p + |t|
    decreases |t|
  {
    if t != [] {
      assert t == [t[0]] + t[1..];
      LiesSplit(s, p, [t[0]], t[1..]);
      LiteralSkips(s, p + 1, t[1..]);
    }
  }

  predicate IsPlain(u: Unit) { u != QUOTE && u != BACKSLASH && u >= 0x20 }

  lemma LiesAt(s: Text, p: nat, t: Text)
    requires Lies(s, p, t)
    ensures forall i :: 0 <= i < |t| ==> s[p + i] == t[i]
  {
    forall i | 0 <= i < |t| ensures s[p + i] == t[i] { assert s[p..p + |t|][i] == t[i]; }
  }

  /** The end that is searched for is the end of the token. */
  lemma {:induction false} QuoteFound(s: Text, p: nat, t: Text)
    requires Lies(s, p, t) && ReadBody(t).Some? && ReadBody(t).value.rest == []
    ensures AfterQuote(s, p, false) == Some(p + |t|)
    decreases |t|
  {
    hide AfterQuote, ReadBody;
    BodyShape(t);
    if t[0] == QUOTE {
      EndFound(s, p, t);
    } else {
      var n := ReadPiece(t).value.size;
      assert t == t[..n] + t[n..];
      LiesSplit(s, p, t[..n], t[n..]);
      QuoteFound(s, p + n, t[n..]);
      PieceSkips(s, p, t);
    }
  }

  lemma BodyShape(t: Text)
    requires ReadBody(t).Some? && ReadBody(t).value.rest == []
    ensures t != []
    ensures t[0] == QUOTE ==> |t| == 1
    ensures t[0] != QUOTE ==>
              && ReadPiece(t).Some? && ReadBody(t[ReadPiece(t).value.size..]).Some?
              && ReadBody(t[ReadPiece(t).value.size..]).value.rest == []
  {
    hide ReadPiece;
    if t[0] == QUOTE { assert |t[1..]| == 0; }
  }

  lemma EndFound(s: Text, p: nat, t: Text)
    requires |t| == 1 && t[0] == QUOTE && Lies(s, p, t)
    ensures AfterQuote(s, p, false) == Some(p + 1)
  {
    LiesAt(s, p, t);
    assert s[p + 0] == QUOTE;
  }

  lemma PieceSkips(s: Text, p: nat, t: Text)
    requires t != [] && Lies(s, p, t) && ReadPiece(t).Some?
    ensures AfterQuote(s, p, false) == AfterQuote(s, p + ReadPiece(t).value.size, false)
  {
    PieceShape(t);
    LiesAt(s, p, t);
    hide ReadPiece, Lies;
    var n := ReadPiece(t).value.size;
    assert s[p + 0] == t[0];
    if t[0] == BACKSLASH {
      assert s[p + 1] == t[1];
      assert AfterQuote(s, p, false) == AfterQuote(s, p + 2, false);
      if n == 6 {
        assert IsPlain(s[p + 2]) && IsPlain(s[p + 3]) && IsPlain(s[p + 4]) && IsPlain(s[p + 5]);
        PlainSkips(s, p + 2, 4);
      }
    }
  }

  lemma {:induction false} PlainSkips(s: Text, p: nat, n: nat)
    requires p + n <= |s| && forall i :: p <= i < p + n ==> IsPlain(s[i])
    ensures AfterQuote(s, p, false) == AfterQuote(s, p + n, false)
    decreases n
  {
    if n > 0 { PlainSkips(s, p + 1, n - 1); }
  }

  lemma PieceShape(t: Text)
    requires t != [] && ReadPiece(t).Some?
    ensures var n := ReadPiece(t).value.size;
      if t[0] != BACKSLASH then IsPlain(t[0]) && n == 1
      else n == 2 || (n == 6 && IsPlain(t[2]) && IsPlain(t[3]) && IsPlain(t[4]) && IsPlain(t[5]))
  {
  }

  /** The scanner reads a string token just as JSON.parse does. */
  lemma StringReads(s: Text, p: nat, body: Text)
    requires Lies(s, p, [QUOTE] + (body + [QUOTE])) && IsBody(body)
    ensures StringAt(s, p) == Some(Key(Decoded(body), p + |body| + 2))
  {
    hide ReadBody;
    LiesSplit(s, p, [QUOTE], body + [QUOTE]);
    QuoteFound(s, p + 1, body + [QUOTE]);
  }

  // ----- The scanner on a JSON text -----

  lemma LiteralShape(t: Text)
    requires IsLiteral(t)
    ensures t != [] && forall i :: 0 <= i < |t| ==> !IsStop(t[i])
    ensures !IsSpace(t[0]) && t[0] != QUOTE && t[0] != OPEN_BRACE && t[0] != OPEN_BRACKET
  {
    if t != TRUE && t != FALSE && t != NULL {
      var sign, whole, fraction, exponent :|
        IsNumber(sign, whole, fraction, exponent) && t == sign + whole + fraction + exponent;
      NumberShape(sign, whole, fraction, exponent);
    }
  }

  lemma NumberShape(sign: Text, whole: Text, fraction: Text, exponent: Text)
    requires IsNumber(sign, whole, fraction, exponent)
    ensures var t := sign + whole + fraction + exponent;
            t != [] && (IsDigit(t[0]) || t[0] == 0x2D) && forall i :: 0 <= i < |t| ==> !IsStop(t[i])
  {
    assert forall i :: 0 < i < |fraction| ==> fraction[i] == fraction[1..][i - 1];
    ExponentShape(exponent);
  }

  lemma ExponentShape(t: Text)
    ensures IsExponent(t) ==> forall i :: 0 <= i < |t| ==> !IsStop(t[i])
  {
    if IsExponent(t) {
      if t[1] == 0x2B || t[1] == 0x2D {
        assert forall i :: 2 <= i < |t| ==> t[i] == t[2..][i - 2];
      } else {
        assert forall i :: 1 <= i < |t| ==> t[i] == t[1..][i - 1];
      }
    }
  }

  /** A value starts with none of the signs that end something. */
  lemma RenderHead(v: Value)
    requires Valid(v)
    ensures Render(v) != [] && !IsSpace(Render(v)[0]) && !IsStop(Render(v)[0])
    ensures !v.Literal? ==> Render(v)[0] == (if v.String? then QUOTE else if v.Array? then OPEN_BRACKET else OPEN_BRACE)
  {
    if v.Literal? { LiteralShape(v.text); }
  }

  ghost predicate ItemsFit(v: Value, i: nat, depth: nat)
    requires v.Array?
  {
    forall j :: i <= j < |v.items| ==> Fits(v.items[j].value, depth)
  }

  ghost predicate ItemsDup(v: Value, i: nat)
    requires v.Array? && Valid(v)
  {
    exists j :: i <= j < |v.items| && HasDup(v.items[j].value)
  }

  ghost predicate PairsFit(v: Value, i: nat, depth: nat)
    requires v.Object?
  {
    forall j :: i <= j < |v.members| ==> Fits(v.members[j].value, depth)
  }

  /** A duplicate from the `i`-th member on, when these names came before. */
  ghost predicate PairsDup(v: Value, i: nat, names: set<Text>)
    requires v.Object? && Valid(v)
  {
    || (exists j :: i <= j < |v.members| && Decoded(v.members[j].name) in names)
    || (exists j, k :: i <= j < k < |v.members| && Decoded(v.members[j].name) == Decoded(v.members[k].name))
    || (exists j :: i <= j < |v.members| && HasDup(v.members[j].value))
  }

  lemma PairsDupStep(v: Value, i: nat, names: set<Text>)
    requires v.Object? && Valid(v) && i < |v.members|
    ensures var k := Decoded(v.members[i].name);
            PairsDup(v, i, names) <==> HasDup(v.members[i].value) || k in names || PairsDup(v, i + 1, names + {k})
  {
    hide Valid, HasDup, IsBody, ReadBody;
  }

  ghost function Expected(fits: bool, next: nat, dup: bool): Scan {
    if fits then Past(next, dup) else Thrown
  }

  /** On a value of the grammar the scanner stops at its end with the right answer, or throws
      because the value is nested too deeply. */
  lemma {:induction false} ValueScans(s: Text, p: nat, v: Value, depth: nat)
    requires Valid(v) && Lies(s, p, Render(v)) && Ends(s, p + |Render(v)|)
    ensures Val(s, p, depth) == Expected(Fits(v, depth), p + |Render(v)|, HasDup(v))
    decreases v, 3, 0
  {
    RenderHead(v);
    LiesAt(s, p, Render(v));
    assert s[p + 0] == Render(v)[0];
    match v
    case Literal(text) =>
      LiteralShape(text);
      LiteralSkips(s, p, text);
    case String(body) => StringReads(s, p, body);
    case Array(_, _) => ArrayScans(s, p, v, depth);
    case Object(_, _) => ObjectScans(s, p, v, depth);
  }

  lemma {:induction false} ArrayScans(s: Text, p: nat, v: Value, depth: nat)
    requires v.Array? && Valid(v) && Lies(s, p, Render(v))
    ensures Val(s, p, depth) == Expected(Fits(v, depth), p + |Render(v)|, HasDup(v))
    decreases v, 2, 0
  {
    if v.items == [] { EmptyArrayScans(s, p, v, depth); } else { FullArrayScans(s, p, v, depth); }
  }

  lemma EmptyArrayScans(s: Text, p: nat, v: Value, depth: nat)
    requires v.Array? && v.items == [] && Valid(v) && Lies(s, p, Render(v))
    ensures Val(s, p, depth) == Expected(Fits(v, depth), p + |Render(v)|, HasDup(v))
  {
    hide ItemsAt, ObjAt;
    LiesSplit(s, p, [OPEN_BRACKET], v.lead + [CLOSE_BRACKET]);
    LiesSplit(s, p + 1, v.lead, [CLOSE_BRACKET]);
    BlankSkips(s, p + 1, v.lead);
  }

  lemma {:induction false} FullArrayScans(s: Text, p: nat, v: Value, depth: nat)
    requires v.Array? && v.items != [] && Valid(v) && Lies(s, p, Render(v))
    ensures Val(s, p, depth) == Expected(Fits(v, depth), p + |Render(v)|, HasDup(v))
    decreases v, 1, |v.items| + 1
  {
    hide Val, ItemsAt, Lies, JoinFrom, ItemTexts, Render, Valid, AfterSpace, Fits, HasDup, ItemsFit, ItemsDup;
    var inside := JoinFrom(ItemTexts(v), 0) + [CLOSE_BRACKET];
    RenderArray(v);
    LiesSplit(s, p, [OPEN_BRACKET], inside);
    FirstItem(s, p + 1, v);
    SpaceTwice(s, p + 1);
    ItemsSpace(s, p + 1, AfterSpace(s, p + 1), depth + 1);
    ItemsScan(s, p + 1, v, 0, depth + 1);
    ArrayWhole(v, depth);
    ValOfArray(s, p, depth);
  }

  lemma RenderArray(v: Value)
    requires v.Array? && v.items != []
    ensures Render(v) == [OPEN_BRACKET] + (JoinFrom(ItemTexts(v), 0) + [CLOSE_BRACKET])
  {
  }

  lemma ArrayWhole(v: Value, depth: nat)
    requires v.Array? && Valid(v)
    ensures Fits(v, depth) <==> depth <= MAX_DEPTH && ItemsFit(v, 0, depth + 1)
    ensures HasDup(v) <==> ItemsDup(v, 0)
  {
  }

  lemma ValOfArray(s: Text, p: nat, depth: nat)
    requires p < |s| && s[p] == OPEN_BRACKET && !At(s, AfterSpace(s, p + 1), CLOSE_BRACKET)
    ensures Val(s, p, depth) == if depth > MAX_DEPTH then Thrown else ItemsAt(s, AfterSpace(s, p + 1), depth + 1)
  {
    hide ItemsAt, ObjAt;
  }

  lemma ValueEnds(s: Text, p: nat, after: Text, behind: Text)
    requires Blank(after) && behind != [] && IsStop(behind[0])
    requires Lies(s, p, after + behind)
    ensures Ends(s, p)
  {
    LiesSplit(s, p, after, behind);
    if after != [] { assert IsJsonSpace(after[0]); }
  }

  lemma ItemValid(v: Value, i: nat)
    requires v.Array? && Valid(v) && i < |v.items|
    ensures Blank(v.items[i].before) && Valid(v.items[i].value) && Blank(v.items[i].after)
  {
  }

  lemma JoinIsBehind(ts: seq<Text>, i: nat, close: Unit)
    requires i < |ts|
    ensures JoinFrom(ts, i) + [close] == ts[i] + Behind(ts, i, close, [])
    ensures Behind(ts, i, close, []) == if i + 1 < |ts| then [COMMA] + (JoinFrom(ts, i + 1) + [close]) else [close]
    ensures |JoinFrom(ts, i)| == |ts[i]| + if i + 1 < |ts| then 1 + |JoinFrom(ts, i + 1)| else 0
  {
    JoinSplits(ts, i, close, []);
    assert [close] + [] == [close];
  }

  /** The parts of the `i`-th item, and what stands behind it. */
  lemma ItemParts(s: Text, p: nat, v: Value, i: nat)
    requires v.Array? && Valid(v) && i < |v.items| && Lies(s, p, JoinFrom(ItemTexts(v), i) + [CLOSE_BRACKET])
    ensures var m := v.items[i];
            var a := p + |m.before|;
            var b := a + |Render(m.value)|;
            var c := b + |m.after|;
            && Lies(s, p, m.before) && Lies(s, a, Render(m.value)) && Lies(s, b, m.after) && Ends(s, b)
            && c == p + |ItemTexts(v)[i]| && Lies(s, c, Behind(ItemTexts(v), i, CLOSE_BRACKET, []))
  {
    hide JoinFrom, Behind, Render, Valid, Lies;
    var ts, m := ItemTexts(v), v.items[i];
    var behind := Behind(ts, i, CLOSE_BRACKET, []);
    JoinIsBehind(ts, i, CLOSE_BRACKET);
    ItemValid(v, i);
    assert ts[i] == m.before + (Render(m.value) + m.after);
    LiesThree(s, p, m.before, Render(m.value), m.after, behind);
    assert behind[0] == COMMA || behind[0] == CLOSE_BRACKET;
    ValueEnds(s, p + |m.before| + |Render(m.value)|, m.after, behind);
  }

  lemma Reassociate(a: Text, b: Text, c: Text, d: Text)
    ensures a + (b + c) + d == a + (b + (c + d))
  {
  }

  lemma LiesThree(s: Text, p: nat, a: Text, b: Text, c: Text, d: Text)
    requires Lies(s, p, a + (b + c) + d)
    ensures Lies(s, p, a) && Lies(s, p + |a|, b) && Lies(s, p + |a| + |b|, c) && Lies(s, p + |a| + |b| + |c|, d)
    ensures Lies(s, p + |a| + |b|, c + d)
  {
    hide Lies;
    Reassociate(a, b, c, d);
    LiesSplit(s, p, a, b + (c + d));
    LiesSplit(s, p + |a|, b, c + d);
    LiesSplit(s, p + |a| + |b|, c, d);
  }

  /** White space and then the first sign of a value. */
  lemma ValueAfterSpace(s: Text, p: nat, before: Text, v: Value)
    requires Blank(before) && Valid(v) && Lies(s, p, before) && Lies(s, p + |before|, Render(v))
    ensures AfterSpace(s, p) == AfterSpace(s, p + |before|) == p + |before| && p + |before| < |s|
    ensures !IsStop(s[p + |before|])
  {
    BlankSkips(s, p, before);
    RenderHead(v);
    LiesAt(s, p + |before|, Render(v));
    assert s[p + |before| + 0] == Render(v)[0];
  }

  lemma FirstItem(s: Text, p: nat, v: Value)
    requires v.Array? && Valid(v) && v.items != [] && Lies(s, p, JoinFrom(ItemTexts(v), 0) + [CLOSE_BRACKET])
    ensures p <= |s| && !At(s, AfterSpace(s, p), CLOSE_BRACKET)
  {
    ItemParts(s, p, v, 0);
    ItemValid(v, 0);
    ValueAfterSpace(s, p, v.items[0].before, v.items[0].value);
  }

  /** White space and then what stands behind an item or a member. */
  lemma BehindAfterSpace(s: Text, p: nat, after: Text, ts: seq<Text>, i: nat, close: Unit)
    requires Blank(after) && i < |ts| && (close == CLOSE_BRACKET || close == CLOSE_BRACE)
    requires Lies(s, p, after) && Lies(s, p + |after|, Behind(ts, i, close, []))
    ensures AfterSpace(s, p) == p + |after| && p + |after| < |s|
    ensures if i + 1 < |ts| then s[p + |after|] == COMMA && Lies(s, p + |after| + 1, JoinFrom(ts, i + 1) + [close])
            else s[p + |after|] == close
  {
    hide JoinFrom, Behind;
    var behind := Behind(ts, i, close, []);
    JoinIsBehind(ts, i, close);
    BlankSkips(s, p, after);
    LiesFirst(s, p + |after|, behind);
    if i + 1 < |ts| { LiesSplit(s, p + |after|, [COMMA], JoinFrom(ts, i + 1) + [close]); }
  }

  /** One item, from its white space to the end of its value. */
  lemma {:induction false} ItemScans(s: Text, p: nat, v: Value, i: nat, depth: nat)
    requires v.Array? && Valid(v) && i < |v.items| && Lies(s, p, JoinFrom(ItemTexts(v), i) + [CLOSE_BRACKET])
    ensures Valid(v.items[i].value) && p <= |s|
    ensures var m := v.items[i];
            Val(s, p, depth) == Expected(Fits(m.value, depth), p + |m.before| + |Render(m.value)|, HasDup(m.value))
    decreases v, 0, 1
  {
    hide Val, AfterSpace, Render, Valid, HasDup, Fits, ItemTexts;
    var m := v.items[i];
    ItemParts(s, p, v, i);
    ItemValid(v, i);
    ValueAfterSpace(s, p, m.before, m.value);
    ValSpace(s, p, p + |m.before|, depth);
    ValueScans(s, p + |m.before|, m.value, depth);
  }

  lemma ItemBehind(s: Text, p: nat, v: Value, i: nat)
    requires v.Array? && Valid(v) && i < |v.items| && Lies(s, p, JoinFrom(ItemTexts(v), i) + [CLOSE_BRACKET])
    ensures var m := v.items[i];
            var c := p + |ItemTexts(v)[i]|;
            && |ItemTexts(v)| == |v.items|
            && c < |s| && p + |m.before| + |Render(m.value)| <= |s| &&
               AfterSpace(s, p + |m.before| + |Render(m.value)|) == c
            && if i + 1 < |v.items|
               then s[c] == COMMA && Lies(s, c + 1, JoinFrom(ItemTexts(v), i + 1) + [CLOSE_BRACKET])
               else s[c] == CLOSE_BRACKET
  {
    hide AfterSpace, Render, Valid, JoinFrom, Behind;
    var m := v.items[i];
    ItemParts(s, p, v, i);
    ItemValid(v, i);
    BehindAfterSpace(s, p + |m.before| + |Render(m.value)|, m.after, ItemTexts(v), i, CLOSE_BRACKET);
  }

  lemma {:induction false} ItemsScan(s: Text, p: nat, v: Value, i: nat, depth: nat)
    requires v.Array? && Valid(v) && i < |v.items| && Lies(s, p, JoinFrom(ItemTexts(v), i) + [CLOSE_BRACKET])
    ensures ItemsAt(s, p, depth) == Expected(ItemsFit(v, i, depth), p + |JoinFrom(ItemTexts(v), i)| + 1, ItemsDup(v, i))
    decreases v, 1, |v.items| - i
  {
    hide ItemsAt, Val, AfterSpace, Lies, Render, Valid, JoinFrom, Behind, ItemsFit, ItemsDup, Fits, HasDup, ItemTexts;
    var ts := ItemTexts(v);
    ItemScans(s, p, v, i, depth);
    ItemBehind(s, p, v, i);
    ItemsStep(s, p, depth);
    JoinIsBehind(ts, i, CLOSE_BRACKET);
    ItemsFrom(v, i, depth);
    if i + 1 < |v.items| { ItemsScan(s, p + |ts[i]| + 1, v, i + 1, depth); }
  }

  lemma ItemsFrom(v: Value, i: nat, depth: nat)
    requires v.Array? && Valid(v) && i < |v.items|
    ensures Valid(v.items[i].value)
    ensures ItemsFit(v, i, depth) <==>
            Fits(v.items[i].value, depth) && (i + 1 < |v.items| ==> ItemsFit(v, i + 1, depth))
    ensures ItemsDup(v, i) <==> HasDup(v.items[i].value) || (i + 1 < |v.items| && ItemsDup(v, i + 1))
  {
    ItemValid(v, i);
    hide Valid, Fits, HasDup;
  }

  // ----- Objects -----

  lemma PairValid(v: Value, i: nat)
    requires v.Object? && Valid(v) && i < |v.members|
    ensures var m := v.members[i];
            && Blank(m.before) && IsBody(m.name) && Blank(m.afterName)
            && Blank(m.beforeValue) && Valid(m.value) && Blank(m.after)
  {
  }

  // Where the parts of a member are that starts at `p`.

  ghost function NameAt(m: Pair, p: nat): nat { p + |m.before| }

  ghost function ColonAt(m: Pair, p: nat): nat { NameAt(m, p) + |m.name| + 2 + |m.afterName| }

  ghost function ValueAt(m: Pair, p: nat): nat { ColonAt(m, p) + 1 + |m.beforeValue| }

  lemma PairParts(s: Text, p: nat, v: Value, i: nat)
    requires v.Object? && Valid(v) && i < |v.members| && Lies(s, p, JoinFrom(PairTexts(v), i) + [CLOSE_BRACE])
    ensures var m := v.members[i];
            var e := ValueAt(m, p) + |Render(m.value)|;
            && Lies(s, p, m.before) && Lies(s, NameAt(m, p), [QUOTE] + (m.name + [QUOTE]))
            && Lies(s, NameAt(m, p) + |m.name| + 2, m.afterName) && Lies(s, ColonAt(m, p), [COLON])
            && Lies(s, ColonAt(m, p) + 1, m.beforeValue) && Lies(s, ValueAt(m, p), Render(m.value))
            && Lies(s, e, m.after) && Ends(s, e) && e + |m.after| == p + |PairTexts(v)[i]|
            && Lies(s, e + |m.after|, Behind(PairTexts(v), i, CLOSE_BRACE, []))
  {
    hide JoinFrom, Behind, Render, Valid, Lies, PairTexts, Blank, Ends, IsBody;
    var ts, m := PairTexts(v), v.members[i];
    PairText(v, i);
    JoinIsBehind(ts, i, CLOSE_BRACE);
    PairValid(v, i);
    BehindStops(ts, i, CLOSE_BRACE);
    TextParts(s, p, m, Render(m.value), Behind(ts, i, CLOSE_BRACE, []));
  }

  lemma BehindStops(ts: seq<Text>, i: nat, close: Unit)
    requires close == CLOSE_BRACE || close == CLOSE_BRACKET
    ensures Behind(ts, i, close, []) != [] && IsStop(Behind(ts, i, close, [])[0])
  {
    hide JoinFrom;
  }

  /** The parts of a member whose value is written as `r`. */
  lemma TextParts(s: Text, p: nat, m: Pair, r: Text, behind: Text)
    requires Blank(m.after) && behind != [] && IsStop(behind[0])
    requires var value := m.beforeValue + (r + m.after) + behind;
             Lies(s, p, m.before + (([QUOTE] + (m.name + [QUOTE])) + m.afterName) + ([COLON] + value))
    ensures var e := ValueAt(m, p) + |r|;
            && Lies(s, p, m.before) && Lies(s, NameAt(m, p), [QUOTE] + (m.name + [QUOTE]))
            && Lies(s, NameAt(m, p) + |m.name| + 2, m.afterName) && Lies(s, ColonAt(m, p), [COLON])
            && Lies(s, ColonAt(m, p) + 1, m.beforeValue) && Lies(s, ValueAt(m, p), r)
            && Lies(s, e, m.after) && Ends(s, e) && Lies(s, e + |m.after|, behind)
  {
    hide Lies, Blank, Ends;
    var value := m.beforeValue + (r + m.after) + behind;
    LiesThree(s, p, m.before, [QUOTE] + (m.name + [QUOTE]), m.afterName, [COLON] + value);
    LiesSplit(s, ColonAt(m, p), [COLON], value);
    LiesThree(s, ColonAt(m, p) + 1, m.beforeValue, r, m.after, behind);
    ValueEnds(s, ValueAt(m, p) + |r|, m.after, behind);
  }

  /** A member's text and what is behind it, with the brackets set anew. */
  lemma PairText(v: Value, i: nat)
    requires v.Object? && i < |v.members|
    ensures var m, ts := v.members[i], PairTexts(v);
            |ts| == |v.members| &&
            |ts[i]| == |m.before| + |m.name| + 2 + |m.afterName| + 1 + |m.beforeValue| + |Render(m.value)| + |m.after|
    ensures var m, ts := v.members[i], PairTexts(v);
            var behind := Behind(ts, i, CLOSE_BRACE, []);
            var value := m.beforeValue + (Render(m.value) + m.after) + behind;
            ts[i] + behind == m.before + (([QUOTE] + (m.name + [QUOTE])) + m.afterName) + ([COLON] + value)
  {
    var m, ts := v.members[i], PairTexts(v);
    var behind := Behind(ts, i, CLOSE_BRACE, []);
    var value := m.beforeValue + (Render(m.value) + m.after);
    assert ts[i] == m.before + ([QUOTE] + ((m.name + [QUOTE]) + (m.afterName + ([COLON] + value))));
    hide Behind, Render, PairTexts;
    Rebracket(m.before, [QUOTE], m.name + [QUOTE], m.afterName, [COLON], value, behind);
  }

  lemma Rebracket(a: Text, b: Text, c: Text, d: Text, e: Text, f: Text, g: Text)
    ensures a + (b + (c + (d + (e + f)))) + g == a + ((b + c) + d) + (e + (f + g))
  {
  }

  lemma NameAfterSpace(s: Text, p: nat, m: Pair)
    requires Blank(m.before) && Lies(s, p, m.before) && Lies(s, NameAt(m, p), [QUOTE] + (m.name + [QUOTE]))
    ensures AfterSpace(s, p) == NameAt(m, p) && At(s, NameAt(m, p), QUOTE)
  {
    BlankSkips(s, p, m.before);
    LiesSplit(s, NameAt(m, p), [QUOTE], m.name + [QUOTE]);
  }

  lemma ColonAfterSpace(s: Text, p: nat, after: Text)
    requires Blank(after) && Lies(s, p, after) && Lies(s, p + |after|, [COLON])
    ensures AfterSpace(s, p) == p + |after| && At(s, p + |after|, COLON)
  {
    BlankSkips(s, p, after);
    LiesFirst(s, p + |after|, [COLON]);
  }

  lemma FirstPair(s: Text, p: nat, v: Value)
    requires v.Object? && Valid(v) && v.members != [] && Lies(s, p, JoinFrom(PairTexts(v), 0) + [CLOSE_BRACE])
    ensures p <= |s| && !At(s, AfterSpace(s, p), CLOSE_BRACE)
  {
    PairParts(s, p, v, 0);
    PairValid(v, 0);
    NameAfterSpace(s, p, v.members[0]);
  }

  /** One turn of the scanner, once its parts are known. */
  lemma MemberTurn(s: Text, p: nat, depth: nat, w: nat, name: Key, c: nat, r: Scan)
    requires p <= |s| && AfterSpace(s, p) == w && At(s, w, QUOTE) && StringAt(s, w) == Some(name)
    requires name.next <= |s| && AfterSpace(s, name.next) == c && At(s, c, COLON) && Val(s, c + 1, depth + 1) == r
    ensures MemberAt(s, p, depth) == if r.Thrown? then None else Some(Member(name.text, r.next, r.dup))
  {
    hide AfterSpace, StringAt, Val;
  }

  /** One member, from its white space to the end of its value. */
  lemma {:induction false} PairScans(s: Text, p: nat, v: Value, i: nat, depth: nat)
    requires v.Object? && Valid(v) && i < |v.members| && Lies(s, p, JoinFrom(PairTexts(v), i) + [CLOSE_BRACE])
    ensures IsBody(v.members[i].name) && Valid(v.members[i].value)
    ensures p <= |s| && (MemberAt(s, p, depth).Some? <==> Fits(v.members[i].value, depth + 1))
    ensures var m := v.members[i];
            Fits(m.value, depth + 1) ==>
              MemberAt(s, p, depth) == Some(Member(Decoded(m.name), ValueAt(m, p) + |Render(m.value)|, HasDup(m.value)))
    decreases v, 0, 1
  {
    hide Val, AfterSpace, StringAt, Render, Valid, HasDup, Fits, IsBody, PairTexts, JoinFrom, Behind, Ends, Decoded,
      Blank, MemberAt, Lies;
    var m := v.members[i];
    PairParts(s, p, v, i);
    PairValid(v, i);
    NameAfterSpace(s, p, m);
    StringReads(s, NameAt(m, p), m.name);
    ColonAfterSpace(s, NameAt(m, p) + |m.name| + 2, m.afterName);
    ValueAfterSpace(s, ColonAt(m, p) + 1, m.beforeValue, m.value);
    ValSpace(s, ColonAt(m, p) + 1, ValueAt(m, p), depth + 1);
    ValueScans(s, ValueAt(m, p), m.value, depth + 1);
    var name := StringAt(s, NameAt(m, p)).value;
    MemberTurn(s, p, depth, NameAt(m, p), name, ColonAt(m, p), Val(s, ColonAt(m, p) + 1, depth + 1));
  }

  lemma PairBehind(s: Text, p: nat, v: Value, i: nat)
    requires v.Object? && Valid(v) && i < |v.members| && Lies(s, p, JoinFrom(PairTexts(v), i) + [CLOSE_BRACE])
    ensures var m := v.members[i];
            var e := ValueAt(m, p) + |Render(m.value)|;
            var c := p + |PairTexts(v)[i]|;
            && |PairTexts(v)| == |v.members| && c < |s| && e <= |s| && AfterSpace(s, e) == c
            && if i + 1 < |v.members|
               then s[c] == COMMA && Lies(s, c + 1, JoinFrom(PairTexts(v), i + 1) + [CLOSE_BRACE])
               else s[c] == CLOSE_BRACE
  {
    hide AfterSpace, Render, Valid, JoinFrom, Behind;
    var m := v.members[i];
    PairParts(s, p, v, i);
    PairValid(v, i);
    BehindAfterSpace(s, ValueAt(m, p) + |Render(m.value)|, m.after, PairTexts(v), i, CLOSE_BRACE);
  }

  /** One turn of the loop over members, once the member is known. */
  lemma MembersTurn(s: Text, p: nat, depth: nat, names: set<Text>, fits: bool, m: Member, c: nat)
    requires p <= |s| && MemberAt(s, p, depth) == if fits then Some(m) else None
    requires fits ==> m.next <= |s| && AfterSpace(s, m.next) == c && c < |s| && (s[c] == COMMA || s[c] == CLOSE_BRACE)
    ensures MembersAt(s, p, depth, names)
         == if !fits then Thrown
            else if s[c] == COMMA then Or(m.dup || m.name in names, MembersAt(s, c + 1, depth, names + {m.name}))
            else Past(c + 1, m.dup || m.name in names)
  {
    hide MembersAt, MemberAt, AfterSpace;
    MembersStep(s, p, depth, names);
  }

  lemma {:induction false} PairsScan(s: Text, p: nat, v: Value, i: nat, depth: nat, names: set<Text>)
    requires v.Object? && Valid(v) && i < |v.members| && Lies(s, p, JoinFrom(PairTexts(v), i) + [CLOSE_BRACE])
    ensures MembersAt(s, p, depth, names)
         == Expected(PairsFit(v, i, depth + 1), p + |JoinFrom(PairTexts(v), i)| + 1, PairsDup(v, i, names))
    decreases v, 1, |v.members| - i
  {
    hide MembersAt, MemberAt, AfterSpace, Lies, Render, Valid, JoinFrom, Behind, PairsFit, PairsDup, Fits, HasDup,
      IsBody, ValueAt, PairTexts, Decoded;
    var ts, m := PairTexts(v), v.members[i];
    PairsFrom(v, i, depth + 1, names);
    PairScans(s, p, v, i, depth);
    PairBehind(s, p, v, i);
    var next, c := ValueAt(m, p) + |Render(m.value)|, p + |ts[i]|;
    MembersTurn(s, p, depth, names, Fits(m.value, depth + 1), Member(Decoded(m.name), next, HasDup(m.value)), c);
    JoinIsBehind(ts, i, CLOSE_BRACE);
    if i + 1 < |v.members| { PairsScan(s, c + 1, v, i + 1, depth, names + {Decoded(m.name)}); }
  }

  lemma PairsFrom(v: Value, i: nat, depth: nat, names: set<Text>)
    requires v.Object? && Valid(v) && i < |v.members|
    ensures IsBody(v.members[i].name) && Valid(v.members[i].value)
    ensures PairsFit(v, i, depth) <==>
            Fits(v.members[i].value, depth) && (i + 1 < |v.members| ==> PairsFit(v, i + 1, depth))
    ensures var k := Decoded(v.members[i].name);
            PairsDup(v, i, names) <==>
              || HasDup(v.members[i].value) || k in names
              || (i + 1 < |v.members| && PairsDup(v, i + 1, names + {k}))
  {
    PairValid(v, i);
    PairsDupStep(v, i, names);
    hide Valid, Fits, HasDup, IsBody;
  }

  lemma {:induction false} ObjectScans(s: Text, p: nat, v: Value, depth: nat)
    requires v.Object? && Valid(v) && Lies(s, p, Render(v))
    ensures Val(s, p, depth) == Expected(Fits(v, depth), p + |Render(v)|, HasDup(v))
    decreases v, 2, 0
  {
    if v.members == [] { EmptyObjectScans(s, p, v, depth); } else { FullObjectScans(s, p, v, depth); }
  }

  lemma EmptyObjectScans(s: Text, p: nat, v: Value, depth: nat)
    requires v.Object? && v.members == [] && Valid(v) && Lies(s, p, Render(v))
    ensures Val(s, p, depth) == Expected(Fits(v, depth), p + |Render(v)|, HasDup(v))
  {
    hide ItemsAt, MembersAt;
    LiesSplit(s, p, [OPEN_BRACE], v.lead + [CLOSE_BRACE]);
    LiesSplit(s, p + 1, v.lead, [CLOSE_BRACE]);
    BlankSkips(s, p + 1, v.lead);
  }

  lemma {:induction false} FullObjectScans(s: Text, p: nat, v: Value, depth: nat)
    requires v.Object? && v.members != [] && Valid(v) && Lies(s, p, Render(v))
    ensures Val(s, p, depth) == Expected(Fits(v, depth), p + |Render(v)|, HasDup(v))
    decreases v, 1, |v.members| + 1
  {
    hide Val, MembersAt, Lies, JoinFrom, PairTexts, Render, Valid, AfterSpace, Fits, HasDup, PairsFit, PairsDup;
    var inside := JoinFrom(PairTexts(v), 0) + [CLOSE_BRACE];
    RenderObject(v);
    LiesSplit(s, p, [OPEN_BRACE], inside);
    FirstPair(s, p + 1, v);
    SpaceTwice(s, p + 1);
    MembersSpace(s, p + 1, AfterSpace(s, p + 1), depth + 1, {});
    PairsScan(s, p + 1, v, 0, depth + 1, {});
    ObjectWhole(v, depth);
    ValOfObject(s, p, depth);
  }

  lemma RenderObject(v: Value)
    requires v.Object? && v.members != []
    ensures Render(v) == [OPEN_BRACE] + (JoinFrom(PairTexts(v), 0) + [CLOSE_BRACE])
  {
  }

  lemma ObjectWhole(v: Value, depth: nat)
    requires v.Object? && Valid(v)
    ensures Fits(v, depth) <==> depth < MAX_DEPTH && PairsFit(v, 0, depth + 2)
    ensures HasDup(v) <==> PairsDup(v, 0, {})
  {
  }

  lemma ValOfObject(s: Text, p: nat, depth: nat)
    requires p < |s| && s[p] == OPEN_BRACE && !At(s, AfterSpace(s, p + 1), CLOSE_BRACE)
    ensures Val(s, p, depth) == if depth >= MAX_DEPTH then Thrown else MembersAt(s, AfterSpace(s, p + 1), depth + 1, {})
  {
    hide MembersAt, ItemsAt;
  }

  // ----- The test is exact -----

  ghost predicate IsDocument(s: Text, before: Text, v: Value, after: Text) {
    Blank(before) && Valid(v) && Blank(after) && s == before + (Render(v) + after)
  }

  /** What the first pass of JSON.parse accepts. */
  ghost predicate IsJson(s: Text) {
    exists before, v, after :: IsDocument(s, before, v, after)
  }

  /** On a JSON text the answer is yes exactly when some object has two members with equal
      decoded names, and the depth counter was not exceeded. */
  lemma ExactOnDocument(s: Text, before: Text, v: Value, after: Text)
    requires IsDocument(s, before, v, after)
    ensures Duplicates(s, true) <==> Fits(v, 0) && HasDup(v)
  {
    hide Render, Val, Fits, HasDup, Valid, Lies, Ends, AfterSpace, Blank;
    WholeText(s, before, v, after);
    ValueAfterSpace(s, 0, before, v);
    ValueScans(s, |before|, v, 0);
  }

  lemma WholeText(s: Text, before: Text, v: Value, after: Text)
    requires IsDocument(s, before, v, after)
    ensures |before| <= |s| && Blank(before) && Valid(v) && Lies(s, 0, before) && Lies(s, |before|, Render(v))
    ensures Ends(s, |before| + |Render(v)|)
  {
    hide Render, Valid, Blank, Lies, Ends;
    WholeParts(s, before, Render(v), after);
  }

  lemma WholeParts(s: Text, before: Text, t: Text, after: Text)
    requires s == before + (t + after) && Blank(after)
    ensures |before| <= |s| && Lies(s, 0, before) && Lies(s, |before|, t) && Ends(s, |before| + |t|)
  {
    hide Blank, Lies, Ends;
    LiesWhole(s);
    LiesSplit(s, 0, before, t + after);
    LiesSplit(s, |before|, t, after);
    BlankEnds(s, |before| + |t|, after);
  }

  lemma LiesWhole(s: Text)
    ensures Lies(s, 0, s)
  {
    assert s[0..|s|] == s;
  }

  lemma BlankEnds(s: Text, p: nat, after: Text)
    requires Lies(s, p, after) && Blank(after) && p + |after| == |s|
    ensures Ends(s, p)
  {
    if after != [] {
      LiesFirst(s, p, after);
      assert IsJsonSpace(after[0]);
    }
  }

  /** The same for every text, with the verdict of the first pass. */
  lemma DuplicatesExactly(s: Text)
    ensures Duplicates(s, IsJson(s))
       <==> exists before, v, after :: IsDocument(s, before, v, after) && Fits(v, 0) && HasDup(v)
  {
    hide IsDocument, Fits, HasDup, Duplicates, Valid;
    if IsJson(s) {
      var before, v, after :| IsDocument(s, before, v, after);
      IsDocumentValid(s, before, v, after);
      ExactOnDocument(s, before, v, after);
      forall b, w, a | IsDocument(s, b, w, a)
        ensures Valid(w) && (Duplicates(s, true) <==> Fits(w, 0) && HasDup(w))
      {
        IsDocumentValid(s, b, w, a);
        ExactOnDocument(s, b, w, a);
      }
    } else {
      NotParsed(s);
    }
  }

  lemma IsDocumentValid(s: Text, before: Text, v: Value, after: Text)
    requires IsDocument(s, before, v, after)
    ensures Valid(v)
  {
  }

  lemma NotParsed(s: Text)
    ensures !Duplicates(s, false)
  {
  }

  /** At most `n` arrays and objects inside one another. */
  ghost predicate Nested(v: Value, n: nat) {
    match v
    case Literal(_) => true
    case String(_) => true
    case Array(_, items) => n > 0 && forall i :: 0 <= i < |items| ==> Nested(items[i].value, n - 1)
    case Object(_, members) => n > 0 && forall i :: 0 <= i < |members| ==> Nested(members[i].value, n - 1)
  }

  /** Fifty levels are never too deep. */
  lemma {:induction false} FiftyLevelsFit(v: Value, n: nat, depth: nat)
    requires Nested(v, n) && depth + 2 * n <= MAX_DEPTH
    ensures Fits(v, depth)
    decreases v
  {
    match v
    case Literal(_) =>
    case String(_) =>
    case Array(_, items) =>
      forall i | 0 <= i < |items| ensures Fits(items[i].value, depth + 1) {
        FiftyLevelsFit(items[i].value, n - 1, depth + 1);
      }
    case Object(_, members) =>
      forall i | 0 <= i < |members| ensures Fits(members[i].value, depth + 2) {
        FiftyLevelsFit(members[i].value, n - 1, depth + 2);
      }
  }

  /** `n` objects inside one another, each with the empty name twice. */
  function Doubled(n: nat): Value {
    if n == 0 then Literal(NULL)
    else Object([], [Pair([], [], [], [], Doubled(n - 1), []), Pair([], [], [], [], Literal(NULL), [])])
  }

  lemma EmptyName()
    ensures IsBody([]) && Decoded([]) == []
  {
    assert [] + [QUOTE] == [QUOTE];
  }

  lemma {:induction false} DoubledIsValid(n: nat)
    ensures Valid(Doubled(n)) && (n > 0 ==> HasDup(Doubled(n)))
  {
    if n > 0 {
      DoubledIsValid(n - 1);
      EmptyName();
      TwinsAreValid(Doubled(n - 1));
    }
  }

  lemma TwinsAreValid(w: Value)
    requires Valid(w) && IsBody([])
    ensures var v := Object([], [Pair([], [], [], [], w, []), Pair([], [], [], [], Literal(NULL), [])]);
            Valid(v) && HasDup(v)
  {
    var v := Object([], [Pair([], [], [], [], w, []), Pair([], [], [], [], Literal(NULL), [])]);
    assert v.members[0].name == v.members[1].name == [];
    hide IsBody;
    assert Valid(Literal(NULL));
    assert Valid(v);
    assert Decoded(v.members[0].name) == Decoded(v.members[1].name);
  }

  lemma {:induction false} DoubledFits(n: nat, depth: nat)
    ensures Fits(Doubled(n), depth) <==> depth + 2 * n <= MAX_DEPTH
  {
    if n > 0 {
      DoubledFits(n - 1, depth + 2);
      var v := Doubled(n);
      assert v.members[0].value == Doubled(n - 1) && v.members[1].value == Literal(NULL);
    }
  }

  /** From the fifty-first level of objects on, duplicates go unnoticed everywhere in the text. */
  lemma DepthHidesDuplicates(n: nat)
    requires n > 0
    ensures Valid(Doubled(n)) && HasDup(Doubled(n))
    ensures Duplicates(Render(Doubled(n)), true) <==> n <= 50
  {
    var v := Doubled(n);
    DoubledFits(n, 0);
    DoubledIsValid(n);
    hide Render, Valid, HasDup, Fits, Duplicates, Doubled;
    assert [] + (Render(v) + []) == Render(v);
    ExactOnDocument(Render(v), [], v, []);
  }
}
