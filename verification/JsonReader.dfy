/** A reader of JSON texts without white space, written for itself, that gives back what the
    canonical printer was given: its hashed members, its strings in normal form, its numbers. And it
    gives back parameters from the text whose length is limited. */
module JsonReader {
  import opened Prelude
  import opened JsonStrings
  import opened CanonicalJson
  import Params

  // ----- The reader -----

  /** The value that digits spell. */
  function ValueOfDigits(t: Text): nat
    requires forall i :: 0 <= i < |t| ==> IsDigit(t[i])
  {
    if t == [] then 0
    else
      assert IsDigit(t[|t| - 1]);
      10 * ValueOfDigits(t[..|t| - 1]) + (t[|t| - 1] as int - 0x30)
  }

  predicate IsIntegerText(t: Text) { AllDigits(t) || (t != [] && t[0] == MINUS && AllDigits(t[1..])) }

  function IntegerOf(t: Text): int
    requires IsIntegerText(t)
  {
    if AllDigits(t) then ValueOfDigits(t) else 0 - ValueOfDigits(t[1..])
  }

  predicate InRange(n: int) { -1_000_000_000_000_000_000_000 < n < 1_000_000_000_000_000_000_000 }

  /** Integers by their value, other numerals by their text. */
  function NumberOf(t: Text): Json {
    if IsIntegerText(t) && InRange(IntegerOf(t)) then Number(IntegerOf(t)) else Fraction(t)
  }

  /** The end of the run of signs that make up a numeral. */
  function NumeralEnd(t: Text, i: nat): (e: nat)
    requires i <= |t|
    ensures i <= e <= |t|
    decreases |t| - i
  {
    if i < |t| && IsNumberUnit(t[i]) then NumeralEnd(t, i + 1) else i
  }

  const NULL_WORD: Text := [0x6E, 0x75, 0x6C, 0x6C]
  const TRUE_WORD: Text := [0x74, 0x72, 0x75, 0x65]
  const FALSE_WORD: Text := [0x66, 0x61, 0x6C, 0x73, 0x65]

  /** A value, and the text behind it. */
  datatype Parsed = Parsed(v: Json, rest: Text)

  function ReadValue(s: Text): (r: Option<Parsed>)
    ensures r.Some? ==> |r.value.rest| < |s|
    decreases |s|, 1
  {
    if s == [] then None
    else if s[0] == QUOTE then
      match ReadBody(s[1..]) case None => None case Some(token) => Some(Parsed(Str(token.text), token.rest))
    else if s[0] == OPEN_BRACKET then
      if |s| > 1 && s[1] == CLOSE_BRACKET then Some(Parsed(Arr([]), s[2..])) else ReadItems(s[1..], [])
    else if s[0] == OPEN_BRACE then
      if |s| > 1 && s[1] == CLOSE_BRACE then Some(Parsed(Obj([]), s[2..])) else ReadMembers(s[1..], [])
    else if NULL_WORD <= s then Some(Parsed(Null, s[4..]))
    else if TRUE_WORD <= s then Some(Parsed(Bool(true), s[4..]))
    else if FALSE_WORD <= s then Some(Parsed(Bool(false), s[5..]))
    else
      var e := NumeralEnd(s, 0);
      if e == 0 then None else Some(Parsed(NumberOf(s[..e]), s[e..]))
  }

  function ReadItems(s: Text, done: seq<Json>): (r: Option<Parsed>)
    ensures r.Some? ==> |r.value.rest| < |s|
    decreases |s|, 2
  {
    match ReadValue(s)
    case None => None
    case Some(p) =>
      if p.rest == [] then None
      else if p.rest[0] == COMMA then ReadItems(p.rest[1..], done + [p.v])
      else if p.rest[0] == CLOSE_BRACKET then Some(Parsed(Arr(done + [p.v]), p.rest[1..]))
      else None
  }

  function ReadMembers(s: Text, done: seq<Member>): (r: Option<Parsed>)
    ensures r.Some? ==> |r.value.rest| < |s|
    decreases |s|, 2
  {
    if s == [] || s[0] != QUOTE then None
    else
      match ReadBody(s[1..])
      case None => None
      case Some(k) =>
        if k.rest == [] || k.rest[0] != COLON then None
        else
          match ReadValue(k.rest[1..])
          case None => None
          case Some(p) =>
            if p.rest == [] then None
            else if p.rest[0] == COMMA then ReadMembers(p.rest[1..], done + [Member(k.text, p.v)])
            else if p.rest[0] == CLOSE_BRACE then Some(Parsed(Obj(done + [Member(k.text, p.v)]), p.rest[1..]))
            else None
  }

  // ----- What should come back -----

  /** The hashed members in the order of their keys, and strings in normal form. */
  ghost function Hashed(v: Json, nfc: Text -> Text): Json
    decreases v
  {
    match v
    case Str(s) => Str(nfc(s))
    case Arr(items) => Arr(seq(|items|, i requires 0 <= i < |items| => Hashed(items[i], nfc)))
    case Obj(ms) =>
      var keys := Keys(v);
      SortedAreMembers(ms);
      Obj(seq(|keys|, i requires 0 <= i < |keys| =>
        assert HasMember(ms, keys[i]);
        Member(nfc(keys[i]), Hashed(ValueOf(ms, keys[i]), nfc))))
    case _ => v
  }

  // ----- Numerals -----

  lemma {:induction false} DigitsRead(n: nat)
    ensures AllDigits(Digits(n)) && ValueOfDigits(Digits(n)) == n
  {
    DigitsAreDigits(n);
    if n >= 10 {
      DigitsRead(n / 10);
      var d := Digits(n);
      assert d[..|d| - 1] == Digits(n / 10);
    }
  }

  /** The numeral printed for an integer spells that integer, in base ten. */
  lemma DecimalReads(n: int)
    ensures IsIntegerText(Decimal(n)) && IntegerOf(Decimal(n)) == n
  {
    if n < 0 {
      DigitsRead(-n);
      assert Decimal(n)[1..] == Digits(-n);
      assert !IsDigit(Decimal(n)[0]);
    } else {
      DigitsRead(n);
    }
    hide Digits;
  }

  lemma FractionReads(t: Text)
    requires IsFraction(t)
    ensures NumberOf(t) == Fraction(t)
  {
    FractionIsToken(t);
    var i :| 0 < i < |t| && !IsDigit(t[i]);
    assert t[1..][i - 1] == t[i];
  }

  lemma {:induction false} NumeralEnds(t: Text, x: Text, i: nat)
    requires i <= |t| && (forall j :: 0 <= j < |t| ==> IsNumberUnit(t[j])) && Follows(x)
    ensures NumeralEnd(t + x, i) == |t|
    decreases |t| - i
  {
    if i < |t| {
      assert (t + x)[i] == t[i];
      NumeralEnds(t, x, i + 1);
    } else if x != [] {
      assert (t + x)[i] == x[0];
    }
  }

  lemma NumberReads(v: Json, nfc: Text -> Text, x: Text)
    requires IsNumeric(v) && Printable(v, nfc) && Follows(x)
    ensures ReadValue(Printed(v, nfc) + x) == Some(Parsed(v, x))
  {
    var t := Printed(v, nfc);
    NumericIsToken(v, nfc);
    NumeralEnds(t, x, 0);
    if v.Number? { DecimalReads(v.n); } else { FractionReads(v.text); }
    NumeralReads(t, x);
    hide ReadValue, Decimal, IsIntegerText, IntegerOf, IsFraction;
  }

  lemma NumeralReads(t: Text, x: Text)
    requires IsNumberToken(t) && NumeralEnd(t + x, 0) == |t|
    ensures ReadValue(t + x) == Some(Parsed(NumberOf(t), x))
  {
    var s := t + x;
    assert s[0] == t[0];
    assert s[..|t|] == t && s[|t|..] == x;
    hide NumberOf, NumeralEnd, ReadItems, ReadMembers;
  }

  // ----- Values -----

  lemma StringReads(t: Text, x: Text)
    ensures ReadValue(Quoted(t) + x) == Some(Parsed(Str(t), x))
  {
    BodyReads(t, x);
    QuotedFirst(t, x);
    hide Quoted, ReadBody, Body, ReadItems, ReadMembers;
  }

  lemma QuotedFirst(t: Text, x: Text)
    ensures Quoted(t) + x != [] && (Quoted(t) + x)[0] == QUOTE && (Quoted(t) + x)[1..] == Body(t) + [QUOTE] + x
  {
    hide Body;
  }

  lemma WordReads(v: Json, nfc: Text -> Text, x: Text)
    requires (v.Null? || v.Bool?) && Printable(v, nfc)
    ensures ReadValue(Printed(v, nfc) + x) == Some(Parsed(v, x))
  {
    var t := Printed(v, nfc);
    var s := t + x;
    assert s[..|t|] == t && s[|t|..] == x && s[0] == t[0];
    assert t <= s;
    hide ReadItems, ReadMembers, NumberOf;
  }

  /** In front of anything that may follow, the reader gives back the value that was printed, and
      stops behind it. */
  lemma {:induction false} ReadsBack(v: Json, nfc: Text -> Text, x: Text)
    requires Printable(v, nfc) && Follows(x)
    ensures ReadValue(Printed(v, nfc) + x) == Some(Parsed(Hashed(v, nfc), x))
    decreases v, 1, 0
  {
    hide ReadValue, Quoted;
    if IsNumeric(v) {
      NumberReads(v, nfc, x);
    } else if v.Str? {
      StringReads(nfc(v.s), x);
    } else if v.Arr? {
      ArrayReads(v, nfc, x);
    } else if v.Obj? {
      ObjectReads(v, nfc, x);
    } else {
      WordReads(v, nfc, x);
    }
  }

  lemma OpensArray(t: Text)
    ensures t != [] && t[0] == CLOSE_BRACKET ==> ReadValue([OPEN_BRACKET] + t) == Some(Parsed(Arr([]), t[1..]))
    ensures t != [] && t[0] != CLOSE_BRACKET ==> ReadValue([OPEN_BRACKET] + t) == ReadItems(t, [])
  {
    var s := [OPEN_BRACKET] + t;
    assert s[1..] == t && (t != [] ==> s[1] == t[0] && s[2..] == t[1..]);
    hide ReadItems, ReadMembers, NumberOf;
  }

  lemma {:induction false} ArrayReads(v: Json, nfc: Text -> Text, x: Text)
    requires v.Arr? && Printable(v, nfc) && Follows(x)
    ensures ReadValue(Printed(v, nfc) + x) == Some(Parsed(Hashed(v, nfc), x))
    decreases v, 0, |v.items| + 1
  {
    hide Canonical, JoinFrom, ReadValue, ReadItems, WellFormed;
    ItemsFacts(v, nfc, x);
    var t := JoinFrom(Items(v, nfc), 0) + ([CLOSE_BRACKET] + x);
    OpensArray(t);
    ArrayHead(v, nfc, x);
    if v.items == [] {
      assert t[1..] == x;
      assert Hashed(v, nfc) == Arr([]);
    } else {
      ItemsRead(v, nfc, 0, x);
    }
  }

  lemma {:induction false} ItemsRead(v: Json, nfc: Text -> Text, i: nat, x: Text)
    requires v.Arr? && Printable(v, nfc) && i < |v.items| && Follows(x)
    ensures ReadItems(JoinFrom(Items(v, nfc), i) + ([CLOSE_BRACKET] + x), Hashed(v, nfc).items[..i])
         == Some(Parsed(Hashed(v, nfc), x))
    decreases v, 0, |v.items| - i
  {
    hide Canonical, JoinFrom, ReadValue, ReadItems, WellFormed;
    var ts, h := Items(v, nfc), Hashed(v, nfc);
    ItemsFacts(v, nfc, x);
    JoinSplits(ts, i, CLOSE_BRACKET, x);
    var behind := Behind(ts, i, CLOSE_BRACKET, x);
    ReadsBack(v.items[i], nfc, behind);
    ItemTurn(JoinFrom(ts, i) + ([CLOSE_BRACKET] + x), h.items[..i], h.items[i], behind);
    assert h.items[..i] + [h.items[i]] == h.items[..i + 1];
    if i + 1 < |v.items| {
      assert behind[1..] == JoinFrom(ts, i + 1) + ([CLOSE_BRACKET] + x);
      ItemsRead(v, nfc, i + 1, x);
    } else {
      assert behind[1..] == x && h.items[..i + 1] == h.items;
    }
  }

  /** One turn of the reader over items. */
  lemma ItemTurn(s: Text, done: seq<Json>, v: Json, rest: Text)
    requires ReadValue(s) == Some(Parsed(v, rest)) && rest != []
    ensures rest[0] == COMMA ==> ReadItems(s, done) == ReadItems(rest[1..], done + [v])
    ensures rest[0] == CLOSE_BRACKET ==> ReadItems(s, done) == Some(Parsed(Arr(done + [v]), rest[1..]))
  {
    hide ReadValue;
  }

  lemma OpensObject(t: Text)
    ensures t != [] && t[0] == CLOSE_BRACE ==> ReadValue([OPEN_BRACE] + t) == Some(Parsed(Obj([]), t[1..]))
    ensures t != [] && t[0] != CLOSE_BRACE ==> ReadValue([OPEN_BRACE] + t) == ReadMembers(t, [])
  {
    var s := [OPEN_BRACE] + t;
    assert s[1..] == t && (t != [] ==> s[1] == t[0] && s[2..] == t[1..]);
    hide ReadItems, ReadMembers, NumberOf;
  }

  lemma {:induction false} ObjectReads(v: Json, nfc: Text -> Text, x: Text)
    requires v.Obj? && Printable(v, nfc) && Follows(x)
    ensures ReadValue(Printed(v, nfc) + x) == Some(Parsed(Hashed(v, nfc), x))
    decreases v, 0, |Keys(v)| + 1
  {
    hide Canonical, JoinFrom, ReadValue, ReadMembers, WellFormed;
    EntriesFacts(v, nfc, x);
    var t := JoinFrom(Entries(v, nfc), 0) + ([CLOSE_BRACE] + x);
    OpensObject(t);
    ObjectHead(v, nfc, x);
    if Keys(v) == [] {
      assert t[1..] == x;
      assert Hashed(v, nfc) == Obj([]);
    } else {
      MembersRead(v, nfc, 0, x);
    }
  }

  lemma {:induction false} MembersRead(v: Json, nfc: Text -> Text, i: nat, x: Text)
    requires v.Obj? && Printable(v, nfc) && i < |Keys(v)| && Follows(x)
    ensures ReadMembers(JoinFrom(Entries(v, nfc), i) + ([CLOSE_BRACE] + x), Hashed(v, nfc).members[..i])
         == Some(Parsed(Hashed(v, nfc), x))
    decreases v, 0, |Keys(v)| - i
  {
    hide Canonical, JoinFrom, ReadValue, ReadMembers, WellFormed, Quoted, Entries, Keys, ValueOf, HasMember, Hashed,
      Behind;
    var ts, h := Entries(v, nfc), Hashed(v, nfc);
    HashedMember(v, nfc, i);
    EntriesFacts(v, nfc, x);
    EntryFacts(v, nfc, i);
    JoinSplits(ts, i, CLOSE_BRACE, x);
    var k, w := Keys(v)[i], ValueOf(v.members, Keys(v)[i]);
    var behind := Behind(ts, i, CLOSE_BRACE, x);
    BehindIs(ts, i, CLOSE_BRACE, x);
    KeyedIsSmaller(v.members, k);
    ReadsBack(w, nfc, behind);
    MemberTurn(nfc(k), Printed(w, nfc), behind, h.members[..i], h.members[i].value, behind);
    assert h.members[..i] + [h.members[i]] == h.members[..i + 1];
    if i + 1 < |Keys(v)| { MembersRead(v, nfc, i + 1, x); } else { assert h.members[..i + 1] == h.members; }
  }

  lemma KeyedIsSmaller(ms: seq<Member>, k: Text)
    requires HasMember(ms, k)
    ensures exists i :: 0 <= i < |ms| && ms[i].value == ValueOf(ms, k)
  {
    hide ValueOf;
    var i :| 0 <= i < |ms| && ms[i].key == k && ms[i].value == ValueOf(ms, k);
  }

  lemma BehindIs(ts: seq<Text>, i: nat, close: Unit, x: Text)
    ensures var behind := Behind(ts, i, close, x);
      && behind != []
      && (i + 1 < |ts| ==> behind[0] == COMMA && behind[1..] == JoinFrom(ts, i + 1) + ([close] + x))
      && (i + 1 >= |ts| ==> behind[0] == close && behind[1..] == x)
  {
    hide JoinFrom;
  }

  lemma HashedMember(v: Json, nfc: Text -> Text, i: nat)
    requires v.Obj? && i < |Keys(v)|
    ensures Hashed(v, nfc).Obj? && |Hashed(v, nfc).members| == |Keys(v)| && HasMember(v.members, Keys(v)[i])
    ensures Hashed(v, nfc).members[i] == Member(nfc(Keys(v)[i]), Hashed(ValueOf(v.members, Keys(v)[i]), nfc))
  {
    SortedAreMembers(v.members);
    assert Keys(v)[i] in Keys(v);
    hide SortKeys, KeptKeys;
  }

  /** One turn of the reader over members. */
  lemma MemberTurn(k: Text, t: Text, behind: Text, done: seq<Member>, v: Json, rest: Text)
    requires ReadValue(t + behind) == Some(Parsed(v, rest)) && rest != []
    ensures var s := Quoted(k) + ([COLON] + t) + behind;
      && (rest[0] == COMMA ==> ReadMembers(s, done) == ReadMembers(rest[1..], done + [Member(k, v)]))
      && (rest[0] == CLOSE_BRACE ==> ReadMembers(s, done) == Some(Parsed(Obj(done + [Member(k, v)]), rest[1..])))
  {
    hide ReadValue, Quoted, Body, ReadBody;
    var tail := [COLON] + (t + behind);
    Regrouped(Quoted(k), t, behind);
    QuotedFirst(k, tail);
    BodyReads(k, tail);
  }

  lemma Regrouped(q: Text, t: Text, behind: Text)
    ensures q + ([COLON] + t) + behind == q + ([COLON] + (t + behind))
    ensures ([COLON] + (t + behind))[1..] == t + behind
  {
    assert ([COLON] + t) + behind == [COLON] + (t + behind);
    assert q + ([COLON] + t) + behind == q + (([COLON] + t) + behind);
  }

  /** So reading the canonical text gives back the value, and the text determines it. */
  lemma CanonicalReads(v: Json, nfc: Text -> Text)
    requires Printable(v, nfc)
    ensures ReadValue(Printed(v, nfc)) == Some(Parsed(Hashed(v, nfc), []))
  {
    ReadsBack(v, nfc, []);
    assert Printed(v, nfc) + [] == Printed(v, nfc);
    hide ReadValue, Canonical, Hashed;
  }

  // ----- The text of the parameters as sent -----

  lemma ScalarIsPrinted(v: Json, nfc: Text -> Text)
    requires Params.Bounded(v) && WellFormed(v) && (IsNumeric(v) || v.Null? || v.Bool?)
    ensures Printable(v, nfc) && Params.Sent(v) == Printed(v, nfc)
  {
    hide Decimal, IsFraction;
  }

  lemma SentFirst(v: Json)
    requires Params.Bounded(v) && WellFormed(v)
    ensures Params.Sent(v) != [] && Params.Sent(v)[0] != CLOSE_BRACKET
  {
    if IsNumeric(v) {
      NumericIsToken(v, t => t);
      ScalarIsPrinted(v, t => t);
    } else if v.Str? {
      QuotedFirst(v.s, []);
      assert Quoted(v.s) + [] == Quoted(v.s);
    }
    hide Quoted, Decimal, IsFraction;
  }

  /** The reader gives back the parameters from the text that is measured, so that text lacks
      nothing and has nothing to spare. */
  lemma {:induction false} SentReads(v: Json, x: Text)
    requires Params.Bounded(v) && WellFormed(v) && Follows(x)
    ensures ReadValue(Params.Sent(v) + x) == Some(Parsed(v, x))
    decreases v, 1, 0
  {
    hide ReadValue, Quoted, Params.Bounded, WellFormed;
    if v.Str? {
      StringReads(v.s, x);
    } else if v.Arr? {
      SentArrayReads(v, x);
    } else if v.Obj? {
      SentObjectReads(v, x);
    } else {
      SentScalarReads(v, x);
    }
  }

  lemma SentScalarReads(v: Json, x: Text)
    requires Params.Bounded(v) && WellFormed(v) && Follows(x) && !v.Str? && !v.Arr? && !v.Obj?
    ensures ReadValue(Params.Sent(v) + x) == Some(Parsed(v, x))
  {
    hide ReadValue, Params.Sent, Canonical;
    ScalarIsPrinted(v, t => t);
    if IsNumeric(v) { NumberReads(v, t => t, x); } else { WordReads(v, t => t, x); }
  }

  lemma {:induction false} SentArrayReads(v: Json, x: Text)
    requires v.Arr? && Params.Bounded(v) && WellFormed(v) && Follows(x)
    ensures ReadValue(Params.Sent(v) + x) == Some(Parsed(v, x))
    decreases v, 0, |v.items| + 1
  {
    hide ReadValue, ReadItems;
    var t := Params.ItemsSent(v, 0) + x;
    OpensArray(t);
    assert Params.Sent(v) + x == [OPEN_BRACKET] + t;
    if v.items == [] {
      assert t[1..] == x;
    } else {
      SentFirst(v.items[0]);
      SentItem(v, 0, x);
      assert v.items[..0] == [];
      hide Params.Sent;
      SentItemsRead(v, 0, x);
    }
  }

  /** The text from the `i`-th item on, behind its comma. */
  ghost function FromItem(v: Json, i: nat, x: Text): Text
    requires v.Arr? && i < |v.items|
  {
    Params.Sent(v.items[i]) + (Params.ItemsSent(v, i + 1) + x)
  }

  lemma SentItem(v: Json, i: nat, x: Text)
    requires v.Arr? && i < |v.items|
    ensures var t := Params.ItemsSent(v, i) + x;
      && (i == 0 ==> t == FromItem(v, i, x)) && (i > 0 ==> t != [] && t[0] == COMMA && t[1..] == FromItem(v, i, x))
    ensures Params.Sent(v.items[i]) != [] ==> FromItem(v, i, x)[0] == Params.Sent(v.items[i])[0]
  {
    hide Params.Sent;
    assert FromItem(v, i, x) == Params.Sent(v.items[i]) + Params.ItemsSent(v, i + 1) + x;
  }

  lemma NoMoreItems(v: Json, x: Text)
    requires v.Arr?
    ensures var t := Params.ItemsSent(v, |v.items|) + x; t != [] && t[0] == CLOSE_BRACKET && t[1..] == x
  {
  }

  lemma {:induction false} SentItemsRead(v: Json, i: nat, x: Text)
    requires v.Arr? && Params.Bounded(v) && WellFormed(v) && i < |v.items| && Follows(x)
    ensures ReadItems(FromItem(v, i, x), v.items[..i]) == Some(Parsed(v, x))
    decreases v, 0, |v.items| - i
  {
    hide ReadValue, ReadItems, Params.Sent, Params.ItemsSent;
    var behind := Params.ItemsSent(v, i + 1) + x;
    if i + 1 < |v.items| { SentItem(v, i + 1, x); } else { NoMoreItems(v, x); }
    SentReads(v.items[i], behind);
    ItemTurn(Params.Sent(v.items[i]) + behind, v.items[..i], v.items[i], behind);
    assert v.items[..i] + [v.items[i]] == v.items[..i + 1];
    if i + 1 < |v.items| { SentItemsRead(v, i + 1, x); } else { assert v.items[..i + 1] == v.items; }
  }

  lemma {:induction false} SentObjectReads(v: Json, x: Text)
    requires v.Obj? && Params.Bounded(v) && WellFormed(v) && Follows(x)
    ensures ReadValue(Params.Sent(v) + x) == Some(Parsed(v, x))
    decreases v, 0, |v.members| + 1
  {
    hide ReadValue, ReadMembers;
    var t := Params.MembersSent(v, 0) + x;
    OpensObject(t);
    assert Params.Sent(v) + x == [OPEN_BRACE] + t;
    if v.members == [] {
      assert t[1..] == x;
    } else {
      SentMember(v, 0, x);
      assert v.members[..0] == [];
      SentMembersRead(v, 0, x);
    }
  }

  /** The text from the `i`-th member on, behind its comma. */
  ghost function FromMember(v: Json, i: nat, x: Text): Text
    requires v.Obj? && i < |v.members|
  {
    var m := v.members[i];
    Quoted(m.key) + ([COLON] + Params.Sent(m.value)) + (Params.MembersSent(v, i + 1) + x)
  }

  lemma SentMember(v: Json, i: nat, x: Text)
    requires v.Obj? && i < |v.members|
    ensures var t := Params.MembersSent(v, i) + x;
      && (i == 0 ==> t == FromMember(v, i, x)) && (i > 0 ==> t != [] && t[0] == COMMA && t[1..] == FromMember(v, i, x))
    ensures FromMember(v, i, x) != [] && FromMember(v, i, x)[0] == QUOTE
  {
    hide Quoted, Params.Sent;
    var m, more := v.members[i], Params.MembersSent(v, i + 1);
    var t := [COLON] + Params.Sent(m.value);
    QuotedFirst(m.key, t + (more + x));
    MemberText(Quoted(m.key), t, more, x);
  }

  lemma MemberText(q: Text, t: Text, more: Text, x: Text)
    ensures q + t + (more + x) == q + (t + (more + x))
    ensures [] + (q + t + more) + x == q + t + (more + x)
    ensures var s := [COMMA] + (q + t + more) + x; s[0] == COMMA && s[1..] == q + t + (more + x)
  {
  }

  lemma {:induction false} SentMembersRead(v: Json, i: nat, x: Text)
    requires v.Obj? && Params.Bounded(v) && WellFormed(v) && i < |v.members| && Follows(x)
    ensures ReadMembers(FromMember(v, i, x), v.members[..i]) == Some(Parsed(v, x))
    decreases v, 0, |v.members| - i
  {
    hide ReadValue, ReadMembers, Quoted;
    var m, behind := v.members[i], Params.MembersSent(v, i + 1) + x;
    if i + 1 < |v.members| { SentMember(v, i + 1, x); }
    SentReads(m.value, behind);
    MemberTurn(m.key, Params.Sent(m.value), behind, v.members[..i], m.value, behind);
    assert v.members[..i] + [m] == v.members[..i + 1];
    if i + 1 < |v.members| {
      SentMembersRead(v, i + 1, x);
    } else {
      assert behind[1..] == x && v.members[..i + 1] == v.members;
    }
  }
}
