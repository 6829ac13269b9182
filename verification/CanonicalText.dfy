/** What the canonical printer writes is itself a JSON text without white space. It has a name
    twice in an object exactly where two keys of that object have one normal form. */
module CanonicalText {
  import opened JsonStrings
  import C = CanonicalJson
  import D = DuplicateKeys

  /** The printed value as a tree of the grammar. */
  ghost function AsValue(v: C.Json, nfc: Text -> Text): D.Value
    decreases v
  {
    match v
    case Bool(b) => D.Literal(if b then D.TRUE else D.FALSE)
    case Number(n) => D.Literal(C.Decimal(n))
    case Fraction(text) => D.Literal(text)
    case Str(s) => D.String(Body(nfc(s)))
    case Arr(items) =>
      D.Array([], seq(|items|, i requires 0 <= i < |items| => D.Item([], AsValue(items[i], nfc), [])))
    case Obj(ms) =>
      var keys := C.Keys(v);
      C.SortedAreMembers(ms);
      D.Object([], seq(|keys|, i requires 0 <= i < |keys| =>
        assert C.HasMember(ms, keys[i]);
        D.Pair([], Body(nfc(keys[i])), [], [], AsValue(C.ValueOf(ms, keys[i]), nfc), [])))
    case _ => D.Literal(D.NULL)
  }

  lemma BodyIsBody(s: Text)
    ensures D.IsBody(Body(s)) && D.Decoded(Body(s)) == s
  {
    BodyReads(s, []);
    assert Body(s) + [QUOTE] + [] == Body(s) + [QUOTE];
  }

  lemma {:induction false} NoLeadingZero(n: nat)
    ensures C.Digits(n)[0] == 0x30 ==> n == 0
  {
    if n >= 10 { NoLeadingZero(n / 10); }
  }

  lemma DecimalIsLiteral(n: int)
    ensures D.IsLiteral(C.Decimal(n))
  {
    var m: nat := if n < 0 then -n else n;
    var sign := if n < 0 then [C.MINUS] else [];
    C.DigitsAreDigits(m);
    NoLeadingZero(m);
    assert AllDigits(C.Digits(m));
    assert IsNumber(sign, C.Digits(m), [], []);
    assert C.Decimal(n) == sign + C.Digits(m) + [] + [];
  }

  lemma FractionIsLiteral(t: Text)
    requires IsFraction(t)
    ensures D.IsLiteral(t)
  {
    var sign, whole, fraction, exponent :|
      IsNumber(sign, whole, fraction, exponent) && (fraction != [] || exponent != []) &&
        t == sign + whole + fraction + exponent;
  }

  // ----- It is rendered as it is printed -----

  lemma {:induction false} RendersAsPrinted(v: C.Json, nfc: Text -> Text)
    requires C.Printable(v, nfc)
    ensures D.Render(AsValue(v, nfc)) == C.Printed(v, nfc)
    decreases v
  {
    hide D.Render, Quoted, C.Decimal;
    var w := AsValue(v, nfc);
    RenderScalar(w);
    if v.Str? {
      QuotedIsBody(nfc(v.s));
    } else if v.Arr? {
      C.ItemsFacts(v, nfc, []);
      forall i | 0 <= i < |v.items| ensures D.ItemTexts(w)[i] == C.Items(v, nfc)[i] {
        RendersAsPrinted(v.items[i], nfc);
      }
      assert D.ItemTexts(w) == C.Items(v, nfc);
      RenderedArray(w);
    } else if v.Obj? {
      C.EntriesFacts(v, nfc, []);
      forall i | 0 <= i < |C.Keys(v)| ensures D.PairTexts(w)[i] == C.Entries(v, nfc)[i] {
        C.EntryFacts(v, nfc, i);
        RendersAsPrinted(C.ValueOf(v.members, C.Keys(v)[i]), nfc);
        PairRenders(w, i, nfc(C.Keys(v)[i]));
      }
      assert D.PairTexts(w) == C.Entries(v, nfc);
      RenderedObject(w);
    }
  }

  lemma QuotedIsBody(s: Text)
    ensures Quoted(s) == [QUOTE] + (Body(s) + [QUOTE])
  {
    hide Body;
  }

  lemma RenderScalar(w: D.Value)
    ensures w.Literal? ==> D.Render(w) == w.text
    ensures w.String? ==> D.Render(w) == [QUOTE] + (w.body + [QUOTE])
  {
  }

  lemma RenderedArray(w: D.Value)
    requires w.Array? && w.lead == []
    ensures D.Render(w) == [OPEN_BRACKET] + (JoinFrom(D.ItemTexts(w), 0) + [CLOSE_BRACKET])
  {
  }

  lemma RenderedObject(w: D.Value)
    requires w.Object? && w.lead == []
    ensures D.Render(w) == [OPEN_BRACE] + (JoinFrom(D.PairTexts(w), 0) + [CLOSE_BRACE])
  {
  }

  lemma PairRenders(w: D.Value, i: nat, k: Text)
    requires w.Object? && i < |w.members|
    requires w.members[i] == D.Pair([], Body(k), [], [], w.members[i].value, [])
    ensures D.PairTexts(w)[i] == Quoted(k) + ([COLON] + D.Render(w.members[i].value))
  {
    hide D.Render, Body;
  }

  // ----- It belongs to the grammar -----

  /** Some object has two hashed keys with one normal form. */
  ghost predicate Collides(v: C.Json, nfc: Text -> Text)
    decreases v
  {
    match v
    case Arr(items) => exists i :: 0 <= i < |items| && Collides(items[i], nfc)
    case Obj(ms) =>
      || (exists i, j :: 0 <= i < j < |C.Keys(v)| && nfc(C.Keys(v)[i]) == nfc(C.Keys(v)[j]))
      || (exists i :: 0 <= i < |C.Keys(v)| && C.HasMember(ms, C.Keys(v)[i])
                      && Collides(C.ValueOf(ms, C.Keys(v)[i]), nfc))
    case _ => false
  }

  lemma {:induction false} PrintedIsValid(v: C.Json, nfc: Text -> Text)
    requires C.Printable(v, nfc)
    ensures D.Valid(AsValue(v, nfc)) && (D.HasDup(AsValue(v, nfc)) <==> Collides(v, nfc))
    decreases v
  {
    hide Body, C.Decimal, D.IsBody, D.IsLiteral, IsFraction;
    var w := AsValue(v, nfc);
    Words();
    match v
    case Number(n) => DecimalIsLiteral(n);
    case Fraction(text) => FractionIsLiteral(text);
    case Str(s) => BodyIsBody(nfc(s));
    case Arr(items) =>
      C.ItemsFacts(v, nfc, []);
      forall i | 0 <= i < |items|
        ensures D.Valid(w.items[i].value) && (D.HasDup(w.items[i].value) <==> Collides(items[i], nfc))
      {
        PrintedIsValid(items[i], nfc);
      }
    case Obj(ms) => ObjectIsValid(v, nfc);
    case _ =>
  }

  lemma Words()
    ensures D.IsLiteral(D.TRUE) && D.IsLiteral(D.FALSE) && D.IsLiteral(D.NULL)
  {
  }

  lemma {:induction false} ObjectIsValid(v: C.Json, nfc: Text -> Text)
    requires v.Obj? && C.Printable(v, nfc)
    ensures D.Valid(AsValue(v, nfc)) && (D.HasDup(AsValue(v, nfc)) <==> Collides(v, nfc))
    decreases v, 0
  {
    hide Body, D.IsBody, C.Canonical, C.WellFormed;
    var w, keys := AsValue(v, nfc), C.Keys(v);
    forall i | 0 <= i < |keys|
      ensures C.HasMember(v.members, keys[i])
      ensures D.IsBody(w.members[i].name) && D.Decoded(w.members[i].name) == nfc(keys[i])
      ensures D.Valid(w.members[i].value) &&
              (D.HasDup(w.members[i].value) <==> Collides(C.ValueOf(v.members, keys[i]), nfc))
    {
      C.EntryFacts(v, nfc, i);
      BodyIsBody(nfc(keys[i]));
      PrintedIsValid(C.ValueOf(v.members, keys[i]), nfc);
    }
    assert D.Valid(w);
    MembersCollide(v, nfc, w);
  }

  lemma MembersCollide(v: C.Json, nfc: Text -> Text, w: D.Value)
    requires v.Obj? && w.Object? && D.Valid(w) && |w.members| == |C.Keys(v)|
    requires forall i :: 0 <= i < |w.members| ==>
               && C.HasMember(v.members, C.Keys(v)[i]) && D.Decoded(w.members[i].name) == nfc(C.Keys(v)[i])
               && (D.HasDup(w.members[i].value) <==> Collides(C.ValueOf(v.members, C.Keys(v)[i]), nfc))
    ensures D.HasDup(w) <==> Collides(v, nfc)
  {
    hide D.Valid, D.IsBody, D.Decoded, C.Keys, C.HasMember, C.ValueOf;
  }

  /** Every canonical text is a JSON text, and the scanner finds a name twice in it exactly when two
      keys collide and the value is not nested too deeply for its counter. */
  lemma CanonicalDuplicatesExactly(v: C.Json, nfc: Text -> Text)
    requires C.Printable(v, nfc)
    ensures D.IsJson(C.Printed(v, nfc))
    ensures D.Duplicates(C.Printed(v, nfc), true) <==> Collides(v, nfc) && D.Fits(AsValue(v, nfc), 0)
  {
    hide D.Render, D.Duplicates, D.Valid, D.HasDup, C.Canonical, AsValue, Collides, C.WellFormed;
    var w := AsValue(v, nfc);
    RendersAsPrinted(v, nfc);
    PrintedIsValid(v, nfc);
    assert [] + (D.Render(w) + []) == C.Printed(v, nfc);
    assert D.IsDocument(C.Printed(v, nfc), [], w, []);
    D.ExactOnDocument(C.Printed(v, nfc), [], w, []);
  }

  lemma {:induction false} ProperNeverCollides(v: C.Json, nfc: Text -> Text)
    requires C.Proper(v, nfc)
    ensures !Collides(v, nfc)
    decreases v
  {
    match v
    case Arr(items) =>
      forall i | 0 <= i < |items| ensures !Collides(items[i], nfc) { ProperNeverCollides(items[i], nfc); }
    case Obj(ms) =>
      var keys := C.Keys(v);
      C.SortedAreMembers(ms);
      C.KeptDistinct(ms);
      C.SortSorts(C.KeptKeys(ms));
      forall i | 0 <= i < |keys| ensures nfc(keys[i]) == keys[i] && !Collides(C.ValueOf(ms, keys[i]), nfc) {
        assert keys[i] in keys;
        C.ProperMember(ms, keys[i], nfc);
        var m :| 0 <= m < |ms| && ms[m].key == keys[i] && ms[m].value == C.ValueOf(ms, keys[i]);
        ProperNeverCollides(ms[m].value, nfc);
      }
    case _ =>
  }

  /** With distinct keys in normal form no object has a name twice, and the scanner finds none. */
  lemma CanonicalIsCleanJson(v: C.Json, nfc: Text -> Text)
    requires C.Printable(v, nfc) && C.Proper(v, nfc)
    ensures D.IsJson(C.Printed(v, nfc)) && !D.Duplicates(C.Printed(v, nfc), true)
  {
    hide C.Canonical, C.Proper, C.WellFormed, D.Duplicates, Collides;
    CanonicalDuplicatesExactly(v, nfc);
    ProperNeverCollides(v, nfc);
  }
}
