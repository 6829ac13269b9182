/** The canonical JSON printer of src/crypto.js, on which every hash and signature rests. The
    Unicode normaliser is a parameter: no property of it is needed. */
module CanonicalJson {
  import opened Prelude
  import opened Doubles
  import opened JsonStrings

  type SafeInt = n: int | -(MAX_SAFE as int) <= n <= MAX_SAFE

  /** Integers that are printed without an exponent. */
  type PlainInt = n: int | -1_000_000_000_000_000_000_000 < n < 1_000_000_000_000_000_000_000

  /** What a caller may pass. An integer-valued number below 10^21 is given by the integer that its
      printed digits spell, any other finite number by its printed text; ECMAScript prints no two
      numbers alike but the zeros. `Unserializable` stands for undefined, functions, symbols and big
      integers, `NonFinite` for NaN and the infinities. */
  datatype Json =
    | Null
    | Bool(b: bool)
    | Number(n: PlainInt)
    | Fraction(text: Text)
    | NonFinite
    | Str(s: Text)
    | Arr(items: seq<Json>)
    | Obj(members: seq<Member>)
    | Unserializable

  datatype Member = Member(key: Text, value: Json)

  /** "signature" */
  const SIGNATURE: Text := [0x73, 0x69, 0x67, 0x6E, 0x61, 0x74, 0x75, 0x72, 0x65]

  const MINUS: Unit := 0x2D

  // ----- The order of keys -----

  /** By UTF-16 code units. */
  predicate Leq(a: Text, b: Text) {
    a == [] || (b != [] && (a[0] < b[0] || (a[0] == b[0] && Leq(a[1..], b[1..]))))
  }

  function Inserted(k: Text, ks: seq<Text>): seq<Text> {
    if ks == [] || Leq(k, ks[0]) then [k] + ks else [ks[0]] + Inserted(k, ks[1..])
  }

  function SortKeys(ks: seq<Text>): seq<Text> {
    if ks == [] then [] else Inserted(ks[0], SortKeys(ks[1..]))
  }

  /** The keys that are hashed. */
  function KeptKeys(ms: seq<Member>): seq<Text> {
    if ms == [] then []
    else (if ms[0].key != SIGNATURE then [ms[0].key] else []) + KeptKeys(ms[1..])
  }

  predicate HasMember(ms: seq<Member>, k: Text) {
    exists i :: 0 <= i < |ms| && ms[i].key == k
  }

  function ValueOf(ms: seq<Member>, k: Text): (v: Json)
    requires HasMember(ms, k)
    ensures exists i :: 0 <= i < |ms| && ms[i].key == k && ms[i].value == v
  {
    if ms[0].key == k then ms[0].value
    else
      assert HasMember(ms[1..], k) by { var i :| 0 <= i < |ms| && ms[i].key == k; assert ms[1..][i - 1].key == k; }
      var v := ValueOf(ms[1..], k);
      assert exists i :: 0 <= i < |ms| && ms[i].key == k && ms[i].value == v by {
        var i :| 0 <= i < |ms[1..]| && ms[1..][i].key == k && ms[1..][i].value == v;
        assert ms[i + 1].key == k;
      }
      v
  }

  // ----- The printer -----

  function Digits(n: nat): (t: Text)
    ensures t != []
  {
    if n < 10 then [0x30 + n as Unit] else Digits(n / 10) + [0x30 + (n % 10) as Unit]
  }

  function Decimal(n: int): (t: Text)
    ensures t != []
  {
    if n < 0 then [MINUS] + Digits(-n) else Digits(n)
  }

  /** All the texts, unless one of them is missing. */
  function Collect(ts: seq<Option<Text>>): Option<seq<Text>> {
    if forall i :: 0 <= i < |ts| ==> ts[i].Some?
    then Some(seq(|ts|, i requires 0 <= i < |ts| => ts[i].value))
    else None
  }

  function Enclosed(open: Unit, ts: Option<seq<Text>>, close: Unit): Option<Text> {
    if ts.None? then None else Some([open] + (JoinFrom(ts.value, 0) + [close]))
  }

  function Entry(k: Text, v: Option<Text>): Option<Text> {
    if v.None? then None else Some(Quoted(k) + ([COLON] + v.value))
  }

  function Canonical(v: Json, nfc: Text -> Text): Option<Text>
    decreases v
  {
    match v
    case Null => Some([0x6E, 0x75, 0x6C, 0x6C])
    case Bool(b) => Some(if b then [0x74, 0x72, 0x75, 0x65] else [0x66, 0x61, 0x6C, 0x73, 0x65])
    case Number(n) => Some(Decimal(n))
    case Fraction(text) => Some(text)
    case NonFinite => None
    case Str(s) => Some(Quoted(nfc(s)))
    case Unserializable => None
    case Arr(items) =>
      Enclosed(OPEN_BRACKET,
               Collect(seq(|items|, i requires 0 <= i < |items| => Canonical(items[i], nfc))), CLOSE_BRACKET)
    case Obj(ms) =>
      var keys := SortKeys(KeptKeys(ms));
      SortedAreMembers(ms);
      Enclosed(OPEN_BRACE,
               Collect(seq(|keys|, i requires 0 <= i < |keys| =>
                 assert HasMember(ms, keys[i]);
                 Entry(nfc(keys[i]), Canonical(ValueOf(ms, keys[i]), nfc)))), CLOSE_BRACE)
  }

  lemma {:induction false} InsertedElements(k: Text, ks: seq<Text>)
    ensures forall x :: x in Inserted(k, ks) <==> x == k || x in ks
  {
    if ks != [] && !Leq(k, ks[0]) { InsertedElements(k, ks[1..]); }
  }

  lemma {:induction false} SortElements(ks: seq<Text>)
    ensures forall x :: x in SortKeys(ks) <==> x in ks
  {
    if ks != [] {
      SortElements(ks[1..]);
      InsertedElements(ks[0], SortKeys(ks[1..]));
    }
  }

  lemma {:induction false} KeptElements(ms: seq<Member>)
    ensures forall k :: k in KeptKeys(ms) <==> k != SIGNATURE && HasMember(ms, k)
  {
    if ms != [] {
      KeptElements(ms[1..]);
      forall k ensures HasMember(ms, k) <==> ms[0].key == k || HasMember(ms[1..], k) { MemberCons(ms, k); }
    }
  }

  lemma MemberCons(ms: seq<Member>, k: Text)
    requires ms != []
    ensures HasMember(ms, k) <==> ms[0].key == k || HasMember(ms[1..], k)
  {
    if i :| 0 < i < |ms| && ms[i].key == k { assert ms[1..][i - 1].key == k; }
    if i :| 0 <= i < |ms[1..]| && ms[1..][i].key == k { assert ms[i + 1].key == k; }
  }

  lemma SortedAreMembers(ms: seq<Member>)
    ensures forall k :: k in SortKeys(KeptKeys(ms)) <==> k != SIGNATURE && HasMember(ms, k)
  {
    KeptElements(ms);
    SortElements(KeptKeys(ms));
  }

  // ----- What printing alike should mean -----

  /** The numbers given by their texts are fractions. */
  ghost predicate WellFormed(v: Json) {
    match v
    case Fraction(text) => IsFraction(text)
    case Arr(items) => forall i :: 0 <= i < |items| ==> WellFormed(items[i])
    case Obj(ms) => forall i :: 0 <= i < |ms| ==> WellFormed(ms[i].value)
    case _ => true
  }

  ghost predicate DistinctKeys(ms: seq<Member>) {
    forall i, j :: 0 <= i < j < |ms| ==> ms[i].key != ms[j].key
  }

  /** No object has a key twice, as is the nature of objects. */
  ghost predicate AllDistinct(v: Json) {
    match v
    case Arr(items) => forall i :: 0 <= i < |items| ==> AllDistinct(items[i])
    case Obj(ms) => DistinctKeys(ms) && forall i :: 0 <= i < |ms| ==> AllDistinct(ms[i].value)
    case _ => true
  }

  /** Moreover no object has a key twice, and keys are in the normaliser's form already. */
  ghost predicate Proper(v: Json, nfc: Text -> Text) {
    match v
    case Fraction(text) => IsFraction(text)
    case Arr(items) => forall i :: 0 <= i < |items| ==> Proper(items[i], nfc)
    case Obj(ms) =>
      && DistinctKeys(ms)
      && (forall i :: 0 <= i < |ms| ==> nfc(ms[i].key) == ms[i].key && Proper(ms[i].value, nfc))
    case _ => true
  }

  /** Nothing that cannot be printed, outside members named "signature". */
  ghost predicate Clean(v: Json) {
    match v
    case NonFinite => false
    case Unserializable => false
    case Arr(items) => forall i :: 0 <= i < |items| ==> Clean(items[i])
    case Obj(ms) => forall i :: 0 <= i < |ms| && ms[i].key != SIGNATURE ==> Clean(ms[i].value)
    case _ => true
  }

  /** Equal up to the order of members, members named "signature", and the normal form of
      strings. */
  ghost predicate Same(a: Json, b: Json, nfc: Text -> Text) {
    match (a, b)
    case (Str(s), Str(t)) => nfc(s) == nfc(t)
    case (Arr(x), Arr(y)) => |x| == |y| && forall i :: 0 <= i < |x| ==> Same(x[i], y[i], nfc)
    case (Obj(x), Obj(y)) =>
      && (forall k :: k != SIGNATURE ==> (HasMember(x, k) <==> HasMember(y, k)))
      && (forall i, j :: 0 <= i < |x| && 0 <= j < |y| && x[i].key == y[j].key && x[i].key != SIGNATURE ==>
            Same(x[i].value, y[j].value, nfc))
    case _ => a == b
  }

  /** Equal as they are printed: the members of objects in the order of their keys, each with the
      normal form of its key. */
  ghost predicate Alike(a: Json, b: Json, nfc: Text -> Text)
    decreases a
  {
    match (a, b)
    case (Str(s), Str(t)) => nfc(s) == nfc(t)
    case (Arr(x), Arr(y)) => |x| == |y| && forall i :: 0 <= i < |x| ==> Alike(x[i], y[i], nfc)
    case (Obj(x), Obj(y)) =>
      && |Keys(a)| == |Keys(b)|
      && forall i :: 0 <= i < |Keys(a)| ==>
           && HasMember(x, Keys(a)[i]) && HasMember(y, Keys(b)[i]) && nfc(Keys(a)[i]) == nfc(Keys(b)[i])
           && Alike(ValueOf(x, Keys(a)[i]), ValueOf(y, Keys(b)[i]), nfc)
    case _ => a == b
  }

  /** The keys of the hashed members, in order. */
  ghost function Keys(v: Json): seq<Text>
    requires v.Obj?
  {
    SortKeys(KeptKeys(v.members))
  }

  // ----- Keys -----

  lemma {:induction false} LeqTotal(a: Text, b: Text)
    ensures Leq(a, b) || Leq(b, a)
  {
    if a != [] && b != [] { LeqTotal(a[1..], b[1..]); }
  }

  lemma {:induction false} LeqAntisymmetric(a: Text, b: Text)
    requires Leq(a, b) && Leq(b, a)
    ensures a == b
  {
    if a != [] && b != [] {
      LeqAntisymmetric(a[1..], b[1..]);
      assert a == [a[0]] + a[1..] && b == [b[0]] + b[1..];
    }
  }

  lemma {:induction false} LeqTransitive(a: Text, b: Text, c: Text)
    requires Leq(a, b) && Leq(b, c)
    ensures Leq(a, c)
  {
    if a != [] && a[0] == b[0] == c[0] { LeqTransitive(a[1..], b[1..], c[1..]); }
  }

  ghost predicate Sorted(ks: seq<Text>) {
    forall i, j :: 0 <= i < j < |ks| ==> Leq(ks[i], ks[j]) && ks[i] != ks[j]
  }

  /** The first code unit that differs is smaller, or there is none and the text is shorter. */
  ghost predicate Precedes(a: Text, b: Text) {
    (a <= b && a != b) || exists k :: 0 <= k < |a| && k < |b| && a[..k] == b[..k] && a[k] < b[k]
  }

  lemma {:induction false} LeqExactly(a: Text, b: Text)
    ensures Leq(a, b) <==> a == b || Precedes(a, b)
  {
    if a != [] && b != [] {
      LeqExactly(a[1..], b[1..]);
      assert a == [a[0]] + a[1..] && b == [b[0]] + b[1..];
      if a[0] == b[0] { PrecedesBehind(a[0], a[1..], b[1..]); } else { HeadsDecide(a, b); }
      hide Precedes;
    }
  }

  lemma PrecedesBehind(u: Unit, a: Text, b: Text)
    ensures Precedes([u] + a, [u] + b) <==> Precedes(a, b)
  {
    var c, d := [u] + a, [u] + b;
    assert c[1..] == a && d[1..] == b && (c <= d <==> a <= b);
    if k :| 0 <= k < |a| && k < |b| && a[..k] == b[..k] && a[k] < b[k] {
      assert c[..k + 1] == [u] + a[..k] && d[..k + 1] == [u] + b[..k] && c[k + 1] < d[k + 1];
    }
    if k :| 0 < k < |c| && k < |d| && c[..k] == d[..k] && c[k] < d[k] {
      assert a[..k - 1] == c[..k][1..] && b[..k - 1] == d[..k][1..] && a[k - 1] < b[k - 1];
    }
  }

  lemma HeadsDecide(a: Text, b: Text)
    requires a != [] && b != [] && a[0] != b[0]
    ensures Precedes(a, b) <==> a[0] < b[0]
  {
    assert a[..0] == b[..0];
    assert forall k :: 0 < k < |a| && k < |b| ==> a[..k][0] == a[0] && b[..k][0] == b[0];
  }

  lemma {:induction false} InsertedSorted(k: Text, ks: seq<Text>)
    requires Sorted(ks) && k !in ks
    ensures Sorted(Inserted(k, ks))
  {
    if ks != [] {
      LeqTotal(k, ks[0]);
      if Leq(k, ks[0]) {
        forall j | 0 < j < |ks| ensures Leq(k, ks[j]) { LeqTransitive(k, ks[0], ks[j]); }
      } else {
        InsertedSorted(k, ks[1..]);
        InsertedElements(k, ks[1..]);
        var rest := Inserted(k, ks[1..]);
        forall j | 0 <= j < |rest| ensures Leq(ks[0], rest[j]) && ks[0] != rest[j] { assert rest[j] in rest; }
      }
    }
  }

  /** Distinct keys come out as they went in, each before the next by code units. */
  lemma SortSorts(ks: seq<Text>)
    requires forall i, j :: 0 <= i < j < |ks| ==> ks[i] != ks[j]
    ensures forall k :: k in SortKeys(ks) <==> k in ks
    ensures forall i, j :: 0 <= i < j < |SortKeys(ks)| ==> Precedes(SortKeys(ks)[i], SortKeys(ks)[j])
    ensures Sorted(SortKeys(ks))
  {
    SortElements(ks);
    SortIsSorted(ks);
    var s := SortKeys(ks);
    forall i, j | 0 <= i < j < |s| ensures Precedes(s[i], s[j]) { LeqExactly(s[i], s[j]); }
  }

  lemma {:induction false} SortIsSorted(ks: seq<Text>)
    requires forall i, j :: 0 <= i < j < |ks| ==> ks[i] != ks[j]
    ensures Sorted(SortKeys(ks))
  {
    if ks != [] {
      SortIsSorted(ks[1..]);
      SortElements(ks[1..]);
      assert ks[0] !in ks[1..];
      InsertedSorted(ks[0], SortKeys(ks[1..]));
    }
  }

  lemma {:induction false} KeptDistinct(ms: seq<Member>)
    requires forall i, j :: 0 <= i < j < |ms| ==> ms[i].key != ms[j].key
    ensures forall i, j :: 0 <= i < j < |KeptKeys(ms)| ==> KeptKeys(ms)[i] != KeptKeys(ms)[j]
  {
    if ms != [] {
      KeptDistinct(ms[1..]);
      KeptElements(ms[1..]);
      var rest := KeptKeys(ms[1..]);
      forall j | 0 <= j < |rest| ensures rest[j] != ms[0].key { assert rest[j] in rest; }
    }
  }

  /** Sorting forgets the order the keys came in. */
  lemma {:induction false} SortedIsUnique(a: seq<Text>, b: seq<Text>)
    requires Sorted(a) && Sorted(b) && forall k :: k in a <==> k in b
    ensures a == b
  {
    assert forall i :: 0 <= i < |a| ==> a[i] in b;
    assert forall i :: 0 <= i < |b| ==> b[i] in a;
    if a != [] && b != [] {
      HeadLeast(a, b[0]);
      HeadLeast(b, a[0]);
      LeqAntisymmetric(a[0], b[0]);
      forall k ensures k in a[1..] <==> k in b[1..] {
        TailElements(a, k);
        TailElements(b, k);
      }
      SortedIsUnique(a[1..], b[1..]);
      assert a == [a[0]] + a[1..] && b == [b[0]] + b[1..];
    }
  }

  lemma HeadLeast(ks: seq<Text>, k: Text)
    requires Sorted(ks) && k in ks
    ensures Leq(ks[0], k)
  {
    LeqTotal(ks[0], ks[0]);
  }

  lemma TailElements(ks: seq<Text>, k: Text)
    requires Sorted(ks) && ks != []
    ensures k in ks[1..] <==> k in ks && k != ks[0]
  {
    if k in ks && k != ks[0] {
      var i :| 0 <= i < |ks| && ks[i] == k;
      assert ks[1..][i - 1] == k;
    }
  }

  /** Objects with the same hashed keys print them in the same order. */
  lemma SameKeysSortAlike(x: seq<Member>, y: seq<Member>, nfc: Text -> Text)
    requires Proper(Obj(x), nfc) && Proper(Obj(y), nfc)
    requires forall k :: k != SIGNATURE ==> (HasMember(x, k) <==> HasMember(y, k))
    ensures SortKeys(KeptKeys(x)) == SortKeys(KeptKeys(y))
  {
    KeptDistinct(x);
    KeptDistinct(y);
    SortSorts(KeptKeys(x));
    SortSorts(KeptKeys(y));
    SortedAreMembers(x);
    SortedAreMembers(y);
    SortedIsUnique(SortKeys(KeptKeys(x)), SortKeys(KeptKeys(y)));
  }

  // ----- Numbers -----

  lemma {:induction false} DigitsAreDigits(n: nat)
    ensures forall i :: 0 <= i < |Digits(n)| ==> IsDigit(Digits(n)[i])
  {
    if n >= 10 { DigitsAreDigits(n / 10); }
  }

  lemma {:induction false} DigitsInjective(n: nat, m: nat)
    requires Digits(n) == Digits(m)
    ensures n == m
  {
    var d, e := Digits(n), Digits(m);
    assert d[|d| - 1] == e[|e| - 1];
    assert (n >= 10 <==> |d| > 1) && (m >= 10 <==> |e| > 1);
    if n >= 10 {
      assert d[..|d| - 1] == Digits(n / 10) && e[..|e| - 1] == Digits(m / 10);
      DigitsInjective(n / 10, m / 10);
    }
  }

  /** A text that may stand behind a printed value. */
  predicate Follows(x: Text) {
    x == [] || x[0] == COMMA || x[0] == CLOSE_BRACKET || x[0] == CLOSE_BRACE
  }

  lemma SplitEqual(a: Text, x: Text, b: Text, y: Text)
    requires a + x == b + y && |a| == |b|
    ensures a == b && x == y
  {
    assert (a + x)[..|a|] == a && (b + y)[..|b|] == b;
    assert (a + x)[|a|..] == x && (b + y)[|b|..] == y;
  }

  /** The signs of a number. */
  predicate IsNumberUnit(u: Unit) { IsDigit(u) || u == MINUS || u == 0x2B || u == 0x2E || u == 0x65 || u == 0x45 }

  predicate IsNumberToken(t: Text) {
    t != [] && (IsDigit(t[0]) || t[0] == MINUS) && forall i :: 0 <= i < |t| ==> IsNumberUnit(t[i])
  }

  /** A number ends where its signs end. */
  lemma TokensUnambiguous(s: Text, x: Text, t: Text, y: Text)
    requires IsNumberToken(s) && IsNumberToken(t) && s + x == t + y && Follows(x) && Follows(y)
    ensures s == t && x == y
  {
    TokenShorter(s, x, t, y);
    TokenShorter(t, y, s, x);
    SplitEqual(s, x, t, y);
  }

  lemma TokenShorter(s: Text, x: Text, t: Text, y: Text)
    requires IsNumberToken(t) && s + x == t + y && Follows(x)
    ensures |s| >= |t|
  {
    var u, k := s + x, |s|;
    assert forall i :: 0 <= i < |t| ==> u[i] == t[i];
    assert k < |u| ==> !IsNumberUnit(u[k]);
  }

  lemma DecimalIsToken(n: int)
    ensures IsNumberToken(Decimal(n)) && forall i :: 0 < i < |Decimal(n)| ==> IsDigit(Decimal(n)[i])
  {
    if n < 0 {
      DigitsAreDigits(-n);
      MinusInFront(Digits(-n));
    } else {
      DigitsAreDigits(n);
    }
    hide Digits;
  }

  lemma MinusInFront(t: Text)
    requires AllDigits(t)
    ensures IsNumberToken([MINUS] + t) && forall i :: 0 < i < |[MINUS] + t| ==> IsDigit(([MINUS] + t)[i])
  {
    forall i | 0 < i < |[MINUS] + t| ensures IsDigit(([MINUS] + t)[i]) { assert ([MINUS] + t)[i] == t[i - 1]; }
  }

  lemma DecimalInjective(n: int, m: int)
    requires Decimal(n) == Decimal(m)
    ensures n == m
  {
    DecimalHead(n);
    DecimalHead(m);
    if n < 0 {
      assert Decimal(n)[1..] == Digits(-n) && Decimal(m)[1..] == Digits(-m);
      DigitsInjective(-n, -m);
    } else {
      DigitsInjective(n, m);
    }
  }

  /** A fraction is a number token, and no integer prints like it. */
  lemma FractionIsToken(t: Text)
    requires IsFraction(t)
    ensures IsNumberToken(t) && exists i :: 0 < i < |t| && !IsDigit(t[i])
  {
    var sign, whole, fraction, exponent :|
      IsNumber(sign, whole, fraction, exponent) && (fraction != [] || exponent != []) &&
        t == sign + whole + fraction + exponent;
    FractionUnits(fraction);
    ExponentUnits(exponent);
    hide AllDigits, IsExponent;
    var k := |sign| + |whole|;
    assert t[k] == (fraction + exponent)[0];
  }

  lemma FractionUnits(t: Text)
    requires t == [] || (t[0] == 0x2E && AllDigits(t[1..]))
    ensures forall i :: 0 <= i < |t| ==> IsNumberUnit(t[i])
  {
    assert forall i :: 0 < i < |t| ==> t[i] == t[1..][i - 1];
  }

  lemma ExponentUnits(t: Text)
    ensures IsExponent(t) ==> forall i :: 0 <= i < |t| ==> IsNumberUnit(t[i])
  {
    if IsExponent(t) {
      if t[1] == 0x2B || t[1] == 0x2D {
        assert forall i :: 2 <= i < |t| ==> t[i] == t[2..][i - 2];
      } else {
        assert forall i :: 1 <= i < |t| ==> t[i] == t[1..][i - 1];
      }
    }
  }

  ghost predicate IsNumeric(v: Json) { v.Number? || v.Fraction? }

  lemma NumericIsToken(v: Json, nfc: Text -> Text)
    requires IsNumeric(v) && WellFormed(v)
    ensures Canonical(v, nfc).Some? && IsNumberToken(Canonical(v, nfc).value)
  {
    if v.Number? { DecimalIsToken(v.n); } else { FractionIsToken(v.text); }
  }

  lemma NumbersUnambiguous(a: Json, x: Text, b: Json, y: Text, nfc: Text -> Text)
    requires IsNumeric(a) && IsNumeric(b) && WellFormed(a) && WellFormed(b) && Follows(x) && Follows(y)
    requires Canonical(a, nfc).Some? && Canonical(b, nfc).Some? &&
             Canonical(a, nfc).value + x == Canonical(b, nfc).value + y
    ensures a == b && x == y
  {
    NumericIsToken(a, nfc);
    NumericIsToken(b, nfc);
    TokensUnambiguous(Canonical(a, nfc).value, x, Canonical(b, nfc).value, y);
    if a.Number? && b.Number? {
      DecimalInjective(a.n, b.n);
    } else if a.Number? {
      DecimalIsToken(a.n);
      FractionIsToken(b.text);
    } else if b.Number? {
      DecimalIsToken(b.n);
      FractionIsToken(a.text);
    }
  }

  lemma DecimalHead(n: int)
    ensures n < 0 <==> Decimal(n)[0] == MINUS
    ensures n >= 0 ==> IsDigit(Decimal(n)[0])
  {
    if n >= 0 { DigitsAreDigits(n); }
  }

  // ----- Printed values can be told apart -----

  /** The first code unit tells the kind of value. */
  lemma FirstUnit(v: Json, nfc: Text -> Text)
    requires Canonical(v, nfc).Some? && WellFormed(v)
    ensures var t := Canonical(v, nfc).value;
      && t != []
      && (v.Null? <==> t[0] == 0x6E) && (v == Bool(true) <==> t[0] == 0x74) && (v == Bool(false) <==> t[0] == 0x66)
      && (IsNumeric(v) <==> t[0] == MINUS || IsDigit(t[0])) && (v.Str? <==> t[0] == QUOTE)
      && (v.Arr? <==> t[0] == OPEN_BRACKET) && (v.Obj? <==> t[0] == OPEN_BRACE)
  {
    if IsNumeric(v) { NumericIsToken(v, nfc); }
  }

  ghost predicate Printable(v: Json, nfc: Text -> Text) {
    Canonical(v, nfc).Some? && WellFormed(v)
  }

  ghost function Printed(v: Json, nfc: Text -> Text): Text
    requires Canonical(v, nfc).Some?
  {
    Canonical(v, nfc).value
  }

  /** The texts of an array's items. */
  ghost function Items(v: Json, nfc: Text -> Text): seq<Text>
    requires v.Arr? && Canonical(v, nfc).Some?
  {
    Collect(seq(|v.items|, i requires 0 <= i < |v.items| => Canonical(v.items[i], nfc))).value
  }

  /** The texts of an object's members. */
  ghost function Entries(v: Json, nfc: Text -> Text): seq<Text>
    requires v.Obj? && Canonical(v, nfc).Some?
  {
    SortedAreMembers(v.members);
    var keys := Keys(v);
    Collect(seq(|keys|, i requires 0 <= i < |keys| =>
      Entry(nfc(keys[i]), Canonical(ValueOf(v.members, keys[i]), nfc)))).value
  }

  lemma ItemsFacts(v: Json, nfc: Text -> Text, x: Text)
    requires v.Arr? && Printable(v, nfc)
    ensures |Items(v, nfc)| == |v.items|
    ensures forall i :: 0 <= i < |v.items| ==>
            Printable(v.items[i], nfc) && Items(v, nfc)[i] == Printed(v.items[i], nfc)
    ensures Printed(v, nfc) + x == [OPEN_BRACKET] + (JoinFrom(Items(v, nfc), 0) + ([CLOSE_BRACKET] + x))
  {
    var ts := seq(|v.items|, i requires 0 <= i < |v.items| => Canonical(v.items[i], nfc));
    forall i | 0 <= i < |v.items| ensures Canonical(v.items[i], nfc).Some? { assert ts[i].Some?; }
  }

  lemma EntriesFacts(v: Json, nfc: Text -> Text, x: Text)
    requires v.Obj? && Printable(v, nfc)
    ensures |Entries(v, nfc)| == |Keys(v)|
    ensures Printed(v, nfc) + x == [OPEN_BRACE] + (JoinFrom(Entries(v, nfc), 0) + ([CLOSE_BRACE] + x))
  {
    hide Quoted, JoinFrom, SortKeys, KeptKeys, Proper;
  }

  lemma EntryFacts(v: Json, nfc: Text -> Text, i: nat)
    requires v.Obj? && Printable(v, nfc) && i < |Keys(v)|
    ensures |Entries(v, nfc)| == |Keys(v)| && Keys(v)[i] != SIGNATURE && HasMember(v.members, Keys(v)[i])
    ensures Printable(ValueOf(v.members, Keys(v)[i]), nfc)
    ensures Entries(v, nfc)[i] == Quoted(nfc(Keys(v)[i])) + ([COLON] + Printed(ValueOf(v.members, Keys(v)[i]), nfc))
  {
    hide Quoted, JoinFrom, SortKeys, KeptKeys;
    SortedAreMembers(v.members);
    var keys := Keys(v);
    var ts := seq(|keys|, i requires 0 <= i < |keys| =>
      Entry(nfc(keys[i]), Canonical(ValueOf(v.members, keys[i]), nfc)));
    assert ts[i].Some?;
    assert keys[i] in keys;
    assert Collect(ts).Some?;
    var m :| 0 <= m < |v.members| && v.members[m].key == keys[i] && v.members[m].value == ValueOf(v.members, keys[i]);
  }

  lemma ProperMember(ms: seq<Member>, k: Text, nfc: Text -> Text)
    requires Proper(Obj(ms), nfc) && HasMember(ms, k)
    ensures nfc(k) == k && Proper(ValueOf(ms, k), nfc)
  {
    var i :| 0 <= i < |ms| && ms[i].key == k && ms[i].value == ValueOf(ms, k);
  }

  /** Two joined texts that read alike, one of them after equal first parts: what is behind
      tells whether there is more. */
  lemma BehindTells(ts: seq<Text>, us: seq<Text>, i: nat, close: Unit, x: Text, y: Text)
    requires i < |ts| && i < |us| && close != COMMA && Behind(ts, i, close, x) == Behind(us, i, close, y)
    ensures i + 1 < |ts| <==> i + 1 < |us|
    ensures i + 1 >= |ts| ==> x == y
    ensures i + 1 < |ts| ==> JoinFrom(ts, i + 1) + ([close] + x) == JoinFrom(us, i + 1) + ([close] + y)
  {
    var p, q := Behind(ts, i, close, x), Behind(us, i, close, y);
    assert p[0] == q[0];
    if i + 1 < |ts| {
      assert p[1..] == JoinFrom(ts, i + 1) + ([close] + x);
      assert q[1..] == JoinFrom(us, i + 1) + ([close] + y);
    } else {
      assert p[1..] == x && q[1..] == y;
    }
  }

  /** A printed value tells where it ends and, up to what printing forgets, which value it is. */
  lemma {:induction false} Unambiguous(a: Json, b: Json, nfc: Text -> Text, x: Text, y: Text)
    requires Printable(a, nfc) && Printable(b, nfc) && Follows(x) && Follows(y)
    requires Printed(a, nfc) + x == Printed(b, nfc) + y
    ensures Alike(a, b, nfc) && x == y
    decreases a, 1, 0
  {
    SameKind(a, b, nfc, x, y);
    hide Decimal, Quoted, Follows;
    if IsNumeric(a) {
      NumbersUnambiguous(a, x, b, y, nfc);
    } else if a.Str? {
      QuotedIsUnambiguous(nfc(a.s), x, nfc(b.s), y);
    } else if a.Arr? {
      ArraysUnambiguous(a, b, nfc, x, y);
    } else if a.Obj? {
      ObjectsUnambiguous(a, b, nfc, x, y);
    } else {
      SplitEqual(Printed(a, nfc), x, Printed(b, nfc), y);
    }
  }

  lemma SameKind(a: Json, b: Json, nfc: Text -> Text, x: Text, y: Text)
    requires Printable(a, nfc) && Printable(b, nfc) && Printed(a, nfc) + x == Printed(b, nfc) + y
    ensures (a.Null? <==> b.Null?) && (a.Bool? ==> a == b) && (b.Bool? ==> a == b) && (IsNumeric(a) <==> IsNumeric(b))
    ensures (a.Str? <==> b.Str?) && (a.Arr? <==> b.Arr?) && (a.Obj? <==> b.Obj?)
  {
    FirstUnit(a, nfc);
    FirstUnit(b, nfc);
    hide Canonical;
    assert Printed(a, nfc)[0] == (Printed(a, nfc) + x)[0] && Printed(b, nfc)[0] == (Printed(b, nfc) + y)[0];
  }

  lemma {:induction false} ArraysUnambiguous(a: Json, b: Json, nfc: Text -> Text, x: Text, y: Text)
    requires a.Arr? && b.Arr? && Printable(a, nfc) && Printable(b, nfc)
    requires Printed(a, nfc) + x == Printed(b, nfc) + y
    ensures Alike(a, b, nfc) && x == y
    decreases a, 0, |a.items| + 1
  {
    hide Canonical, JoinFrom, WellFormed;
    ItemsFacts(a, nfc, x);
    ItemsFacts(b, nfc, y);
    var p := JoinFrom(Items(a, nfc), 0) + ([CLOSE_BRACKET] + x);
    var q := JoinFrom(Items(b, nfc), 0) + ([CLOSE_BRACKET] + y);
    assert ([OPEN_BRACKET] + p)[1..] == p && ([OPEN_BRACKET] + q)[1..] == q;
    ArrayHead(a, nfc, x);
    ArrayHead(b, nfc, y);
    if a.items != [] {
      ItemsUnambiguous(a, b, nfc, 0, x, y);
    } else {
      assert p[1..] == x && q[1..] == y;
    }
  }

  lemma ArrayHead(a: Json, nfc: Text -> Text, x: Text)
    requires a.Arr? && Printable(a, nfc)
    ensures var p := JoinFrom(Items(a, nfc), 0) + ([CLOSE_BRACKET] + x);
            if a.items == [] then p == [CLOSE_BRACKET] + x else p[0] != CLOSE_BRACKET
  {
    ItemsFacts(a, nfc, x);
    if a.items != [] {
      JoinSplits(Items(a, nfc), 0, CLOSE_BRACKET, x);
      FirstUnit(a.items[0], nfc);
    }
  }

  lemma {:induction false} ItemsUnambiguous(a: Json, b: Json, nfc: Text -> Text, i: nat, x: Text, y: Text)
    requires a.Arr? && b.Arr? && Printable(a, nfc) && Printable(b, nfc) && i < |a.items| && i < |b.items|
    requires JoinFrom(Items(a, nfc), i) + ([CLOSE_BRACKET] + x) == JoinFrom(Items(b, nfc), i) + ([CLOSE_BRACKET] + y)
    ensures x == y && |a.items| == |b.items|
    ensures forall j :: i <= j < |a.items| ==> Alike(a.items[j], b.items[j], nfc)
    decreases a, 0, |a.items| - i
  {
    hide Canonical, JoinFrom, WellFormed, Alike;
    var ts, us := Items(a, nfc), Items(b, nfc);
    ItemsFacts(a, nfc, x);
    ItemsFacts(b, nfc, y);
    JoinSplits(ts, i, CLOSE_BRACKET, x);
    JoinSplits(us, i, CLOSE_BRACKET, y);
    Unambiguous(a.items[i], b.items[i], nfc, Behind(ts, i, CLOSE_BRACKET, x), Behind(us, i, CLOSE_BRACKET, y));
    BehindTells(ts, us, i, CLOSE_BRACKET, x, y);
    if i + 1 < |a.items| { ItemsUnambiguous(a, b, nfc, i + 1, x, y); }
  }

  lemma {:induction false} ObjectsUnambiguous(a: Json, b: Json, nfc: Text -> Text, x: Text, y: Text)
    requires a.Obj? && b.Obj? && Printable(a, nfc) && Printable(b, nfc)
    requires Printed(a, nfc) + x == Printed(b, nfc) + y
    ensures Alike(a, b, nfc) && x == y
    decreases a, 0, |Keys(a)| + 1
  {
    hide Canonical, JoinFrom, WellFormed, Alike;
    EntriesFacts(a, nfc, x);
    EntriesFacts(b, nfc, y);
    var p := JoinFrom(Entries(a, nfc), 0) + ([CLOSE_BRACE] + x);
    var q := JoinFrom(Entries(b, nfc), 0) + ([CLOSE_BRACE] + y);
    assert ([OPEN_BRACE] + p)[1..] == p && ([OPEN_BRACE] + q)[1..] == q;
    ObjectHead(a, nfc, x);
    ObjectHead(b, nfc, y);
    if Keys(a) != [] {
      MembersUnambiguous(a, b, nfc, 0, x, y);
    } else {
      assert p[1..] == x && q[1..] == y;
    }
    AlikeMembers(a, b, nfc);
  }

  lemma ObjectHead(a: Json, nfc: Text -> Text, x: Text)
    requires a.Obj? && Printable(a, nfc)
    ensures var p := JoinFrom(Entries(a, nfc), 0) + ([CLOSE_BRACE] + x);
            if Keys(a) == [] then p == [CLOSE_BRACE] + x else p[0] == QUOTE
  {
    EntriesFacts(a, nfc, x);
    if Keys(a) != [] {
      JoinSplits(Entries(a, nfc), 0, CLOSE_BRACE, x);
      EntryFacts(a, nfc, 0);
    }
  }

  lemma {:induction false} MembersUnambiguous(a: Json, b: Json, nfc: Text -> Text, i: nat, x: Text, y: Text)
    requires a.Obj? && b.Obj? && Printable(a, nfc) && Printable(b, nfc) && i < |Keys(a)| && i < |Keys(b)|
    requires JoinFrom(Entries(a, nfc), i) + ([CLOSE_BRACE] + x) == JoinFrom(Entries(b, nfc), i) + ([CLOSE_BRACE] + y)
    ensures x == y && |Keys(a)| == |Keys(b)|
    ensures forall j :: i <= j < |Keys(a)| ==> AlikeAt(a, b, nfc, j)
    decreases a, 0, |Keys(a)| - i
  {
    hide Canonical, JoinFrom, WellFormed, Alike, Quoted, SortKeys, KeptKeys, Entries, Keys, ValueOf, HasMember,
      Follows, Behind;
    var ts, us := Entries(a, nfc), Entries(b, nfc);
    assert Follows(Behind(ts, i, CLOSE_BRACE, x)) && Follows(Behind(us, i, CLOSE_BRACE, y)) by {
      BehindFollows(ts, i, CLOSE_BRACE, x);
      BehindFollows(us, i, CLOSE_BRACE, y);
    }
    EntryFacts(a, nfc, i);
    EntryFacts(b, nfc, i);
    JoinSplits(ts, i, CLOSE_BRACE, x);
    JoinSplits(us, i, CLOSE_BRACE, y);
    var v, w := ValueOf(a.members, Keys(a)[i]), ValueOf(b.members, Keys(b)[i]);
    var p, q := Behind(ts, i, CLOSE_BRACE, x), Behind(us, i, CLOSE_BRACE, y);
    EntryTells(nfc(Keys(a)[i]), Printed(v, nfc), p, nfc(Keys(b)[i]), Printed(w, nfc), q);
    Unambiguous(v, w, nfc, p, q);
    BehindTells(ts, us, i, CLOSE_BRACE, x, y);
    if i + 1 < |Keys(a)| { MembersUnambiguous(a, b, nfc, i + 1, x, y); }
  }

  lemma BehindFollows(ts: seq<Text>, i: nat, close: Unit, x: Text)
    requires close == CLOSE_BRACKET || close == CLOSE_BRACE
    ensures Follows(Behind(ts, i, close, x))
  {
  }

  lemma EntryTells(k: Text, v: Text, x: Text, l: Text, w: Text, y: Text)
    requires Quoted(k) + ([COLON] + v) + x == Quoted(l) + ([COLON] + w) + y
    ensures k == l && v + x == w + y
  {
    hide Quoted;
    assert Quoted(k) + ([COLON] + v) + x == Quoted(k) + ([COLON] + (v + x));
    assert Quoted(l) + ([COLON] + w) + y == Quoted(l) + ([COLON] + (w + y));
    QuotedIsUnambiguous(k, [COLON] + (v + x), l, [COLON] + (w + y));
    assert ([COLON] + (v + x))[1..] == v + x && ([COLON] + (w + y))[1..] == w + y;
  }

  ghost predicate AlikeAt(a: Json, b: Json, nfc: Text -> Text, j: int)
    requires a.Obj? && b.Obj?
  {
    && 0 <= j < |Keys(a)| && j < |Keys(b)| && nfc(Keys(a)[j]) == nfc(Keys(b)[j])
    && HasMember(a.members, Keys(a)[j]) && HasMember(b.members, Keys(b)[j])
    && Alike(ValueOf(a.members, Keys(a)[j]), ValueOf(b.members, Keys(b)[j]), nfc)
  }

  lemma AlikeMembers(a: Json, b: Json, nfc: Text -> Text)
    requires a.Obj? && b.Obj? && |Keys(a)| == |Keys(b)|
    requires forall j :: 0 <= j < |Keys(a)| ==> AlikeAt(a, b, nfc, j)
    ensures Alike(a, b, nfc)
  {
    hide Keys, HasMember, ValueOf;
    forall i | 0 <= i < |Keys(a)|
      ensures HasMember(a.members, Keys(a)[i]) && HasMember(b.members, Keys(b)[i]) && nfc(Keys(a)[i]) == nfc(Keys(b)[i])
      ensures Alike(ValueOf(a.members, Keys(a)[i]), ValueOf(b.members, Keys(b)[i]), nfc)
    {
      assert AlikeAt(a, b, nfc, i);
    }
  }

  lemma OneValue(ms: seq<Member>, i: nat)
    requires DistinctKeys(ms) && i < |ms|
    ensures HasMember(ms, ms[i].key) && ValueOf(ms, ms[i].key) == ms[i].value
  {
    var k := ms[i].key;
    assert HasMember(ms, k);
    var j :| 0 <= j < |ms| && ms[j].key == k && ms[j].value == ValueOf(ms, k);
  }

  /** Values that are alike print alike. */
  lemma {:induction false} AlikePrintsAlike(a: Json, b: Json, nfc: Text -> Text)
    requires Alike(a, b, nfc)
    ensures Canonical(a, nfc) == Canonical(b, nfc)
    decreases a
  {
    if a.Arr? {
      var ts := seq(|a.items|, i requires 0 <= i < |a.items| => Canonical(a.items[i], nfc));
      var us := seq(|b.items|, i requires 0 <= i < |b.items| => Canonical(b.items[i], nfc));
      forall i | 0 <= i < |a.items| ensures ts[i] == us[i] { AlikePrintsAlike(a.items[i], b.items[i], nfc); }
      assert ts == us;
    } else if a.Obj? {
      SortedAreMembers(a.members);
      SortedAreMembers(b.members);
      var ka, kb := Keys(a), Keys(b);
      var ts := seq(|ka|, i requires 0 <= i < |ka| => Entry(nfc(ka[i]), Canonical(ValueOf(a.members, ka[i]), nfc)));
      var us := seq(|kb|, i requires 0 <= i < |kb| => Entry(nfc(kb[i]), Canonical(ValueOf(b.members, kb[i]), nfc)));
      forall i | 0 <= i < |ka| ensures ts[i] == us[i] {
        assert HasMember(a.members, ka[i]) && HasMember(b.members, kb[i]);
        AlikePrintsAlike(ValueOf(a.members, ka[i]), ValueOf(b.members, kb[i]), nfc);
      }
      assert ts == us;
    }
  }

  /** For any keys and any finite numbers: two printable values print alike exactly when they are
      alike. */
  lemma CanonicalExactly(a: Json, b: Json, nfc: Text -> Text)
    requires WellFormed(a) && WellFormed(b) && Canonical(a, nfc).Some?
    ensures Canonical(a, nfc) == Canonical(b, nfc) <==> Alike(a, b, nfc)
  {
    if Canonical(a, nfc) == Canonical(b, nfc) {
      Unambiguous(a, b, nfc, [], []);
    } else if Alike(a, b, nfc) {
      AlikePrintsAlike(a, b, nfc);
    }
  }

  // ----- Keys in normal form: the order of members is forgotten, and nothing else -----

  lemma {:induction false} ProperIsWellFormed(v: Json, nfc: Text -> Text)
    requires Proper(v, nfc)
    ensures WellFormed(v)
  {
    match v
    case Arr(items) => forall i | 0 <= i < |items| ensures WellFormed(items[i]) { ProperIsWellFormed(items[i], nfc); }
    case Obj(ms) => forall i | 0 <= i < |ms| ensures WellFormed(ms[i].value) { ProperIsWellFormed(ms[i].value, nfc); }
    case _ =>
  }

  /** Then values are alike exactly when they are the same up to order. */
  lemma {:induction false} AlikeIsSame(a: Json, b: Json, nfc: Text -> Text)
    requires Proper(a, nfc) && Proper(b, nfc)
    ensures Alike(a, b, nfc) <==> Same(a, b, nfc)
    decreases a, 1
  {
    if a.Arr? && b.Arr? {
      if |a.items| == |b.items| {
        forall i | 0 <= i < |a.items|
          ensures Alike(a.items[i], b.items[i], nfc) <==> Same(a.items[i], b.items[i], nfc) {
          AlikeIsSame(a.items[i], b.items[i], nfc);
        }
      }
    } else if a.Obj? && b.Obj? {
      if Alike(a, b, nfc) { AlikeObjectsAreSame(a, b, nfc); }
      if Same(a, b, nfc) { SameObjectsAreAlike(a, b, nfc); }
    }
  }

  lemma {:induction false} AlikeObjectsAreSame(a: Json, b: Json, nfc: Text -> Text)
    requires a.Obj? && b.Obj? && Proper(a, nfc) && Proper(b, nfc) && Alike(a, b, nfc)
    ensures Same(a, b, nfc)
    decreases a, 0
  {
    var x, y := a.members, b.members;
    SortedAreMembers(x);
    SortedAreMembers(y);
    assert Keys(a) == Keys(b) by {
      forall j | 0 <= j < |Keys(a)| ensures Keys(a)[j] == Keys(b)[j] {
        ProperMember(x, Keys(a)[j], nfc);
        ProperMember(y, Keys(b)[j], nfc);
      }
    }
    forall i, j | 0 <= i < |x| && 0 <= j < |y| && x[i].key == y[j].key && x[i].key != SIGNATURE
      ensures Same(x[i].value, y[j].value, nfc)
    {
      var k := x[i].key;
      assert HasMember(x, k);
      var n :| 0 <= n < |Keys(a)| && Keys(a)[n] == k;
      OneValue(x, i);
      OneValue(y, j);
      assert Alike(x[i].value, y[j].value, nfc);
      AlikeIsSame(x[i].value, y[j].value, nfc);
    }
  }

  lemma {:induction false} SameObjectsAreAlike(a: Json, b: Json, nfc: Text -> Text)
    requires a.Obj? && b.Obj? && Proper(a, nfc) && Proper(b, nfc) && Same(a, b, nfc)
    ensures Alike(a, b, nfc)
    decreases a, 0
  {
    SameKeysSortAlike(a.members, b.members, nfc);
    SortedAreMembers(a.members);
    SortedAreMembers(b.members);
    hide Alike;
    forall i | 0 <= i < |Keys(a)| ensures AlikeAt(a, b, nfc, i) {
      var k := Keys(a)[i];
      assert k in Keys(a);
      var m, n := SameValues(a, b, nfc, k);
      AlikeIsSame(a.members[m].value, b.members[n].value, nfc);
    }
    AlikeMembers(a, b, nfc);
  }

  lemma SameValues(a: Json, b: Json, nfc: Text -> Text, k: Text) returns (m: nat, n: nat)
    requires a.Obj? && b.Obj? && Proper(a, nfc) && Proper(b, nfc) && Same(a, b, nfc)
    requires k != SIGNATURE && HasMember(a.members, k) && HasMember(b.members, k)
    ensures m < |a.members| && a.members[m].value == ValueOf(a.members, k) && Proper(a.members[m].value, nfc) &&
            nfc(k) == k
    ensures n < |b.members| && b.members[n].value == ValueOf(b.members, k) && Proper(b.members[n].value, nfc)
    ensures Same(a.members[m].value, b.members[n].value, nfc)
  {
    ProperMember(a.members, k, nfc);
    ProperMember(b.members, k, nfc);
    m :| 0 <= m < |a.members| && a.members[m].key == k && a.members[m].value == ValueOf(a.members, k);
    n :| 0 <= n < |b.members| && b.members[n].key == k && b.members[n].value == ValueOf(b.members, k);
  }

  /** Two printable values print alike exactly when they are the same. */
  lemma CanonicalIsUnambiguous(a: Json, b: Json, nfc: Text -> Text)
    requires Proper(a, nfc) && Proper(b, nfc) && Canonical(a, nfc).Some?
    ensures Canonical(a, nfc) == Canonical(b, nfc) <==> Same(a, b, nfc)
  {
    ProperIsWellFormed(a, nfc);
    ProperIsWellFormed(b, nfc);
    CanonicalExactly(a, b, nfc);
    AlikeIsSame(a, b, nfc);
  }

  /** The printer throws exactly on values that hold something unprintable. */
  lemma {:induction false} CanonicalSucceeds(v: Json, nfc: Text -> Text)
    requires AllDistinct(v)
    ensures Canonical(v, nfc).Some? <==> Clean(v)
    decreases v
  {
    if v.Arr? {
      var ts := seq(|v.items|, i requires 0 <= i < |v.items| => Canonical(v.items[i], nfc));
      forall i | 0 <= i < |v.items| ensures ts[i].Some? <==> Clean(v.items[i]) { CanonicalSucceeds(v.items[i], nfc); }
      assert Canonical(v, nfc).Some? <==> forall i :: 0 <= i < |ts| ==> ts[i].Some?;
    } else if v.Obj? {
      var ms := v.members;
      SortedAreMembers(ms);
      var keys := Keys(v);
      var ts := seq(|keys|, i requires 0 <= i < |keys| => Entry(nfc(keys[i]), Canonical(ValueOf(ms, keys[i]), nfc)));
      forall i | 0 <= i < |ms| && ms[i].key != SIGNATURE
        ensures Canonical(ms[i].value, nfc).Some? <==> Clean(ms[i].value) {
        CanonicalSucceeds(ms[i].value, nfc);
      }
      if forall i :: 0 <= i < |ts| ==> ts[i].Some? {
        forall i | 0 <= i < |ms| && ms[i].key != SIGNATURE ensures Clean(ms[i].value) {
          OneValue(ms, i);
          var n :| 0 <= n < |keys| && keys[n] == ms[i].key;
          assert ts[n].Some?;
        }
      } else if Clean(v) {
        forall n | 0 <= n < |keys| ensures ts[n].Some? {
          assert keys[n] in keys;
          var i :| 0 <= i < |ms| && ms[i].key == keys[n] && ms[i].value == ValueOf(ms, keys[n]);
        }
      }
    }
  }
}
