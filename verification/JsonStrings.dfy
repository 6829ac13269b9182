/** JSON tokens over UTF-16 code units: the grammar of numbers (RFC 8259, section 6), and how
    JSON.stringify writes strings and JSON.parse reads them (section 7). */
module JsonStrings {
  import opened Prelude

  newtype Unit = x: int | 0 <= x < 0x1_0000

  type Text = seq<Unit>

  const QUOTE: Unit := 0x22
  const COMMA: Unit := 0x2C
  const COLON: Unit := 0x3A
  const BACKSLASH: Unit := 0x5C
  const OPEN_BRACKET: Unit := 0x5B
  const CLOSE_BRACKET: Unit := 0x5D
  const OPEN_BRACE: Unit := 0x7B
  const CLOSE_BRACE: Unit := 0x7D
  const LETTER_U: Unit := 0x75

  // ----- Lists of texts -----

  /** The texts from the `i`-th on, separated by commas. */
  function JoinFrom(ts: seq<Text>, i: nat): Text
    decreases |ts| - i
  {
    if i >= |ts| then []
    else if i + 1 == |ts| then ts[i]
    else ts[i] + ([COMMA] + JoinFrom(ts, i + 1))
  }

  /** What stands behind the `i`-th text: a comma and the others, or the closing bracket. */
  function Behind(ts: seq<Text>, i: nat, close: Unit, x: Text): Text {
    if i + 1 >= |ts| then [close] + x else [COMMA] + (JoinFrom(ts, i + 1) + ([close] + x))
  }

  lemma JoinSplits(ts: seq<Text>, i: nat, close: Unit, x: Text)
    requires i < |ts|
    ensures JoinFrom(ts, i) + ([close] + x) == ts[i] + Behind(ts, i, close, x)
  {
  }

  // ----- Numbers -----

  predicate IsDigit(u: Unit) { 0x30 <= u <= 0x39 }

  predicate AllDigits(t: Text) {
    t != [] && forall i :: 0 <= i < |t| ==> IsDigit(t[i])
  }

  /** The grammar, part by part. */
  predicate IsNumber(sign: Text, whole: Text, fraction: Text, exponent: Text) {
    && (sign == [] || sign == [0x2D])
    && AllDigits(whole) && (whole[0] == 0x30 ==> |whole| == 1)
    && (fraction == [] || (fraction[0] == 0x2E && AllDigits(fraction[1..])))
    && (exponent == [] || IsExponent(exponent))
  }

  predicate IsExponent(t: Text) {
    && |t| >= 2 && (t[0] == 0x65 || t[0] == 0x45)
    && AllDigits(if t[1] == 0x2B || t[1] == 0x2D then t[2..] else t[1..])
  }

  /** A number written with a fraction or an exponent. */
  ghost predicate IsFraction(t: Text) {
    exists sign, whole, fraction, exponent ::
      IsNumber(sign, whole, fraction, exponent) && (fraction != [] || exponent != []) &&
        t == sign + whole + fraction + exponent
  }

  // ----- Writing -----

  predicate IsHigh(u: Unit) { 0xD800 <= u <= 0xDBFF }

  predicate IsLow(u: Unit) { 0xDC00 <= u <= 0xDFFF }

  function HexDigit(d: nat): Unit
    requires d < 16
  {
    if d < 10 then 0x30 + d as Unit else 0x57 + d as Unit
  }

  function UnicodeEscape(u: Unit): Text {
    var n := u as nat;
    [BACKSLASH, LETTER_U, HexDigit(n / 4096), HexDigit(n / 256 % 16), HexDigit(n / 16 % 16), HexDigit(n % 16)]
  }

  /** A code unit that is not half of a surrogate pair. */
  function Escaped(u: Unit): (t: Text)
    ensures t != []
  {
    if u == 0x08 then [BACKSLASH, 0x62]
    else if u == 0x09 then [BACKSLASH, 0x74]
    else if u == 0x0A then [BACKSLASH, 0x6E]
    else if u == 0x0C then [BACKSLASH, 0x66]
    else if u == 0x0D then [BACKSLASH, 0x72]
    else if u == QUOTE || u == BACKSLASH then [BACKSLASH, u]
    else if u < 0x20 || IsHigh(u) || IsLow(u) then UnicodeEscape(u)
    else [u]
  }

  /** The inside of a string token: surrogate pairs stand for themselves, lone ones are escaped. */
  function Body(s: Text): Text {
    if s == [] then []
    else if |s| > 1 && IsHigh(s[0]) && IsLow(s[1]) then [s[0], s[1]] + Body(s[2..])
    else Escaped(s[0]) + Body(s[1..])
  }

  /** `JSON.stringify(s)` */
  function Quoted(s: Text): Text { [QUOTE] + Body(s) + [QUOTE] }

  // ----- Reading -----

  function HexValue(u: Unit): Option<nat> {
    if 0x30 <= u <= 0x39 then Some((u - 0x30) as nat)
    else if 0x41 <= u <= 0x46 then Some((u - 0x37) as nat)
    else if 0x61 <= u <= 0x66 then Some((u - 0x57) as nat)
    else None
  }

  function HexValue4(a: Unit, b: Unit, c: Unit, d: Unit): Option<Unit> {
    match (HexValue(a), HexValue(b), HexValue(c), HexValue(d))
    case (Some(w), Some(x), Some(y), Some(z)) =>
      if w < 16 && x < 16 && y < 16 && z < 16 then Some((w * 4096 + x * 256 + y * 16 + z) as Unit) else None
    case _ => None
  }

  datatype Piece = Piece(unit: Unit, size: nat)

  /** One code unit of a string token, escaped or not. */
  function ReadPiece(t: Text): (r: Option<Piece>)
    requires t != []
    ensures r.Some? ==> 1 <= r.value.size <= |t|
  {
    if t[0] < 0x20 || t[0] == QUOTE then None
    else if t[0] != BACKSLASH then Some(Piece(t[0], 1))
    else if |t| < 2 then None
    else if t[1] == QUOTE || t[1] == BACKSLASH || t[1] == 0x2F then Some(Piece(t[1], 2))
    else if t[1] == 0x62 then Some(Piece(0x08, 2))
    else if t[1] == 0x66 then Some(Piece(0x0C, 2))
    else if t[1] == 0x6E then Some(Piece(0x0A, 2))
    else if t[1] == 0x72 then Some(Piece(0x0D, 2))
    else if t[1] == 0x74 then Some(Piece(0x09, 2))
    else if t[1] == LETTER_U && |t| >= 6 then
      match HexValue4(t[2], t[3], t[4], t[5]) case Some(u) => Some(Piece(u, 6)) case None => None
    else None
  }

  datatype Token = Token(text: Text, rest: Text)

  /** The rest of a string token whose opening quote has been read: what it says, and the text
      behind its closing quote. */
  function ReadBody(t: Text): (r: Option<Token>)
    ensures r.Some? ==> |r.value.rest| < |t|
    decreases |t|
  {
    if t == [] then None
    else if t[0] == QUOTE then Some(Token([], t[1..]))
    else
      var p := ReadPiece(t);
      if p.None? then None
      else
        var tail := ReadBody(t[p.value.size..]);
        if tail.None? then None else Some(Token([p.value.unit] + tail.value.text, tail.value.rest))
  }

  // ----- Reading undoes writing -----

  lemma HexDigitReads(d: nat)
    requires d < 16
    ensures HexValue(HexDigit(d)) == Some(d)
  {
  }

  lemma UnicodeEscapeReads(u: Unit, x: Text)
    ensures ReadPiece(UnicodeEscape(u) + x) == Some(Piece(u, 6))
  {
    var n := u as nat;
    HexDigitReads(n / 4096);
    HexDigitReads(n / 256 % 16);
    HexDigitReads(n / 16 % 16);
    HexDigitReads(n % 16);
    hide HexDigit, HexValue;
    var t := UnicodeEscape(u) + x;
    FourDigits(n);
    assert t[..6] == UnicodeEscape(u);
    assert t[2] == HexDigit(n / 4096) && t[3] == HexDigit(n / 256 % 16);
    assert t[4] == HexDigit(n / 16 % 16) && t[5] == HexDigit(n % 16);
    assert HexValue4(t[2], t[3], t[4], t[5]) == Some(u);
  }

  lemma FourDigits(n: nat)
    requires n < 0x1_0000
    ensures n / 4096 < 16 && n / 4096 * 4096 + n / 256 % 16 * 256 + n / 16 % 16 * 16 + n % 16 == n
  {
    var a, b := n / 16, n / 256;
    assert b == a / 16 && n / 4096 == b / 16;
    assert a == b * 16 + a % 16 && b == b / 16 * 16 + b % 16;
  }

  lemma EscapedReads(u: Unit, x: Text)
    ensures ReadPiece(Escaped(u) + x) == Some(Piece(u, |Escaped(u)|))
    ensures Escaped(u)[0] != QUOTE && (Escaped(u) + x)[|Escaped(u)|..] == x
  {
    UnicodeEscapeReads(u, x);
    hide HexDigit, HexValue4;
  }

  function Before(u: Unit, r: Option<Token>): Option<Token> {
    if r.None? then None else Some(Token([u] + r.value.text, r.value.rest))
  }

  lemma LiteralReads(u: Unit, x: Text)
    requires u >= 0x20 && u != QUOTE && u != BACKSLASH
    ensures ReadBody([u] + x) == Before(u, ReadBody(x))
  {
    assert ([u] + x)[1..] == x;
  }

  lemma UnitReads(u: Unit, x: Text)
    ensures ReadBody(Escaped(u) + x) == Before(u, ReadBody(x))
  {
    EscapedReads(u, x);
    hide ReadPiece, Escaped;
  }

  lemma EndReads(x: Text)
    ensures ReadBody([QUOTE] + x) == Some(Token([], x))
  {
  }

  /** Whatever follows, a written string is read back and the reader stops at its end. */
  lemma {:induction false} BodyReads(s: Text, x: Text)
    ensures ReadBody(Body(s) + [QUOTE] + x) == Some(Token(s, x))
    decreases |s|
  {
    hide ReadBody, Body;
    if s == [] {
      NothingWritten(x);
      EndReads(x);
    } else if |s| > 1 && IsHigh(s[0]) && IsLow(s[1]) {
      PairWritten(s, x);
      BodyReads(s[2..], x);
      var rest := Body(s[2..]) + [QUOTE] + x;
      LiteralReads(s[1], rest);
      LiteralReads(s[0], [s[1]] + rest);
    } else {
      UnitWritten(s, x);
      BodyReads(s[1..], x);
      UnitReads(s[0], Body(s[1..]) + [QUOTE] + x);
    }
  }

  lemma NothingWritten(x: Text)
    ensures Body([]) + [QUOTE] + x == [QUOTE] + x
  {
  }

  lemma PairWritten(s: Text, x: Text)
    requires |s| > 1 && IsHigh(s[0]) && IsLow(s[1])
    ensures Body(s) + [QUOTE] + x == [s[0]] + ([s[1]] + (Body(s[2..]) + [QUOTE] + x))
    ensures [s[0]] + ([s[1]] + s[2..]) == s
  {
    TwoInFront(s[0], s[1], Body(s[2..]), [QUOTE], x);
    FirstTwo(s);
    hide Escaped, IsHigh, IsLow;
  }

  lemma FirstTwo(s: Text)
    requires |s| > 1
    ensures [s[0]] + ([s[1]] + s[2..]) == s
  {
  }

  lemma FirstOne(s: Text)
    requires s != []
    ensures [s[0]] + s[1..] == s
  {
  }

  lemma TwoInFront(u: Unit, v: Unit, a: Text, b: Text, c: Text)
    ensures [u, v] + a + b + c == [u] + ([v] + (a + b + c))
  {
    InFront([u, v], a, b, c);
    assert [u, v] + (a + b + c) == [u] + ([v] + (a + b + c));
  }

  lemma InFront(t: Text, a: Text, b: Text, c: Text)
    ensures t + a + b + c == t + (a + b + c)
  {
    assert t + a + b == t + (a + b);
    assert t + (a + b) + c == t + ((a + b) + c);
  }

  lemma UnitWritten(s: Text, x: Text)
    requires s != [] && !(|s| > 1 && IsHigh(s[0]) && IsLow(s[1]))
    ensures Body(s) + [QUOTE] + x == Escaped(s[0]) + (Body(s[1..]) + [QUOTE] + x)
    ensures [s[0]] + s[1..] == s
  {
    InFront(Escaped(s[0]), Body(s[1..]), [QUOTE], x);
    FirstOne(s);
    hide Escaped, IsHigh, IsLow;
  }

  /** Strings printed alike in front of anything are the same string. */
  lemma QuotedIsUnambiguous(s: Text, x: Text, t: Text, y: Text)
    requires Quoted(s) + x == Quoted(t) + y
    ensures s == t && x == y
  {
    hide ReadBody, Body;
    assert (Quoted(s) + x)[1..] == Body(s) + [QUOTE] + x;
    assert (Quoted(t) + y)[1..] == Body(t) + [QUOTE] + y;
    BodyReads(s, x);
    BodyReads(t, y);
  }

  // ----- Exactly what is written -----

  /** Four digits of base sixteen, in small letters, that spell a number. */
  ghost predicate Spells(t: Text, n: int) {
    && |t| == 4 && (forall i :: 0 <= i < 4 ==> 0x30 <= t[i] <= 0x39 || 0x61 <= t[i] <= 0x66)
    && var d := seq(4, i requires 0 <= i < 4 => if t[i] <= 0x39 then t[i] as int - 0x30 else t[i] as int - 0x61 + 10);
       n == 4096 * d[0] + 256 * d[1] + 16 * d[2] + d[3]
  }

  /** How a code unit is written that is not half of a pair: five control characters, the quote and
      the backslash by a letter or sign behind a backslash, the other control characters and lone
      surrogates by their number, and everything else by itself. */
  ghost predicate WrittenAs(u: Unit, t: Text) {
    if u == 8 then t == [0x5C, 0x62]
    else if u == 9 then t == [0x5C, 0x74]
    else if u == 10 then t == [0x5C, 0x6E]
    else if u == 12 then t == [0x5C, 0x66]
    else if u == 13 then t == [0x5C, 0x72]
    else if u == 0x22 || u == 0x5C then t == [0x5C, u]
    else if u < 0x20 || 0xD800 <= u <= 0xDFFF then |t| == 6 && t[..2] == [0x5C, 0x75] && Spells(t[2..], u as int)
    else t == [u]
  }

  lemma HexIsSpelled(u: Unit)
    ensures |UnicodeEscape(u)| == 6 && UnicodeEscape(u)[..2] == [0x5C, 0x75]
    ensures Spells(UnicodeEscape(u)[2..], u as int)
  {
    var n := u as nat;
    FourDigits(n);
    var a, b, c, d := n / 4096, n / 256 % 16, n / 16 % 16, n % 16;
    assert UnicodeEscape(u)[2..] == [HexDigit(a), HexDigit(b), HexDigit(c), HexDigit(d)];
    FourSpell(a, b, c, d);
    hide HexDigit, Spells;
  }

  lemma FourSpell(a: nat, b: nat, c: nat, d: nat)
    requires a < 16 && b < 16 && c < 16 && d < 16
    ensures Spells([HexDigit(a), HexDigit(b), HexDigit(c), HexDigit(d)], 4096 * a + 256 * b + 16 * c + d)
  {
    HexDigitIs(a);
    HexDigitIs(b);
    HexDigitIs(c);
    HexDigitIs(d);
    hide HexDigit;
  }

  lemma HexDigitIs(d: nat)
    requires d < 16
    ensures var h := HexDigit(d);
      && (0x30 <= h <= 0x39 || 0x61 <= h <= 0x66) && d == if h <= 0x39 then h as int - 0x30 else h as int - 0x61 + 10
  {
  }

  /** The text of a single code unit, and of a surrogate pair. */
  lemma OneIsWritten(u: Unit)
    ensures WrittenAs(u, Body([u]))
    ensures forall v :: 0xD800 <= u <= 0xDBFF && 0xDC00 <= v <= 0xDFFF ==> Body([u, v]) == [u, v]
  {
    HexIsSpelled(u);
    hide UnicodeEscape, Spells;
    assert [u][1..] == [] && Body([u]) == Escaped(u) + [] == Escaped(u);
    forall v | 0xD800 <= u <= 0xDBFF && 0xDC00 <= v <= 0xDFFF ensures Body([u, v]) == [u, v] {
      assert [u, v][2..] == [];
    }
  }

  /** Texts are written piece by piece, wherever they are cut, except through a surrogate pair. */
  lemma {:induction false} BodyJoins(a: Text, b: Text)
    requires a != [] && b != [] ==> !(0xD800 <= a[|a| - 1] <= 0xDBFF && 0xDC00 <= b[0] <= 0xDFFF)
    ensures Body(a + b) == Body(a) + Body(b)
    decreases |a|
  {
    hide Escaped, Body;
    var ab := a + b;
    if a == [] {
      assert ab == b;
      NothingToWrite();
    } else if |a| > 1 && IsHigh(a[0]) && IsLow(a[1]) {
      BodyJoins(a[2..], b);
      assert ab[2..] == a[2..] + b && ab[0] == a[0] && ab[1] == a[1];
      BodyUnfolds(a);
      BodyUnfolds(ab);
      Regroup([a[0], a[1]], Body(a[2..]), Body(b));
    } else {
      BodyJoins(a[1..], b);
      assert ab[1..] == a[1..] + b && ab[0] == a[0] && (|ab| > 1 ==> ab[1] == if |a| > 1 then a[1] else b[0]);
      BodyUnfolds(a);
      BodyUnfolds(ab);
      Regroup(Escaped(a[0]), Body(a[1..]), Body(b));
    }
  }

  lemma NothingToWrite()
    ensures Body([]) == []
  {
  }

  lemma BodyUnfolds(s: Text)
    requires s != []
    ensures |s| > 1 && IsHigh(s[0]) && IsLow(s[1]) ==> Body(s) == [s[0], s[1]] + Body(s[2..])
    ensures !(|s| > 1 && IsHigh(s[0]) && IsLow(s[1])) ==> Body(s) == Escaped(s[0]) + Body(s[1..])
  {
  }

  lemma Regroup(t: Text, a: Text, b: Text)
    ensures t + (a + b) == (t + a) + b
  {
  }
}
