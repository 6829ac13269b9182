/** The conversion of a raw ECDSA signature (RFC 7518, section 3.4) into an Ecdsa-Sig-Value
    (RFC 3279, section 2.2.3) in src/oidc.js. */
module Der {
  import opened Prelude
  import opened Wire

  // ----- The conversion -----

  /** Without leading zero bytes; the last byte stays. */
  function Stripped(x: Bytes): (p: Bytes)
    ensures |p| <= |x| && (x != [] ==> p != [])
  {
    if |x| > 1 && x[0] == 0 then Stripped(x[1..]) else x
  }

  function Unsigned(p: Bytes): Bytes {
    if p != [] && p[0] >= 128 then [0] + p else p
  }

  function PartOf(x: Bytes): Bytes {
    var p := Unsigned(Stripped(x));
    [2, LowByte(|p|)] + p
  }

  function DerOf(raw: Bytes): Bytes {
    if |raw| != 64 then raw
    else
      var body := PartOf(raw[..32]) + PartOf(raw[32..]);
      [0x30, LowByte(|body|)] + body
  }

  method Part(x: Bytes) returns (part: Bytes)
    ensures part == PartOf(x)
  {
    var p := x;
    while |p| > 1 && p[0] == 0
      invariant Stripped(p) == Stripped(x)
      decreases |p|
    {
      p := p[1..];
    }
    if p != [] && p[0] >= 128 { p := [0] + p; }
    return [2, LowByte(|p|)] + p;
  }

  method P1363ToDer(signature: Bytes) returns (der: Bytes)
    ensures der == DerOf(signature)
  {
    if |signature| != 64 { return signature; }
    var r := Part(signature[..32]);
    var s := Part(signature[32..]);
    var body := r + s;
    return [0x30, LowByte(|body|)] + body;
  }

  // ----- What the bytes mean -----

  /** A big-endian number. */
  function Value(b: Bytes): nat {
    if b == [] then 0 else Value(b[..|b| - 1]) * 256 + b[|b| - 1] as nat
  }

  function Pow256(n: nat): (p: nat)
    ensures p > 0
  {
    if n == 0 then 1 else 256 * Pow256(n - 1)
  }

  /** Two's complement (X.690, section 8.3.3). */
  function Signed(c: Bytes): int
    requires c != []
  {
    if c[0] >= 128 then Value(c) - Pow256(|c|) else Value(c)
  }

  /** The first nine bits are neither all zero nor all one (X.690, section 8.3.2). */
  predicate Minimal(c: Bytes) {
    |c| > 1 ==> !(c[0] == 0 && c[1] < 128) && !(c[0] == 255 && c[1] >= 128)
  }

  /** An INTEGER with a short-form length (X.690, section 8.1.3.4). */
  function IntegerAt(d: Bytes, i: nat): (r: Option<(int, nat)>)
    ensures r.Some? ==> i < r.value.1 <= |d|
  {
    if i + 2 >= |d| || d[i] != 2 || d[i + 1] >= 128 then None
    else
      var end := i + 2 + d[i + 1] as nat;
      if d[i + 1] == 0 || end > |d| || !Minimal(d[i + 2..end]) then None
      else Some((Signed(d[i + 2..end]), end))
  }

  /** A strict reader of a SEQUENCE of two INTEGERs and nothing else. */
  function ReadPair(d: Bytes): Option<(int, int)> {
    if |d| < 2 || d[0] != 0x30 || d[1] >= 128 || |d| != 2 + d[1] as nat then None
    else
      match IntegerAt(d, 2)
      case None => None
      case Some((r, j)) =>
        match IntegerAt(d, j)
        case None => None
        case Some((s, k)) => if k == |d| then Some((r, s)) else None
  }

  // ----- Numbers and their shortest bytes -----

  function Shortest(n: nat): (b: Bytes)
    ensures b != []
  {
    if n < 256 then [LowByte(n)] else Shortest(n / 256) + [LowByte(n)]
  }

  lemma {:induction false} ValueBelow(b: Bytes)
    ensures Value(b) < Pow256(|b|)
  {
    if b != [] { ValueBelow(b[..|b| - 1]); }
  }

  lemma {:induction false} LeadingByte(b: Bytes)
    requires b != []
    ensures b[0] == 0 ==> Value(b) == Value(b[1..])
    ensures b[0] != 0 ==> Value(b) > 0
  {
    if |b| > 1 {
      LeadingByte(b[..|b| - 1]);
      assert b[..|b| - 1][1..] == b[1..][..|b| - 2];
    } else {
      assert b[..0] == [] && b[1..] == [];
    }
  }

  lemma {:induction false} StrippedSnoc(q: Bytes, c: Byte)
    requires q != []
    ensures Stripped(q + [c]) == if Value(q) == 0 then [c] else Stripped(q) + [c]
  {
    LeadingByte(q);
    if q[0] == 0 {
      assert (q + [c])[1..] == q[1..] + [c];
      if |q| > 1 {
        StrippedSnoc(q[1..], c);
      } else {
        assert q[1..] + [c] == [c];
      }
    }
  }

  /** Stripping leaves the shortest bytes of the value. */
  lemma {:induction false} StrippedIsShortest(x: Bytes)
    requires x != []
    ensures Stripped(x) == Shortest(Value(x))
  {
    var q, c := x[..|x| - 1], x[|x| - 1];
    assert x == q + [c];
    if q != [] {
      StrippedIsShortest(q);
      StrippedSnoc(q, c);
      assert Value(x) / 256 == Value(q) && LowByte(Value(x)) == c;
    } else {
      assert Value(q) == 0;
    }
  }

  /** The content of a minimal INTEGER that is not negative is fixed by its value. */
  lemma MinimalIsUnique(c: Bytes)
    requires c != [] && Minimal(c) && Signed(c) >= 0
    ensures c == Unsigned(Shortest(Value(c))) && Signed(c) == Value(c)
  {
    ValueBelow(c);
    StrippedIsShortest(c);
    if |c| > 1 && c[0] == 0 {
      assert Stripped(c) == c[1..];
      assert c == [0] + c[1..];
    }
  }

  /** What `part` writes is minimal and means the value of the bytes it was given. */
  lemma PartIsInteger(x: Bytes)
    requires x != []
    ensures var c := Unsigned(Stripped(x));
            c != [] && |c| <= |x| + 1 && Minimal(c) && Signed(c) == Value(x) && c == Unsigned(Shortest(Value(x)))
  {
    var p := Stripped(x);
    StrippedIsShortest(x);
    ValueStripped(x);
    StrippedHead(x);
    if p[0] >= 128 {
      LeadingByte([0] + p);
      assert ([0] + p)[1..] == p;
    }
  }

  lemma {:induction false} ValueStripped(x: Bytes)
    ensures Value(Stripped(x)) == Value(x)
  {
    if |x| > 1 && x[0] == 0 {
      LeadingByte(x);
      ValueStripped(x[1..]);
    }
  }

  lemma {:induction false} StrippedHead(x: Bytes)
    requires x != []
    ensures |Stripped(x)| > 1 ==> Stripped(x)[0] != 0
  {
    if |x| > 1 && x[0] == 0 { StrippedHead(x[1..]); }
  }

  // ----- The conversion is exact -----

  lemma IntegerReads(d: Bytes, i: nat, x: Bytes)
    requires 0 < |x| <= 32 && i + |PartOf(x)| <= |d| && d[i..i + |PartOf(x)|] == PartOf(x)
    ensures IntegerAt(d, i) == Some((Value(x) as int, i + |PartOf(x)|))
  {
    hide Value, Stripped, Unsigned, Signed, Shortest, Minimal;
    PartIsInteger(x);
    var c := Unsigned(Stripped(x));
    var part := d[i..i + |PartOf(x)|];
    assert d[i] == part[0] && d[i + 1] == part[1];
    assert d[i + 2..i + 2 + |c|] == part[2..] == c;
  }

  /** Any INTEGER read with that value is written with the same bytes. */
  lemma IntegerIsPart(d: Bytes, i: nat, x: Bytes)
    requires x != [] && IntegerAt(d, i).Some? && IntegerAt(d, i).value.0 == Value(x)
    ensures d[i..IntegerAt(d, i).value.1] == PartOf(x)
  {
    var end := IntegerAt(d, i).value.1;
    var c := d[i + 2..end];
    MinimalIsUnique(c);
    PartIsInteger(x);
    TwoAndRest(d, i, end);
  }

  lemma TwoAndRest(d: Bytes, i: nat, end: nat)
    requires i + 2 <= end <= |d|
    ensures d[i..end] == [d[i], d[i + 1]] + d[i + 2..end]
  {
  }

  lemma PartSize(x: Bytes)
    requires |x| == 32
    ensures 3 <= |PartOf(x)| <= 35
  {
    PartIsInteger(x);
  }

  lemma Halves(r: Bytes, s: Bytes)
    requires |r| == |s| == 32
    ensures DerOf(r + s) == [0x30, LowByte(|PartOf(r)| + |PartOf(s)|)] + (PartOf(r) + PartOf(s))
  {
    hide PartOf;
    assert (r + s)[..32] == r && (r + s)[32..] == s;
  }

  lemma DerReads(r: Bytes, s: Bytes, d: Bytes)
    requires |r| == |s| == 32 && d == DerOf(r + s)
    ensures ReadPair(d) == Some((Value(r) as int, Value(s) as int))
  {
    hide Value, PartOf, DerOf, IntegerAt;
    PartSize(r);
    PartSize(s);
    Halves(r, s);
    var j := 2 + |PartOf(r)|;
    assert d[2..j] == PartOf(r);
    assert d[j..j + |PartOf(s)|] == PartOf(s);
    IntegerReads(d, 2, r);
    IntegerReads(d, j, s);
  }

  lemma ReadIsDer(r: Bytes, s: Bytes, d: Bytes)
    requires |r| == |s| == 32 && ReadPair(d) == Some((Value(r) as int, Value(s) as int))
    ensures d == DerOf(r + s)
  {
    hide Value, PartOf, DerOf, IntegerAt;
    IntegerIsPart(d, 2, r);
    var j := IntegerAt(d, 2).value.1;
    IntegerIsPart(d, j, s);
    assert d == [d[0], d[1]] + (d[2..j] + d[j..|d|]);
    Halves(r, s);
  }

  /** On 64 bytes the result is the one DER encoding of exactly the two numbers: the strict
      reader gives them back, and gives them for no other bytes. */
  lemma DerExactly(r: Bytes, s: Bytes, d: Bytes)
    requires |r| == |s| == 32
    ensures ReadPair(d) == Some((Value(r) as int, Value(s) as int)) <==> d == DerOf(r + s)
  {
    hide Value, DerOf, ReadPair;
    if d == DerOf(r + s) {
      DerReads(r, s, d);
    } else if ReadPair(d) == Some((Value(r) as int, Value(s) as int)) {
      ReadIsDer(r, s, d);
    }
  }

  lemma {:induction false} ValueIsInjective(a: Bytes, b: Bytes)
    requires |a| == |b| && Value(a) == Value(b)
    ensures a == b
  {
    if a != [] {
      var n := |a| - 1;
      ValueIsInjective(a[..n], b[..n]);
      assert a == a[..n] + [a[n]] && b == b[..n] + [b[n]];
    }
  }

  /** No two raw signatures become the same DER signature. */
  lemma DerIsInjective(a: Bytes, b: Bytes)
    requires |a| == |b| == 64 && DerOf(a) == DerOf(b)
    ensures a == b
  {
    assert a == a[..32] + a[32..] && b == b[..32] + b[32..];
    DerExactly(a[..32], a[32..], DerOf(a));
    DerExactly(b[..32], b[32..], DerOf(a));
    ValueIsInjective(a[..32], b[..32]);
    ValueIsInjective(a[32..], b[32..]);
  }
}
