/** The protocol-buffer and gRPC framing of adapters/spiffe.js, on byte buffers. */
module Wire {
  import opened Doubles

  newtype Byte = x: int | 0 <= x < 256

  type Bytes = seq<Byte>

  const TWO31: int := 0x8000_0000
  const TWO32: int := 0x1_0000_0000

  datatype Error =
    | VarintTooLarge | VarintTruncated | FieldTruncated | WireTypeUnsupported
    | FrameTruncated | FrameCompressed | FrameTrailing | LengthOutOfRange

  /** A value and where the reader stopped. */
  datatype Read<+T> = Got(value: T, next: nat) | Bad(error: Error)

  datatype Result<+T> = Ok(value: T) | Err(error: Error)

  // ----- Varints -----

  /** `Buffer.from([x])`: the low eight bits. */
  function LowByte(x: int): Byte { (x % 256) as Byte }

  /** Seven bits a byte, the lowest first; a negative number ends up as its low byte alone. */
  function VarintOf(n: int): (bytes: Bytes)
    ensures |bytes| >= 1
    decreases if n < 0 then 0 else n
  {
    if n > 127 then [LowByte(n % 128 + 128)] + VarintOf(n / 128) else [LowByte(n)]
  }

  method EncVarint(n: int) returns (out: Bytes)
    ensures out == VarintOf(n)
  {
    out := [];
    var v := n;
    while v > 127
      invariant out + VarintOf(v) == VarintOf(n)
      decreases v
    {
      out := out + [LowByte(v % 128 + 128)];
      v := v / 128;
    }
    out := out + [LowByte(v)];
  }

  /** The exact value of the varint at `i`, of which `shift` bits have been read. */
  function VarintAt(b: Bytes, i: nat, shift: nat): (r: Read<nat>)
    ensures r.Got? ==> i < r.next <= |b|
    decreases |b| - i
  {
    if i >= |b| then Bad(VarintTruncated)
    else if b[i] < 128 then Got(b[i] as nat, i + 1)
    else if shift + 7 > 63 then Bad(VarintTooLarge)
    else
      match VarintAt(b, i + 1, shift + 7)
      case Got(v, next) => Got((b[i] as nat) % 128 + 128 * v, next)
      case Bad(e) => Bad(e)
  }

  /** What the reader answers: the value as a Number. */
  function NumberAt(b: Bytes, i: nat): (r: Read<nat>)
    ensures r.Got? ==> i < r.next <= |b|
  {
    match VarintAt(b, i, 0)
    case Got(v, next) => Got(Round(v), next)
    case Bad(e) => Bad(e)
  }

  /** A varint read on, when `v` has been read in `shift` bits. */
  ghost function ReadOn(v: nat, shift: nat, rest: Read<nat>): Read<nat> {
    match rest
    case Got(w, next) => Got(v + Pow2(shift) * w, next)
    case Bad(e) => Bad(e)
  }

  lemma ReadOnStep(b: Bytes, i: nat, v: nat, shift: nat)
    requires i < |b|
    ensures var x := b[i] as nat;
            x % 128 * Pow2(shift) >= 0
            && ReadOn(v, shift, VarintAt(b, i, shift))
            == if x < 128 then Got(v + x % 128 * Pow2(shift), i + 1)
               else if shift + 7 > 63 then Bad(VarintTooLarge)
               else ReadOn(v + x % 128 * Pow2(shift), shift + 7, VarintAt(b, i + 1, shift + 7))
  {
    var x := b[i] as nat;
    ProductIsNat(x % 128, Pow2(shift));
    if x >= 128 && shift + 7 <= 63 {
      var rest := VarintAt(b, i + 1, shift + 7);
      SevenMore(shift);
      if rest.Got? { Regroup(v, x % 128, Pow2(shift), rest.value); }
    }
  }

  lemma ProductIsNat(x: nat, y: nat)
    ensures x * y >= 0
  {
  }

  lemma ReadOnEnds(b: Bytes, start: nat, i: nat, v: nat, shift: nat)
    ensures ReadOn(0, 0, VarintAt(b, start, 0)) == VarintAt(b, start, 0)
    ensures i >= |b| ==> ReadOn(v, shift, VarintAt(b, i, shift)) == Bad(VarintTruncated)
  {
    assert Pow2(0) == 1;
  }

  method ReadVarint(b: Bytes, start: nat) returns (r: Read<nat>)
    ensures r == NumberAt(b, start)
  {
    hide VarintAt, ReadOn, Pow2, Round;
    var i, v: nat, shift := start, 0, 0;
    ReadOnEnds(b, start, i, v, shift);
    while i < |b|
      invariant VarintAt(b, start, 0) == ReadOn(v, shift, VarintAt(b, i, shift))
      decreases |b| - i
    {
      ReadOnStep(b, i, v, shift);
      var x := b[i] as nat;
      i := i + 1;
      v := v + x % 128 * Pow2(shift);
      if x < 128 { return Got(Round(v), i); }
      shift := shift + 7;
      if shift > 63 { return Bad(VarintTooLarge); }
    }
    ReadOnEnds(b, start, i, v, shift);
    return Bad(VarintTruncated);
  }

  lemma SevenMore(k: nat)
    ensures Pow2(k + 7) == 128 * Pow2(k)
  {
    assert Pow2(k + 7) == 2 * Pow2(k + 6) && Pow2(k + 6) == 2 * Pow2(k + 5) && Pow2(k + 5) == 2 * Pow2(k + 4);
    assert Pow2(k + 4) == 2 * Pow2(k + 3) && Pow2(k + 3) == 2 * Pow2(k + 2) && Pow2(k + 2) == 2 * Pow2(k + 1);
  }

  lemma Regroup(v: int, x: int, p: int, w: int)
    ensures v + p * (x + 128 * w) == (v + x * p) + (128 * p) * w
  {
  }

  /** Reading back what was written, anywhere in a buffer, with `shift` bits already read: the
      value and the end are exact as long as it fits into the bits that are left. */
  lemma {:induction false} VarintReadsBack(n: nat, shift: nat, pre: Bytes, post: Bytes)
    requires shift % 7 == 0 && shift <= 63
    ensures VarintAt(pre + VarintOf(n) + post, |pre|, shift)
         == if n < Pow2(70 - shift) then Got(n, |pre| + |VarintOf(n)|) else Bad(VarintTooLarge)
    decreases n
  {
    hide Pow2;
    Pow2AtLeast(70 - shift);
    if n > 127 {
      var x := LowByte(n % 128 + 128);
      if shift + 7 <= 63 {
        VarintReadsBack(n / 128, shift + 7, pre + [x], post);
        SevenMore(63 - shift);
        DividedBy128(n, Pow2(63 - shift));
      } else {
        Pow2Seven();
      }
      MoreBytesFollow(n, shift, pre, post);
    } else {
      LastByte(n, shift, pre, post);
    }
  }

  lemma LastByte(n: nat, shift: nat, pre: Bytes, post: Bytes)
    requires n <= 127
    ensures VarintAt(pre + VarintOf(n) + post, |pre|, shift) == Got(n, |pre| + |VarintOf(n)|)
  {
    var b := pre + VarintOf(n) + post;
    assert b[|pre|] == LowByte(n);
  }

  lemma MoreBytesFollow(n: nat, shift: nat, pre: Bytes, post: Bytes)
    requires n > 127
    ensures var x := LowByte(n % 128 + 128);
            var rest := VarintAt((pre + [x]) + VarintOf(n / 128) + post, |pre| + 1, shift + 7);
            && |VarintOf(n)| == 1 + |VarintOf(n / 128)|
            && VarintAt(pre + VarintOf(n) + post, |pre|, shift)
            == if shift + 7 > 63 then Bad(VarintTooLarge)
               else if rest.Bad? then rest
               else Got(n % 128 + 128 * rest.value, rest.next)
  {
    hide VarintAt, LowByte;
    var x := LowByte(n % 128 + 128);
    assert VarintOf(n) == [x] + VarintOf(n / 128);
    hide VarintOf;
    FirstByteIs(x, VarintOf(n / 128), pre, post);
    ByteParts(n);
    OneByteOn(pre + VarintOf(n) + post, |pre|, shift);
  }

  lemma OneByteOn(b: Bytes, i: nat, shift: nat)
    requires i < |b| && b[i] >= 128
    ensures var rest := VarintAt(b, i + 1, shift + 7);
            VarintAt(b, i, shift)
            == if shift + 7 > 63 then Bad(VarintTooLarge)
               else if rest.Bad? then rest
               else Got(b[i] as nat % 128 + 128 * rest.value, rest.next)
  {
  }

  lemma FirstByteIs(x: Byte, more: Bytes, pre: Bytes, post: Bytes)
    ensures var b := pre + ([x] + more) + post; |pre| < |b| && b == (pre + [x]) + more + post && b[|pre|] == x
  {
  }

  lemma ByteParts(n: nat)
    ensures var x := LowByte(n % 128 + 128); x as nat == n % 128 + 128 && x as nat % 128 == n % 128
  {
  }

  lemma Pow2Seven()
    ensures Pow2(7) == 128
  {
    SevenMore(0);
  }

  lemma {:induction false} Pow2AtLeast(k: nat)
    requires k >= 7
    ensures Pow2(k) >= 128
  {
    if k == 7 { SevenMore(0); } else { Pow2AtLeast(k - 1); }
  }

  /** `readVarint` undoes `encVarint` on every Number below 2^70 and refuses every larger one. */
  lemma VarintRoundTrip(n: nat, pre: Bytes, post: Bytes)
    requires IsDouble(n)
    ensures NumberAt(pre + VarintOf(n) + post, |pre|)
         == if n < Pow2(70) then Got(n, |pre| + |VarintOf(n)|) else Bad(VarintTooLarge)
  {
    VarintReadsBack(n, 0, pre, post);
  }

  // ----- Records -----

  datatype Payload = Slice(bytes: Bytes) | Number(n: nat)

  datatype Field = Field(num: nat, wt: nat, value: Payload)

  function ToInt32(n: int): int {
    var m := n % TWO32;
    if m < TWO31 then m else m - TWO32
  }

  /** `(field << 3) | 2`: the low three bits of the shifted number are clear. */
  function TagOf(field: nat): int { ToInt32(field * 8) + 2 }

  function EncString(field: nat, value: Bytes): Bytes {
    VarintOf(TagOf(field)) + VarintOf(|value|) + value
  }

  /** `subarray(i, i + n)` stops at the end of the buffer. */
  function SubArray(b: Bytes, i: nat, n: nat): Bytes
    requires i <= |b|
  {
    if i + n <= |b| then b[i..i + n] else b[i..]
  }

  /** The record at `i`. */
  function FieldAt(b: Bytes, i: nat): (r: Read<Field>)
    requires i < |b| <= MAX_SAFE
    ensures r.Got? ==> i < r.next
  {
    match NumberAt(b, i)
    case Bad(e) => Bad(e)
    case Got(tag, j) =>
      var num := tag % TWO32 / 8;
      var wt := tag % 8;
      if wt == 2 then
        match NumberAt(b, j)
        case Bad(e) => Bad(e)
        case Got(len, k) =>
          if Round(k + len) > |b| then Bad(FieldTruncated)
          else
            SumComparisonIsExact(k, len, |b|);
            Got(Field(num, wt, Slice(b[k..k + len])), k + len)
      else if wt == 0 then
        match NumberAt(b, j)
        case Bad(e) => Bad(e)
        case Got(v, k) => Got(Field(num, wt, Number(v)), k)
      else if wt == 1 then Got(Field(num, wt, Slice(SubArray(b, j, 8))), j + 8)
      else if wt == 5 then Got(Field(num, wt, Slice(SubArray(b, j, 4))), j + 4)
      else Bad(WireTypeUnsupported)
  }

  function FieldsFrom(b: Bytes, i: nat): Result<seq<Field>>
    requires |b| <= MAX_SAFE
    decreases |b| - i
  {
    if i >= |b| then Ok([])
    else
      match FieldAt(b, i)
      case Bad(e) => Err(e)
      case Got(f, j) => Prepend(f, FieldsFrom(b, j))
  }

  function Prepend<T>(x: T, r: Result<seq<T>>): Result<seq<T>> {
    match r case Ok(xs) => Ok([x] + xs) case Err(e) => Err(e)
  }

  function PrependAll<T>(xs: seq<T>, r: Result<seq<T>>): Result<seq<T>> {
    match r case Ok(ys) => Ok(xs + ys) case Err(e) => Err(e)
  }

  lemma PrependNone<T>(r: Result<seq<T>>)
    ensures PrependAll([], r) == r
  {
    if r.Ok? { assert [] + r.value == r.value; }
  }

  lemma PrependOneMore<T>(xs: seq<T>, x: T, r: Result<seq<T>>)
    ensures PrependAll(xs, Prepend(x, r)) == PrependAll(xs + [x], r)
  {
    if r.Ok? { assert xs + ([x] + r.value) == (xs + [x]) + r.value; }
  }

  method DecodeFields(b: Bytes) returns (r: Result<seq<Field>>)
    requires |b| <= MAX_SAFE
    ensures r == FieldsFrom(b, 0)
  {
    var fields: seq<Field> := [];
    var i := 0;
    hide NumberAt, Round, SubArray;
    PrependNone(FieldsFrom(b, 0));
    while i < |b|
      invariant FieldsFrom(b, 0) == PrependAll(fields, FieldsFrom(b, i))
      decreases |b| - i
    {
      ghost var start := i;
      var tag := ReadVarint(b, i);
      if tag.Bad? { return Err(tag.error); }
      i := tag.next;
      var num := tag.value % TWO32 / 8;
      var wt := tag.value % 8;
      var field: Field;
      if wt == 2 {
        var len := ReadVarint(b, i);
        if len.Bad? { return Err(len.error); }
        i := len.next;
        if Round(i + len.value) > |b| { return Err(FieldTruncated); }
        SumComparisonIsExact(i, len.value, |b|);
        field := Field(num, wt, Slice(b[i..i + len.value]));
        i := i + len.value;
      } else if wt == 0 {
        var v := ReadVarint(b, i);
        if v.Bad? { return Err(v.error); }
        field := Field(num, wt, Number(v.value));
        i := v.next;
      } else if wt == 1 {
        field := Field(num, wt, Slice(SubArray(b, i, 8)));
        i := i + 8;
      } else if wt == 5 {
        field := Field(num, wt, Slice(SubArray(b, i, 4)));
        i := i + 4;
      } else {
        return Err(WireTypeUnsupported);
      }
      assert FieldAt(b, start) == Got(field, i);
      PrependOneMore(fields, field, FieldsFrom(b, i));
      fields := fields + [field];
    }
    assert fields + [] == fields;
    return Ok(fields);
  }

  datatype Text = Text(field: nat, value: Bytes)

  function EncodeAll(ts: seq<Text>): Bytes {
    if ts == [] then [] else EncString(ts[0].field, ts[0].value) + EncodeAll(ts[1..])
  }

  function AsFields(ts: seq<Text>): (fs: seq<Field>)
    ensures |fs| == |ts|
    ensures forall i :: 0 <= i < |ts| ==> fs[i] == Field(ts[i].field, 2, Slice(ts[i].value))
  {
    seq(|ts|, i requires 0 <= i < |ts| => Field(ts[i].field, 2, Slice(ts[i].value)))
  }

  const FIELD_LIMIT: int := 0x1000_0000

  lemma TagFacts(field: nat)
    requires field < FIELD_LIMIT
    ensures 0 <= TagOf(field) <= MAX_SAFE && TagOf(field) % TWO32 / 8 == field && TagOf(field) % 8 == 2
  {
    assert field * 8 % TWO32 == field * 8 && field * 8 < TWO31;
    assert (field * 8 + 2) / 8 == field;
  }

  lemma Rebracket(a: Bytes, b: Bytes, c: Bytes, d: Bytes, e: Bytes)
    ensures a + (b + c + d) + e == a + b + (c + d + e)
    ensures a + (b + c + d) + e == (a + b) + c + (d + e)
  {
  }

  /** One good record is read back, and the reader stops at its end. */
  lemma FieldReadsBack(t: Text, pre: Bytes, post: Bytes)
    requires t.field < FIELD_LIMIT
    requires |pre + EncString(t.field, t.value) + post| <= MAX_SAFE
    ensures var b := pre + EncString(t.field, t.value) + post;
            FieldAt(b, |pre|) == Got(Field(t.field, 2, Slice(t.value)), |pre| + |EncString(t.field, t.value)|)
  {
    hide VarintOf, NumberAt, Round, TagOf;
    var tag, len := VarintOf(TagOf(t.field)), VarintOf(|t.value|);
    var b := pre + EncString(t.field, t.value) + post;
    TagFacts(t.field);
    Rebracket(pre, tag, len, t.value, post);
    SafeReadsBack(TagOf(t.field), pre, len + t.value + post);
    SafeReadsBack(|t.value|, pre + tag, t.value + post);
    var k := |pre| + |tag| + |len|;
    SumComparisonIsExact(k, |t.value|, |b|);
    assert b[k..k + |t.value|] == t.value;
  }

  lemma SafeReadsBack(n: nat, pre: Bytes, post: Bytes)
    requires n <= MAX_SAFE
    ensures NumberAt(pre + VarintOf(n) + post, |pre|) == Got(n, |pre| + |VarintOf(n)|)
  {
    Pow70();
    SmallIsExact(n);
    VarintRoundTrip(n, pre, post);
  }

  lemma Pow70()
    ensures Pow2(70) > TWO53 * 128
  {
    SevenMore(0); SevenMore(7); SevenMore(14); SevenMore(21); SevenMore(28);
    SevenMore(35); SevenMore(42); SevenMore(49); SevenMore(56); SevenMore(63);
    assert Pow2(0) == 1;
  }

  lemma {:induction false} FieldsReadBack(ts: seq<Text>, pre: Bytes)
    requires forall i :: 0 <= i < |ts| ==> ts[i].field < FIELD_LIMIT
    requires |pre + EncodeAll(ts)| <= MAX_SAFE
    ensures FieldsFrom(pre + EncodeAll(ts), |pre|) == Ok(AsFields(ts))
  {
    hide EncString, FieldAt;
    if ts != [] {
      var one, rest := EncString(ts[0].field, ts[0].value), EncodeAll(ts[1..]);
      assert pre + EncodeAll(ts) == pre + one + rest == (pre + one) + rest;
      FieldReadsBack(ts[0], pre, rest);
      FieldsReadBack(ts[1..], pre + one);
      assert AsFields(ts) == [Field(ts[0].field, 2, Slice(ts[0].value))] + AsFields(ts[1..]);
    }
  }

  // A record number from 2^28 on is not read back: its tag shrinks to one byte.

  lemma {:induction false} VarintNeeds(b: Bytes, i: nat, shift: nat)
    requires VarintAt(b, i, shift).Got?
    ensures |VarintOf(VarintAt(b, i, shift).value)| <= VarintAt(b, i, shift).next - i
    decreases |b| - i
  {
    if b[i] >= 128 {
      VarintNeeds(b, i + 1, shift + 7);
      var v := VarintAt(b, i + 1, shift + 7).value;
      var n := (b[i] as nat) % 128 + 128 * v;
      assert n / 128 == v;
    }
  }

  /** The tag of a record read takes at least the bytes of its number's proper varint. */
  lemma TagNeeds(b: Bytes, i: nat)
    requires NumberAt(b, i).Got?
    ensures var tag := NumberAt(b, i).value;
            |VarintOf(tag % TWO32)| <= NumberAt(b, i).next - i
  {
    hide VarintAt, VarintOf, Round;
    VarintNeeds(b, i, 0);
    var v := VarintAt(b, i, 0).value;
    var m := Round(v) % TWO32;
    FiveBytes(m);
    if v < TWO32 {
      SmallIsExact(v);
      assert m == v;
    } else {
      FiveBytes(v);
    }
  }

  function Pow128(k: nat): (p: nat)
    ensures p > 0
  {
    if k == 0 then 1 else 128 * Pow128(k - 1)
  }

  lemma {:induction false} LengthIs(n: nat, k: nat)
    ensures k > 0 && n < Pow128(k) ==> |VarintOf(n)| <= k
    ensures n >= Pow128(k) ==> |VarintOf(n)| > k
    decreases k
  {
    if k > 0 && n > 127 {
      DividedBy128(n, Pow128(k - 1));
      LengthIs(n / 128, k - 1);
      assert |VarintOf(n)| == 1 + |VarintOf(n / 128)|;
      if k == 1 { assert Pow128(0) == 1 && n / 128 >= 1; }
    } else if k > 0 {
      assert Pow128(k - 1) >= 1 && Pow128(k) >= 128;
    }
  }

  lemma DividedBy128(n: nat, p: nat)
    ensures n < 128 * p <==> n / 128 < p
  {
  }

  lemma FiveBytes(n: nat)
    ensures n < TWO32 ==> |VarintOf(n)| <= 5
    ensures n >= TWO31 ==> |VarintOf(n)| >= 5
  {
    LengthIs(n, 5);
    LengthIs(n, 4);
    hide VarintOf;
    assert Pow128(1) == 128 && Pow128(2) == 16384 && Pow128(3) == 0x20_0000;
    assert Pow128(4) == 0x1000_0000 && Pow128(5) == 0x8_0000_0000;
  }

  lemma LengthNeeds(b: Bytes, i: nat)
    requires NumberAt(b, i).Got? && NumberAt(b, i).value <= MAX_SAFE
    ensures |VarintOf(NumberAt(b, i).value)| <= NumberAt(b, i).next - i
  {
    VarintNeeds(b, i, 0);
    hide VarintAt, VarintOf, Round;
    var v := VarintAt(b, i, 0).value;
    if v >= TWO53 { RoundKeepsLarge(v); } else { SmallIsExact(v); }
  }

  /** Bytes that a text takes when its number is written in full. */
  function ProperSize(t: Text): nat {
    |VarintOf(t.field * 8 + 2)| + |VarintOf(|t.value|)| + |t.value|
  }

  function ProperSizes(ts: seq<Text>): nat {
    if ts == [] then 0 else ProperSize(ts[0]) + ProperSizes(ts[1..])
  }

  lemma FieldNeeds(b: Bytes, i: nat, t: Text)
    requires i < |b| <= MAX_SAFE && FieldAt(b, i).Got? && FieldAt(b, i).value == Field(t.field, 2, Slice(t.value))
    ensures FieldAt(b, i).next <= |b| && FieldAt(b, i).next - i >= ProperSize(t) && t.field < TWO32 / 8
  {
    hide VarintOf, NumberAt, Round;
    var tag := NumberAt(b, i);
    TagNeeds(b, i);
    var len := NumberAt(b, tag.next);
    SumComparisonIsExact(len.next, len.value, |b|);
    LengthNeeds(b, tag.next);
    assert tag.value % TWO32 == t.field * 8 + 2;
  }

  lemma {:induction false} FieldsNeed(b: Bytes, i: nat, ts: seq<Text>)
    requires i <= |b| <= MAX_SAFE && FieldsFrom(b, i) == Ok(AsFields(ts))
    ensures |b| - i >= ProperSizes(ts) && forall j :: 0 <= j < |ts| ==> ts[j].field < TWO32 / 8
    decreases |ts|
  {
    if ts != [] {
      var fs := AsFields(ts);
      assert i < |b|;
      var r := FieldAt(b, i);
      assert fs[0] == r.value;
      FieldNeeds(b, i, ts[0]);
      assert FieldsFrom(b, r.next) == Ok(fs[1..]);
      assert fs[1..] == AsFields(ts[1..]);
      FieldsNeed(b, r.next, ts[1..]);
      forall j | 0 <= j < |ts| ensures ts[j].field < TWO32 / 8 { if j > 0 { assert ts[j] == ts[1..][j - 1]; } }
    }
  }

  /** What is written never takes more than the proper size, and less from number 2^28 on. */
  lemma EncodedSize(t: Text)
    requires t.field < TWO32 / 8
    ensures |EncString(t.field, t.value)| <= ProperSize(t)
    ensures t.field >= FIELD_LIMIT ==> |EncString(t.field, t.value)| < ProperSize(t)
  {
    TagIsShorter(t.field);
    hide VarintOf, TagOf;
  }

  lemma TagIsShorter(field: nat)
    requires field < TWO32 / 8
    ensures |VarintOf(TagOf(field))| <= |VarintOf(field * 8 + 2)|
    ensures field >= FIELD_LIMIT ==> |VarintOf(TagOf(field))| < |VarintOf(field * 8 + 2)|
  {
    if field >= FIELD_LIMIT {
      FiveBytes(field * 8 + 2);
      assert TagOf(field) < 0;
      NegativeIsOneByte(TagOf(field));
      hide VarintOf;
    }
  }

  lemma NegativeIsOneByte(n: int)
    requires n < 0
    ensures |VarintOf(n)| == 1
  {
  }

  lemma {:induction false} EncodedSizes(ts: seq<Text>)
    requires forall i :: 0 <= i < |ts| ==> ts[i].field < TWO32 / 8
    ensures |EncodeAll(ts)| <= ProperSizes(ts)
    ensures (exists i :: 0 <= i < |ts| && ts[i].field >= FIELD_LIMIT) ==> |EncodeAll(ts)| < ProperSizes(ts)
  {
    if ts != [] {
      EncodedSize(ts[0]);
      EncodedSizes(ts[1..]);
      if i :| 0 < i < |ts| && ts[i].field >= FIELD_LIMIT { assert ts[1..][i - 1] == ts[i]; }
    }
  }

  /** `decodeFields` undoes a concatenation of `encString` fields exactly when all their
      numbers are below 2^28. */
  lemma FieldsRoundTrip(ts: seq<Text>)
    requires |EncodeAll(ts)| <= MAX_SAFE
    ensures FieldsFrom(EncodeAll(ts), 0) == Ok(AsFields(ts))
       <==> forall i :: 0 <= i < |ts| ==> ts[i].field < FIELD_LIMIT
  {
    hide FieldsFrom, EncodeAll, AsFields;
    var b := EncodeAll(ts);
    if forall i :: 0 <= i < |ts| ==> ts[i].field < FIELD_LIMIT {
      assert [] + b == b;
      FieldsReadBack(ts, []);
    } else if FieldsFrom(b, 0) == Ok(AsFields(ts)) {
      FieldsNeed(b, 0, ts);
      EncodedSizes(ts);
      assert false;
    }
  }

  // ----- gRPC frames -----

  /** `writeUInt32BE`, for a length below 2^32. */
  function BigEndian(n: nat): Bytes {
    [LowByte(n / 0x100_0000), LowByte(n / 0x1_0000), LowByte(n / 0x100), LowByte(n)]
  }

  function ReadUInt32(b: Bytes, i: nat): nat
    requires i + 4 <= |b|
  {
    (((b[i] as nat) * 256 + b[i + 1] as nat) * 256 + b[i + 2] as nat) * 256 + b[i + 3] as nat
  }

  /** A length that does not fit into four bytes makes the writer throw. */
  function GrpcFrame(message: Bytes): Result<Bytes> {
    if |message| < TWO32 then Ok([0] + BigEndian(|message|) + message) else Err(LengthOutOfRange)
  }

  function FramesFrom(b: Bytes, i: nat): Result<seq<Bytes>>
    requires i <= |b|
    decreases |b| - i
  {
    if i + 5 <= |b| then
      var len := ReadUInt32(b, i + 1);
      if i + 5 + len > |b| then Err(FrameTruncated)
      else if b[i] != 0 then Err(FrameCompressed)
      else Prepend(b[i + 5..i + 5 + len], FramesFrom(b, i + 5 + len))
    else if i != |b| then Err(FrameTrailing)
    else Ok([])
  }

  method ParseGrpcFrames(b: Bytes) returns (r: Result<seq<Bytes>>)
    ensures r == FramesFrom(b, 0)
  {
    var frames: seq<Bytes> := [];
    var i := 0;
    PrependNone(FramesFrom(b, 0));
    while i + 5 <= |b|
      invariant i <= |b| && FramesFrom(b, 0) == PrependAll(frames, FramesFrom(b, i))
      decreases |b| - i
    {
      var compressed := b[i];
      var len := ReadUInt32(b, i + 1);
      i := i + 5;
      if i + len > |b| { return Err(FrameTruncated); }
      if compressed != 0 { return Err(FrameCompressed); }
      PrependOneMore(frames, b[i..i + len], FramesFrom(b, i + len));
      frames := frames + [b[i..i + len]];
      i := i + len;
    }
    if i != |b| { return Err(FrameTrailing); }
    assert frames + [] == frames;
    return Ok(frames);
  }

  /** The frames in a row, if every message can be framed. */
  function FrameAll(ms: seq<Bytes>): Result<Bytes> {
    if ms == [] then Ok([])
    else
      match GrpcFrame(ms[0])
      case Err(e) => Err(e)
      case Ok(f) => PrependAll(f, FrameAll(ms[1..]))
  }

  lemma BigEndianReadsBack(n: nat, pre: Bytes, post: Bytes)
    requires n < TWO32
    ensures |BigEndian(n)| == 4 && ReadUInt32(pre + BigEndian(n) + post, |pre|) == n
  {
    var b := pre + BigEndian(n) + post;
    assert b[|pre|] == BigEndian(n)[0] && b[|pre| + 1] == BigEndian(n)[1];
    assert b[|pre| + 2] == BigEndian(n)[2] && b[|pre| + 3] == BigEndian(n)[3];
    FourBytes(n);
  }

  lemma FourBytes(n: nat)
    requires n < TWO32
    ensures ((n / 0x100_0000 % 256 * 256 + n / 0x1_0000 % 256) * 256 + n / 0x100 % 256) * 256 + n % 256 == n
  {
    var a, b := n / 0x100, n / 0x1_0000;
    var c := n / 0x100_0000;
    assert b == a / 256 && c == b / 256 && c < 256;
    assert a == b * 256 + a % 256 && b == c * 256 + b % 256;
  }

  lemma BigEndianOfRead(b: Bytes, i: nat)
    requires i + 4 <= |b|
    ensures ReadUInt32(b, i) < TWO32 && BigEndian(ReadUInt32(b, i)) == b[i..i + 4]
  {
    var n := ReadUInt32(b, i);
    assert n / 0x100 == ((b[i] as nat) * 256 + b[i + 1] as nat) * 256 + b[i + 2] as nat;
    assert n / 0x100 / 0x100 == (b[i] as nat) * 256 + b[i + 1] as nat;
    assert n / 0x1_0000 == n / 0x100 / 0x100 && n / 0x100_0000 == n / 0x1_0000 / 0x100;
    assert BigEndian(n) == [b[i], b[i + 1], b[i + 2], b[i + 3]];
  }

  lemma FirstFrame(b: Bytes, i: nat, m: Bytes, rest: Bytes)
    requires i <= |b| && |m| < TWO32 && b[i..] == [0] + BigEndian(|m|) + m + rest
    ensures i + 5 + |m| <= |b| && b[i] == 0 && ReadUInt32(b, i + 1) == |m|
    ensures b[i + 5..i + 5 + |m|] == m && b[i + 5 + |m|..] == rest
  {
    var f := [0] + BigEndian(|m|);
    assert b[i..] == f + (m + rest) && |f| == 5;
    assert b == (b[..i] + [0]) + BigEndian(|m|) + (m + rest) by { assert b == b[..i] + b[i..]; }
    BigEndianReadsBack(|m|, b[..i] + [0], m + rest);
    assert b[i] == b[i..][0];
    assert b[i + 5..] == b[i..][5..] == m + rest;
    assert b[i + 5..i + 5 + |m|] == b[i + 5..][..|m|];
    assert b[i + 5 + |m|..] == b[i + 5..][|m|..];
  }

  lemma FrameIsThere(b: Bytes, i: nat, len: nat)
    requires i + 5 <= |b| && len == ReadUInt32(b, i + 1) && i + 5 + len <= |b| && b[i] == 0
    ensures len < TWO32 && b[i..] == [0] + BigEndian(len) + b[i + 5..i + 5 + len] + b[i + 5 + len..]
  {
    BigEndianOfRead(b, i + 1);
    hide BigEndian, ReadUInt32;
    assert b[i..] == [b[i]] + b[i + 1..i + 5] + b[i + 5..i + 5 + len] + b[i + 5 + len..];
  }

  lemma {:induction false} ParsedIsFramed(b: Bytes, i: nat, ms: seq<Bytes>)
    requires i <= |b| && FramesFrom(b, i) == Ok(ms)
    ensures FrameAll(ms) == Ok(b[i..])
    decreases |b| - i
  {
    hide BigEndian, ReadUInt32;
    if i + 5 <= |b| {
      var len := ReadUInt32(b, i + 1);
      FrameIsThere(b, i, len);
      assert ms[0] == b[i + 5..i + 5 + len] && FramesFrom(b, i + 5 + len) == Ok(ms[1..]);
      ParsedIsFramed(b, i + 5 + len, ms[1..]);
      assert FrameAll(ms) == PrependAll([0] + BigEndian(len) + ms[0], Ok(b[i + 5 + len..]));
    } else {
      assert b[i..] == [];
    }
  }

  lemma {:induction false} FramedIsParsed(b: Bytes, i: nat, ms: seq<Bytes>)
    requires i <= |b| && FrameAll(ms) == Ok(b[i..])
    ensures FramesFrom(b, i) == Ok(ms)
    decreases |ms|
  {
    hide BigEndian, ReadUInt32;
    if ms != [] {
      var m, rest := ms[0], FrameAll(ms[1..]);
      assert FrameAll(ms) == PrependAll([0] + BigEndian(|m|) + m, rest);
      FirstFrame(b, i, m, rest.value);
      FramedIsParsed(b, i + 5 + |m|, ms[1..]);
      assert FramesFrom(b, i) == Prepend(m, Ok(ms[1..])) && [m] + ms[1..] == ms;
    } else {
      assert |b[i..]| == 0;
    }
  }

  /** The parser accepts exactly the rows of frames, and gives their messages. */
  lemma FramesRoundTrip(b: Bytes, ms: seq<Bytes>)
    ensures FramesFrom(b, 0) == Ok(ms) <==> FrameAll(ms) == Ok(b)
  {
    assert b[0..] == b;
    if FramesFrom(b, 0) == Ok(ms) {
      ParsedIsFramed(b, 0, ms);
    } else if FrameAll(ms) == Ok(b) {
      FramedIsParsed(b, 0, ms);
    }
  }

  // ----- What the bytes mean -----

  /** Seven bits a byte, the lowest first. */
  ghost function Groups(b: Bytes): nat {
    if b == [] then 0 else b[0] as nat % 128 + 128 * Groups(b[1..])
  }

  /** Every byte but the last says that more follow. */
  ghost predicate IsVarint(b: Bytes) {
    b != [] && b[|b| - 1] < 128 && forall i :: 0 <= i < |b| - 1 ==> b[i] >= 128
  }

  /** A number is written as its groups, and no byte is wasted. */
  lemma {:induction false} VarintIsGroups(n: nat)
    ensures IsVarint(VarintOf(n)) && Groups(VarintOf(n)) == n
    ensures |VarintOf(n)| > 1 ==> VarintOf(n)[|VarintOf(n)| - 1] != 0
  {
    if n > 127 {
      VarintIsGroups(n / 128);
      var x := LowByte(n % 128 + 128);
      OneGroupMore(x, VarintOf(n / 128));
      assert VarintOf(n) == [x] + VarintOf(n / 128);
      hide VarintOf, IsVarint, Groups;
      assert x as nat == n % 128 + 128;
      if n / 128 <= 127 { LastGroup(n / 128); }
    } else {
      LastGroup(n);
    }
  }

  lemma OneGroupMore(x: Byte, rest: Bytes)
    requires x >= 128 && IsVarint(rest)
    ensures IsVarint([x] + rest) && Groups([x] + rest) == x as nat % 128 + 128 * Groups(rest)
    ensures |[x] + rest| > 1 && ([x] + rest)[|rest|] == rest[|rest| - 1]
  {
    assert ([x] + rest)[1..] == rest;
    assert forall i :: 0 < i < |[x] + rest| ==> ([x] + rest)[i] == rest[i - 1];
  }

  lemma LastGroup(n: nat)
    requires n <= 127
    ensures |VarintOf(n)| == 1 && VarintOf(n)[0] as nat == n && IsVarint(VarintOf(n)) && Groups(VarintOf(n)) == n
  {
    assert [LowByte(n)][1..] == [];
  }

  /** The reader takes the shortest run of bytes that ends a varint, if that has at most ten. */
  lemma {:induction false} VarintReadsGroups(b: Bytes, i: nat, shift: nat, v: nat, next: nat)
    ensures VarintAt(b, i, shift) == Got(v, next)
       <==> i < next <= |b| && (next == i + 1 || shift + 7 * (next - i - 1) <= 63)
            && IsVarint(b[i..next]) && v == Groups(b[i..next])
    decreases |b| - i
  {
    if i < next <= |b| {
      var t := b[i..next];
      assert t[0] == b[i];
      if b[i] < 128 {
        assert next == i + 1 ==> t[1..] == [];
      } else {
        assert t[1..] == b[i + 1..next];
        if shift + 7 <= 63 && next > i + 1 {
          VarintReadsGroups(b, i + 1, shift + 7, Groups(t[1..]), next);
          assert forall k :: 0 <= k < |t| - 1 ==> t[1..][k] == t[k + 1];
        }
      }
    }
    if i < |b| && b[i] >= 128 && shift + 7 <= 63 && VarintAt(b, i + 1, shift + 7).Got? {
      var rest := VarintAt(b, i + 1, shift + 7);
      VarintReadsGroups(b, i + 1, shift + 7, rest.value, rest.next);
    }
  }

  /** A number is read exactly from a varint of at most ten bytes, as the Number nearest to what
      its groups spell. */
  lemma NumberReadsGroups(b: Bytes, i: nat, next: nat)
    ensures NumberAt(b, i).Got? && NumberAt(b, i).next == next
       <==> i < next <= |b| && next <= i + 10 && IsVarint(b[i..next])
    ensures i < next <= |b| && next <= i + 10 && IsVarint(b[i..next]) ==>
              NumberAt(b, i) == Got(Round(Groups(b[i..next])), next)
  {
    var read := VarintAt(b, i, 0);
    if read.Got? { VarintReadsGroups(b, i, 0, read.value, read.next); }
    if i < next <= |b| { VarintReadsGroups(b, i, 0, Groups(b[i..next]), next); }
    hide VarintAt, Groups, IsVarint, Round;
  }

  // ----- Records of the other kinds -----

  /** The tag of a record, unshrunk. */
  ghost function Tag(num: nat, wt: nat): Bytes { VarintOf(8 * num + wt) }

  lemma TagReads(num: nat, wt: nat, pre: Bytes, post: Bytes)
    requires num < 0x2000_0000 && wt < 8
    ensures NumberAt(pre + Tag(num, wt) + post, |pre|) == Got(8 * num + wt, |pre| + |Tag(num, wt)|)
    ensures (8 * num + wt) % TWO32 / 8 == num && (8 * num + wt) % 8 == wt
  {
    hide VarintOf, NumberAt, Round;
    SafeReadsBack(8 * num + wt, pre, post);
  }

  /** Kind 0: a number. */
  lemma NumberRecord(num: nat, n: nat, pre: Bytes, post: Bytes)
    requires num < 0x2000_0000 && n <= MAX_SAFE && |pre + Tag(num, 0) + (VarintOf(n) + post)| <= MAX_SAFE
    ensures FieldAt(pre + Tag(num, 0) + (VarintOf(n) + post), |pre|)
         == Got(Field(num, 0, Number(n)), |pre| + |Tag(num, 0)| + |VarintOf(n)|)
  {
    hide VarintOf, NumberAt, Round;
    TagReads(num, 0, pre, VarintOf(n) + post);
    SafeReadsBack(n, pre + Tag(num, 0), post);
    assert pre + Tag(num, 0) + (VarintOf(n) + post) == (pre + Tag(num, 0)) + VarintOf(n) + post;
  }

  /** Kinds 1 and 5: eight and four bytes, or as many as there are. */
  lemma FixedRecords(num: nat, wide: bool, pre: Bytes, post: Bytes)
    requires num < 0x2000_0000
    requires |pre + Tag(num, if wide then 1 else 5) + post| <= MAX_SAFE
    ensures var wt, size := if wide then 1 else 5, if wide then 8 else 4;
            var value := Slice(if size <= |post| then post[..size] else post);
            FieldAt(pre + Tag(num, wt) + post, |pre|) == Got(Field(num, wt, value), |pre| + |Tag(num, wt)| + size)
  {
    hide VarintOf, NumberAt, Round;
    var wt, size := if wide then 1 else 5, if wide then 8 else 4;
    TagReads(num, wt, pre, post);
    var b, j := pre + Tag(num, wt) + post, |pre| + |Tag(num, wt)|;
    assert b[j..] == post;
    if size <= |post| { assert b[j..j + size] == post[..size]; }
  }

  /** The remaining kinds are refused. */
  lemma OtherRecords(num: nat, wt: nat, pre: Bytes, post: Bytes)
    requires num < 0x2000_0000 && wt < 8 && wt != 0 && wt != 1 && wt != 2 && wt != 5
    requires |pre + Tag(num, wt) + post| <= MAX_SAFE
    ensures FieldAt(pre + Tag(num, wt) + post, |pre|) == Bad(WireTypeUnsupported)
  {
    hide VarintOf, NumberAt, Round;
    TagReads(num, wt, pre, post);
  }

  /** Lengths of frames are in network order. */
  lemma NetworkOrder(b: Bytes, i: nat)
    requires i + 4 <= |b|
    ensures ReadUInt32(b, i)
         == 0x100_0000 * b[i] as nat + 0x1_0000 * b[i + 1] as nat + 0x100 * b[i + 2] as nat + b[i + 3] as nat
  {
  }
}
