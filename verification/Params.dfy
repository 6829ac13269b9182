/** The parameters of an intent: `normParams` of src/intent.js. What it accepts, and that accepted
    parameters are such that their canonical text tells them apart. */
module Params {
  import opened Prelude
  import opened JsonStrings
  import opened CanonicalJson

  const MAX_TEXT: nat := 16 * 1024
  const MAX_STRING: nat := 4096
  const MAX_ITEMS: nat := 256
  const MAX_MEMBERS: nat := 64
  const MAX_KEY: nat := 128

  /** "__proto__": assigning to it makes no member. */
  const PROTO: Text := [0x5F, 0x5F, 0x70, 0x72, 0x6F, 0x74, 0x6F, 0x5F, 0x5F]

  lemma ProtoIsSpelled()
    ensures |PROTO| == |"__proto__"| && forall i :: 0 <= i < |PROTO| ==> PROTO[i] as int == "__proto__"[i] as int
  {
  }

  // ----- Checks on the parameters as sent -----

  /** `JSON.stringify(v)` */
  function Sent(v: Json): Text
    decreases v, 1, 0
  {
    match v
    case Bool(b) => if b then [0x74, 0x72, 0x75, 0x65] else [0x66, 0x61, 0x6C, 0x73, 0x65]
    case Number(n) => Decimal(n)
    case Fraction(text) => text
    case Str(s) => Quoted(s)
    case Arr(items) => [OPEN_BRACKET] + ItemsSent(v, 0)
    case Obj(ms) => [OPEN_BRACE] + MembersSent(v, 0)
    case _ => [0x6E, 0x75, 0x6C, 0x6C]
  }

  /** From the `i`-th item on. */
  function ItemsSent(v: Json, i: nat): Text
    requires v.Arr? && i <= |v.items|
    decreases v, 0, |v.items| - i
  {
    if i == |v.items| then [CLOSE_BRACKET]
    else (if i > 0 then [COMMA] else []) + (Sent(v.items[i]) + ItemsSent(v, i + 1))
  }

  function MembersSent(v: Json, i: nat): Text
    requires v.Obj? && i <= |v.members|
    decreases v, 0, |v.members| - i
  {
    if i == |v.members| then [CLOSE_BRACE]
    else
      var m := v.members[i];
      (if i > 0 then [COMMA] else []) + (Quoted(m.key) + ([COLON] + Sent(m.value)) + MembersSent(v, i + 1))
  }

  /** What the replacer lets pass: finite numbers and strings that are not too long. */
  predicate Bounded(v: Json) {
    match v
    case NonFinite => false
    case Unserializable => false
    case Str(s) => |s| <= MAX_STRING
    case Arr(items) => forall i :: 0 <= i < |items| ==> Bounded(items[i])
    case Obj(ms) => forall i :: 0 <= i < |ms| ==> Bounded(ms[i].value)
    case _ => true
  }

  predicate Disallowed(u: Unit) {
    || u <= 0x1F || u == 0x7F || 0x200B <= u <= 0x200F || 0x202A <= u <= 0x202E || 0x2060 <= u <= 0x2064 || u == 0xFEFF
  }

  predicate CleanText(t: Text) {
    forall i :: 0 <= i < |t| ==> !Disallowed(t[i])
  }

  // ----- Normalising -----

  function Norm(v: Json, nfc: Text -> Text): Result<Json>
    decreases v, 1, 0
  {
    match v
    case Str(s) => if CleanText(s) then Ok(Str(nfc(s))) else Err(BadIntent)
    case Arr(items) =>
      if |items| > MAX_ITEMS then Err(BadIntent)
      else
        var normal :- NormItems(v, 0, [], nfc);
        Ok(Arr(normal))
    case Obj(ms) =>
      if |ms| > MAX_MEMBERS then Err(BadIntent)
      else
        var normal :- NormMembers(v, 0, [], nfc);
        Ok(Obj(normal))
    case _ => Ok(v)
  }

  function NormItems(v: Json, i: nat, done: seq<Json>, nfc: Text -> Text): Result<seq<Json>>
    requires v.Arr? && i <= |v.items|
    decreases v, 0, |v.items| - i
  {
    if i == |v.items| then Ok(done)
    else
      var x :- Norm(v.items[i], nfc);
      NormItems(v, i + 1, done + [x], nfc)
  }

  /** From the `i`-th member on; `o` is the object so far. */
  function NormMembers(v: Json, i: nat, o: seq<Member>, nfc: Text -> Text): Result<seq<Member>>
    requires v.Obj? && i <= |v.members|
    decreases v, 0, |v.members| - i
  {
    if i == |v.members| then Ok(o)
    else
      var k := nfc(v.members[i].key);
      if |v.members[i].key| > MAX_KEY || HasMember(o, k) then Err(BadIntent)
      else
        var x :- Norm(v.members[i].value, nfc);
        NormMembers(v, i + 1, if k == PROTO then o else o + [Member(k, x)], nfc)
  }

  /** Missing parameters are an empty object. */
  function NormParams(v: Json, nfc: Text -> Text): Result<Json> {
    if v.Null? then Ok(Obj([]))
    else if v.Obj? && |Sent(v)| <= MAX_TEXT && Bounded(v) then Norm(v, nfc)
    else Err(BadIntent)
  }

  /** The loops over items and members. */
  method Normalise(v: Json, nfc: Text -> Text) returns (r: Result<Json>)
    ensures r == Norm(v, nfc)
    decreases v
  {
    match v {
      case Str(s) => if CleanText(s) { return Ok(Str(nfc(s))); } else { return Err(BadIntent); }
      case Arr(items) =>
        if |items| > MAX_ITEMS { return Err(BadIntent); }
        var done: seq<Json> := [];
        for i := 0 to |items|
          invariant NormItems(v, 0, [], nfc) == NormItems(v, i, done, nfc)
        {
          var x := Normalise(items[i], nfc);
          if x.Err? { return x; }
          done := done + [x.value];
        }
        return Ok(Arr(done));
      case Obj(ms) =>
        if |ms| > MAX_MEMBERS { return Err(BadIntent); }
        var o: seq<Member> := [];
        for i := 0 to |ms|
          invariant NormMembers(v, 0, [], nfc) == NormMembers(v, i, o, nfc)
        {
          if |ms[i].key| > MAX_KEY { return Err(BadIntent); }
          var k := nfc(ms[i].key);
          if HasMember(o, k) { return Err(BadIntent); }
          var x := Normalise(ms[i].value, nfc);
          if x.Err? { return x; }
          if k != PROTO { o := o + [Member(k, x.value)]; }
        }
        return Ok(Obj(o));
      case _ => return Ok(v);
    }
  }

  // ----- What is accepted -----

  /** Keys that do not collide. */
  predicate Apart(ms: seq<Member>, nfc: Text -> Text) {
    forall i, j :: 0 <= i < j < |ms| ==> nfc(ms[i].key) != nfc(ms[j].key) || nfc(ms[i].key) == PROTO
  }

  /** Clean strings, few items and members, short keys that stay apart. */
  predicate Fine(v: Json, nfc: Text -> Text) {
    match v
    case Str(s) => CleanText(s)
    case Arr(items) => |items| <= MAX_ITEMS && forall i :: 0 <= i < |items| ==> Fine(items[i], nfc)
    case Obj(ms) =>
      && |ms| <= MAX_MEMBERS && Apart(ms, nfc)
      && forall i :: 0 <= i < |ms| ==> |ms[i].key| <= MAX_KEY && Fine(ms[i].value, nfc)
    case _ => true
  }

  /** The values in order, and the members that are kept. */
  ghost predicate ItemsNormal(v: Json, x: seq<Json>, nfc: Text -> Text)
    requires v.Arr?
  {
    |x| == |v.items| && forall i :: 0 <= i < |x| ==> Norm(v.items[i], nfc) == Ok(x[i])
  }

  lemma {:induction false} ItemsExactly(v: Json, i: nat, done: seq<Json>, nfc: Text -> Text)
    requires v.Arr? && i <= |v.items| && |done| == i
    requires forall j :: 0 <= j < i ==> Norm(v.items[j], nfc) == Ok(done[j])
    ensures NormItems(v, i, done, nfc).Ok? <==> forall j :: i <= j < |v.items| ==> Norm(v.items[j], nfc).Ok?
    ensures NormItems(v, i, done, nfc).Ok? ==> ItemsNormal(v, NormItems(v, i, done, nfc).value, nfc)
    decreases |v.items| - i
  {
    hide Norm;
    if i < |v.items| && Norm(v.items[i], nfc).Ok? {
      ItemsExactly(v, i + 1, done + [Norm(v.items[i], nfc).value], nfc);
    }
  }

  ghost predicate MadeOf(n: Member, m: Member, nfc: Text -> Text) {
    n.key == nfc(m.key) && Norm(m.value, nfc) == Ok(n.value)
  }

  ghost predicate Made(n: Member, v: Json, i: nat, nfc: Text -> Text)
    requires v.Obj? && i <= |v.members|
  {
    exists j :: 0 <= j < i && MadeOf(n, v.members[j], nfc)
  }

  ghost predicate Survives(m: Member, o: seq<Member>, nfc: Text -> Text) {
    nfc(m.key) != PROTO ==> exists k :: 0 <= k < |o| && MadeOf(o[k], m, nfc)
  }

  /** The object so far comes from the first `i` members, and they are all in it. */
  ghost predicate ComesFrom(v: Json, i: nat, o: seq<Member>, nfc: Text -> Text)
    requires v.Obj? && i <= |v.members|
  {
    && |o| <= i && DistinctKeys(o) && !HasMember(o, PROTO)
    && (forall k :: 0 <= k < |o| ==> Made(o[k], v, i, nfc))
    && (forall j :: 0 <= j < i ==> Survives(v.members[j], o, nfc))
  }

  lemma OneMoreMember(v: Json, i: nat, o: seq<Member>, nfc: Text -> Text)
    requires v.Obj? && i < |v.members| && ComesFrom(v, i, o, nfc)
    requires !HasMember(o, nfc(v.members[i].key)) && Norm(v.members[i].value, nfc).Ok?
    ensures var k := nfc(v.members[i].key);
            ComesFrom(v, i + 1, if k == PROTO then o else o + [Member(k, Norm(v.members[i].value, nfc).value)], nfc)
  {
    hide Norm;
    var k := nfc(v.members[i].key);
    forall n | Made(n, v, i, nfc) ensures Made(n, v, i + 1, nfc) {}
    if k != PROTO {
      var n := Member(k, Norm(v.members[i].value, nfc).value);
      assert MadeOf(n, v.members[i], nfc);
      assert Made(n, v, i + 1, nfc);
      PutLast(o, n);
      hide MadeOf, Made;
      forall j | 0 <= j < i ensures Survives(v.members[j], o + [n], nfc) { StillKept(v.members[j], o, n, nfc); }
      assert (o + [n])[|o|] == n;
      assert Survives(v.members[i], o + [n], nfc);
    }
  }

  lemma PutLast(o: seq<Member>, n: Member)
    requires DistinctKeys(o) && !HasMember(o, n.key)
    ensures DistinctKeys(o + [n]) && forall k :: HasMember(o + [n], k) <==> HasMember(o, k) || k == n.key
  {
    assert (o + [n])[|o|] == n;
    forall k | HasMember(o, k) ensures HasMember(o + [n], k) {
      var i :| 0 <= i < |o| && o[i].key == k;
      assert (o + [n])[i].key == k;
    }
  }

  lemma StillKept(m: Member, o: seq<Member>, n: Member, nfc: Text -> Text)
    requires Survives(m, o, nfc)
    ensures Survives(m, o + [n], nfc)
  {
    hide MadeOf;
    if nfc(m.key) != PROTO {
      var k :| 0 <= k < |o| && MadeOf(o[k], m, nfc);
      assert (o + [n])[k] == o[k];
    }
  }

  /** The member does not collide with those before it. */
  predicate ApartAt(v: Json, j: nat, nfc: Text -> Text)
    requires v.Obj? && j < |v.members|
  {
    var k := nfc(v.members[j].key);
    k == PROTO || forall h :: 0 <= h < j ==> nfc(v.members[h].key) != k
  }

  predicate MemberFine(v: Json, j: nat, nfc: Text -> Text)
    requires v.Obj? && j < |v.members|
  {
    |v.members[j].key| <= MAX_KEY && Norm(v.members[j].value, nfc).Ok? && ApartAt(v, j, nfc)
  }

  lemma {:induction false} MembersExactly(v: Json, i: nat, o: seq<Member>, nfc: Text -> Text)
    requires v.Obj? && i <= |v.members| && ComesFrom(v, i, o, nfc)
    ensures NormMembers(v, i, o, nfc).Ok? <==> forall j :: i <= j < |v.members| ==> MemberFine(v, j, nfc)
    ensures NormMembers(v, i, o, nfc).Ok? ==> ComesFrom(v, |v.members|, NormMembers(v, i, o, nfc).value, nfc)
    decreases |v.members| - i
  {
    hide Norm, ComesFrom, ApartAt, HasMember;
    if i < |v.members| {
      Collision(v, i, o, nfc);
      var k := nfc(v.members[i].key);
      if MemberFine(v, i, nfc) {
        OneMoreMember(v, i, o, nfc);
        MembersExactly(v, i + 1, if k == PROTO then o else o + [Member(k, Norm(v.members[i].value, nfc).value)], nfc);
      }
    }
  }

  lemma Collision(v: Json, i: nat, o: seq<Member>, nfc: Text -> Text)
    requires v.Obj? && i < |v.members| && ComesFrom(v, i, o, nfc)
    ensures HasMember(o, nfc(v.members[i].key)) <==> !ApartAt(v, i, nfc)
  {
    hide Norm;
    var k := nfc(v.members[i].key);
    if m :| 0 <= m < |o| && o[m].key == k {
      assert Made(o[m], v, i, nfc);
      var h :| 0 <= h < i && MadeOf(o[m], v.members[h], nfc);
      assert nfc(v.members[h].key) == k && HasMember(o, k);
    }
    if !ApartAt(v, i, nfc) {
      var h :| 0 <= h < i && nfc(v.members[h].key) == k;
      assert Survives(v.members[h], o, nfc);
      var m :| 0 <= m < |o| && MadeOf(o[m], v.members[h], nfc);
    }
  }

  lemma ApartExactly(v: Json, nfc: Text -> Text)
    requires v.Obj?
    ensures (forall j :: 0 <= j < |v.members| ==> ApartAt(v, j, nfc)) <==> Apart(v.members, nfc)
  {
    if Apart(v.members, nfc) {
      forall j | 0 <= j < |v.members| ensures ApartAt(v, j, nfc) {}
    } else {
      var i, j :| 0 <= i < j < |v.members| && nfc(v.members[i].key) == nfc(v.members[j].key) &&
        nfc(v.members[i].key) != PROTO;
      assert !ApartAt(v, j, nfc);
    }
  }

  lemma {:induction false} NormExactly(v: Json, nfc: Text -> Text)
    ensures Norm(v, nfc).Ok? <==> Fine(v, nfc)
    decreases v
  {
    if v.Arr? {
      forall i | 0 <= i < |v.items| ensures Norm(v.items[i], nfc).Ok? <==> Fine(v.items[i], nfc) {
        NormExactly(v.items[i], nfc);
      }
      hide Norm;
      ItemsExactly(v, 0, [], nfc);
      ArrayNorm(v, nfc);
    } else if v.Obj? {
      forall i | 0 <= i < |v.members| ensures Norm(v.members[i].value, nfc).Ok? <==> Fine(v.members[i].value, nfc) {
        NormExactly(v.members[i].value, nfc);
      }
      ObjectExactly(v, nfc);
    }
  }

  lemma ObjectExactly(v: Json, nfc: Text -> Text)
    requires v.Obj?
    requires forall i :: 0 <= i < |v.members| ==> (Norm(v.members[i].value, nfc).Ok? <==> Fine(v.members[i].value, nfc))
    ensures Norm(v, nfc).Ok? <==> Fine(v, nfc)
  {
    hide Norm, Fine, Apart, ApartAt, ComesFrom;
    NothingYet(v, nfc);
    MembersExactly(v, 0, [], nfc);
    ApartExactly(v, nfc);
    ObjectNorm(v, nfc);
    if Fine(v, nfc) {
      forall j | 0 <= j < |v.members| ensures MemberFine(v, j, nfc) {}
    }
    if NormMembers(v, 0, [], nfc).Ok? {
      forall j | 0 <= j < |v.members|
        ensures ApartAt(v, j, nfc) && |v.members[j].key| <= MAX_KEY && Fine(v.members[j].value, nfc)
      {
        assert MemberFine(v, j, nfc);
      }
    }
  }

  lemma ArrayNorm(v: Json, nfc: Text -> Text)
    requires v.Arr?
    ensures Norm(v, nfc).Ok? <==> |v.items| <= MAX_ITEMS && NormItems(v, 0, [], nfc).Ok?
    ensures Norm(v, nfc).Ok? ==> Norm(v, nfc).value == Arr(NormItems(v, 0, [], nfc).value)
  {
    hide NormItems;
  }

  lemma ObjectNorm(v: Json, nfc: Text -> Text)
    requires v.Obj?
    ensures Norm(v, nfc).Ok? <==> |v.members| <= MAX_MEMBERS && NormMembers(v, 0, [], nfc).Ok?
    ensures Norm(v, nfc).Ok? ==> Norm(v, nfc).value == Obj(NormMembers(v, 0, [], nfc).value)
    ensures Fine(v, nfc) <==>
              && |v.members| <= MAX_MEMBERS && Apart(v.members, nfc)
              && forall i :: 0 <= i < |v.members| ==> |v.members[i].key| <= MAX_KEY && Fine(v.members[i].value, nfc)
  {
    hide NormMembers, Apart;
  }

  lemma NothingYet(v: Json, nfc: Text -> Text)
    requires v.Obj?
    ensures ComesFrom(v, 0, [], nfc)
  {
  }

  /** What the two loops amount to. */
  lemma ArrayParts(v: Json, nfc: Text -> Text)
    requires v.Arr? && Norm(v, nfc).Ok?
    ensures Norm(v, nfc).value.Arr? && ItemsNormal(v, Norm(v, nfc).value.items, nfc)
  {
    ArrayNorm(v, nfc);
    ItemsExactly(v, 0, [], nfc);
    hide Norm, ItemsNormal;
  }

  lemma ObjectParts(v: Json, nfc: Text -> Text)
    requires v.Obj? && Norm(v, nfc).Ok?
    ensures Norm(v, nfc).value.Obj? && ComesFrom(v, |v.members|, Norm(v, nfc).value.members, nfc)
  {
    ObjectNorm(v, nfc);
    NothingYet(v, nfc);
    MembersExactly(v, 0, [], nfc);
    hide Norm, ComesFrom;
  }

  /** Finite numbers, short and clean strings, few items and members, short keys that stay apart. */
  predicate Admitted(v: Json, nfc: Text -> Text) {
    match v
    case NonFinite => false
    case Unserializable => false
    case Str(s) => |s| <= 4096 && CleanText(s)
    case Arr(items) => |items| <= 256 && forall i :: 0 <= i < |items| ==> Admitted(items[i], nfc)
    case Obj(ms) =>
      && |ms| <= 64 && Apart(ms, nfc)
      && forall i :: 0 <= i < |ms| ==> |ms[i].key| <= 128 && Admitted(ms[i].value, nfc)
    case _ => true
  }

  lemma {:induction false} AdmittedExactly(v: Json, nfc: Text -> Text)
    ensures Admitted(v, nfc) <==> Bounded(v) && Fine(v, nfc)
  {
    match v
    case Arr(items) =>
      forall i | 0 <= i < |items| ensures Admitted(items[i], nfc) <==> Bounded(items[i]) && Fine(items[i], nfc) {
        AdmittedExactly(items[i], nfc);
      }
    case Obj(ms) =>
      hide Apart;
      forall i | 0 <= i < |ms| ensures Admitted(ms[i].value, nfc) <==> Bounded(ms[i].value) && Fine(ms[i].value, nfc) {
        AdmittedExactly(ms[i].value, nfc);
      }
    case _ =>
  }

  /** Which parameters are accepted: none, or an object whose text is not too long. */
  predicate Acceptable(v: Json, nfc: Text -> Text) {
    v.Null? || (v.Obj? && |Sent(v)| <= 16384 && Admitted(v, nfc))
  }

  lemma ParamsExactly(v: Json, nfc: Text -> Text)
    ensures NormParams(v, nfc).Ok? <==> Acceptable(v, nfc)
  {
    NormExactly(v, nfc);
    AdmittedExactly(v, nfc);
    hide Norm, Fine, Admitted, Bounded, Sent;
  }

  /** Assigning to "__proto__" makes no member; every other member sent is there, normalised. */
  lemma ProtoVanishes(v: Json, nfc: Text -> Text)
    requires v.Obj? && Norm(v, nfc).Ok?
    ensures Norm(v, nfc).value.Obj? && !HasMember(Norm(v, nfc).value.members, PROTO)
    ensures var o := Norm(v, nfc).value.members;
            forall k :: k != PROTO ==>
              (HasMember(o, k) <==> exists j :: 0 <= j < |v.members| && nfc(v.members[j].key) == k)
  {
    ObjectParts(v, nfc);
    hide Norm;
    var o := Norm(v, nfc).value.members;
    forall k | k != PROTO
      ensures HasMember(o, k) <==> exists j :: 0 <= j < |v.members| && nfc(v.members[j].key) == k
    {
      if m :| 0 <= m < |o| && o[m].key == k {
        assert Made(o[m], v, |v.members|, nfc);
        var j :| 0 <= j < |v.members| && MadeOf(o[m], v.members[j], nfc);
      }
      if j :| 0 <= j < |v.members| && nfc(v.members[j].key) == k {
        assert Survives(v.members[j], o, nfc);
        var m :| 0 <= m < |o| && MadeOf(o[m], v.members[j], nfc);
      }
    }
  }

  /** What parameters mean: strings in normal form, items in place, and every member under its
      normal key, but for those called "__proto__". */
  ghost function NormalForm(v: Json, nfc: Text -> Text): Json
    decreases v, 1, 0
  {
    match v
    case Str(s) => Str(nfc(s))
    case Arr(items) => Arr(seq(|items|, i requires 0 <= i < |items| => NormalForm(items[i], nfc)))
    case Obj(ms) => Obj(Kept(v, |ms|, nfc))
    case _ => v
  }

  /** The first `i` members. */
  ghost function Kept(v: Json, i: nat, nfc: Text -> Text): seq<Member>
    requires v.Obj? && i <= |v.members|
    decreases v, 0, i
  {
    if i == 0 then []
    else
      var m := v.members[i - 1];
      Kept(v, i - 1, nfc) + (if nfc(m.key) == PROTO then [] else [Member(nfc(m.key), NormalForm(m.value, nfc))])
  }

  /** What is accepted is normalised so, and nothing else happens to it. */
  lemma {:induction false} NormIsNormalForm(v: Json, nfc: Text -> Text)
    requires Norm(v, nfc).Ok?
    ensures Norm(v, nfc).value == NormalForm(v, nfc)
    decreases v, 1, 0
  {
    match v
    case Arr(items) =>
      ArrayParts(v, nfc);
      var x := Norm(v, nfc).value.items;
      hide Norm;
      forall i | 0 <= i < |x| ensures x[i] == NormalForm(items[i], nfc) { NormIsNormalForm(items[i], nfc); }
    case Obj(ms) =>
      ObjectNorm(v, nfc);
      hide Norm;
      MembersKept(v, 0, nfc);
    case _ =>
  }

  lemma {:induction false} MembersKept(v: Json, i: nat, nfc: Text -> Text)
    requires v.Obj? && i <= |v.members| && NormMembers(v, i, Kept(v, i, nfc), nfc).Ok?
    ensures NormMembers(v, i, Kept(v, i, nfc), nfc).value == Kept(v, |v.members|, nfc)
    decreases v, 0, |v.members| - i
  {
    hide Norm, HasMember;
    if i < |v.members| {
      NormIsNormalForm(v.members[i].value, nfc);
      hide NormalForm;
      var m := v.members[i];
      assert nfc(m.key) == PROTO ==> Kept(v, i + 1, nfc) == Kept(v, i, nfc);
      MembersKept(v, i + 1, nfc);
    }
  }

  // ----- Accepted parameters have canonical texts that tell them apart -----

  /** All that is used of the normaliser here. */
  ghost predicate Idempotent(nfc: Text -> Text) {
    forall t :: nfc(nfc(t)) == nfc(t)
  }

  /** Normal parameters hold nothing that cannot be printed, and no key twice. */
  lemma {:induction false} NormPrints(v: Json, nfc: Text -> Text)
    requires Bounded(v) && Norm(v, nfc).Ok?
    ensures AllDistinct(Norm(v, nfc).value) && Clean(Norm(v, nfc).value)
    decreases v
  {
    if v.Arr? {
      ArrayParts(v, nfc);
      hide Norm;
      var x := Norm(v, nfc).value.items;
      forall i | 0 <= i < |x| ensures AllDistinct(x[i]) && Clean(x[i]) { NormPrints(v.items[i], nfc); }
    } else if v.Obj? {
      ObjectParts(v, nfc);
      hide Norm;
      var o := Norm(v, nfc).value.members;
      forall k | 0 <= k < |o| ensures AllDistinct(o[k].value) && Clean(o[k].value) {
        assert Made(o[k], v, |v.members|, nfc);
        var j :| 0 <= j < |v.members| && MadeOf(o[k], v.members[j], nfc);
        NormPrints(v.members[j].value, nfc);
      }
    }
  }

  /** Their keys are in normal form. */
  lemma {:induction false} NormIsProper(v: Json, nfc: Text -> Text)
    requires Idempotent(nfc) && WellFormed(v) && Norm(v, nfc).Ok?
    ensures Proper(Norm(v, nfc).value, nfc)
    decreases v
  {
    if v.Arr? {
      ArrayParts(v, nfc);
      hide Norm;
      var x := Norm(v, nfc).value.items;
      forall i | 0 <= i < |x| ensures Proper(x[i], nfc) { NormIsProper(v.items[i], nfc); }
    } else if v.Obj? {
      ObjectParts(v, nfc);
      hide Norm;
      var o := Norm(v, nfc).value.members;
      forall k | 0 <= k < |o| ensures nfc(o[k].key) == o[k].key && Proper(o[k].value, nfc) {
        assert Made(o[k], v, |v.members|, nfc);
        var j :| 0 <= j < |v.members| && MadeOf(o[k], v.members[j], nfc);
        NormIsProper(v.members[j].value, nfc);
      }
    }
  }

  /** The canonical text of the parameters, as it enters the hash of the intent. */
  function ParamsText(v: Json, nfc: Text -> Text): Result<Text> {
    var x :- NormParams(v, nfc);
    match Canonical(x, nfc) case Some(t) => Ok(t) case None => Err(TypeError)
  }

  /** Accepted parameters always print. */
  lemma TextExactly(v: Json, nfc: Text -> Text)
    ensures ParamsText(v, nfc).Ok? <==> Acceptable(v, nfc)
    ensures ParamsText(v, nfc).Ok? ==>
              NormParams(v, nfc).Ok? && Canonical(NormParams(v, nfc).value, nfc) == Some(ParamsText(v, nfc).value)
  {
    ParamsExactly(v, nfc);
    if Acceptable(v, nfc) {
      AdmittedExactly(v, nfc);
      if !v.Null? { NormPrints(v, nfc); }
      hide Norm, Acceptable, Canonical;
      CanonicalSucceeds(NormParams(v, nfc).value, nfc);
    }
  }

  /** Two accepted values have one text exactly when they are the same once normalised. */
  lemma AcceptedAreTold(a: Json, b: Json, nfc: Text -> Text)
    requires Idempotent(nfc) && WellFormed(a) && WellFormed(b) && Acceptable(a, nfc) && Acceptable(b, nfc)
    ensures NormParams(a, nfc).Ok? && NormParams(b, nfc).Ok?
    ensures ParamsText(a, nfc) == ParamsText(b, nfc) <==> Same(NormParams(a, nfc).value, NormParams(b, nfc).value, nfc)
  {
    TextExactly(a, nfc);
    TextExactly(b, nfc);
    AcceptedIsProper(a, nfc);
    AcceptedIsProper(b, nfc);
    hide NormParams, Acceptable, Same, Proper, Canonical;
    CanonicalIsUnambiguous(NormParams(a, nfc).value, NormParams(b, nfc).value, nfc);
  }

  lemma AcceptedIsProper(v: Json, nfc: Text -> Text)
    requires Idempotent(nfc) && WellFormed(v) && NormParams(v, nfc).Ok?
    ensures Proper(NormParams(v, nfc).value, nfc)
  {
    if !v.Null? {
      hide Norm, Proper;
      NormIsProper(v, nfc);
    }
  }

  // ----- Normal parameters are fixed points -----

  ghost predicate KeepsClean(nfc: Text -> Text) {
    forall t :: CleanText(t) ==> CleanText(nfc(t))
  }

  /** Normal: strings in normal form and clean, few items and members, distinct normal keys. */
  ghost predicate Normal(v: Json, nfc: Text -> Text) {
    match v
    case Str(s) => nfc(s) == s && CleanText(s)
    case Arr(items) => |items| <= MAX_ITEMS && forall i :: 0 <= i < |items| ==> Normal(items[i], nfc)
    case Obj(ms) =>
      && |ms| <= MAX_MEMBERS && DistinctKeys(ms) && !HasMember(ms, PROTO)
      && forall i :: 0 <= i < |ms| ==> nfc(ms[i].key) == ms[i].key && Normal(ms[i].value, nfc)
    case _ => true
  }

  /** Normalising may lengthen keys beyond what is accepted. */
  predicate ShortKeys(v: Json) {
    match v
    case Arr(items) => forall i :: 0 <= i < |items| ==> ShortKeys(items[i])
    case Obj(ms) => forall i :: 0 <= i < |ms| ==> |ms[i].key| <= MAX_KEY && ShortKeys(ms[i].value)
    case _ => true
  }

  lemma {:induction false} NormIsNormal(v: Json, nfc: Text -> Text)
    requires Idempotent(nfc) && KeepsClean(nfc) && Norm(v, nfc).Ok?
    ensures Normal(Norm(v, nfc).value, nfc)
    decreases v
  {
    if v.Arr? {
      ArrayParts(v, nfc);
      ArrayNorm(v, nfc);
      hide Norm;
      var x := Norm(v, nfc).value.items;
      forall i | 0 <= i < |x| ensures Normal(x[i], nfc) { NormIsNormal(v.items[i], nfc); }
    } else if v.Obj? {
      ObjectParts(v, nfc);
      ObjectNorm(v, nfc);
      hide Norm;
      var o := Norm(v, nfc).value.members;
      forall k | 0 <= k < |o| ensures nfc(o[k].key) == o[k].key && Normal(o[k].value, nfc) {
        assert Made(o[k], v, |v.members|, nfc);
        var j :| 0 <= j < |v.members| && MadeOf(o[k], v.members[j], nfc);
        NormIsNormal(v.members[j].value, nfc);
      }
    }
  }

  lemma {:induction false} NormalStays(v: Json, nfc: Text -> Text)
    requires Normal(v, nfc) && ShortKeys(v)
    ensures Norm(v, nfc) == Ok(v)
    decreases v, 1, 0
  {
    match v
    case Arr(items) => ItemsStay(v, 0, nfc);
    case Obj(ms) => MembersStay(v, 0, nfc);
    case _ =>
  }

  lemma {:induction false} ItemsStay(v: Json, i: nat, nfc: Text -> Text)
    requires v.Arr? && Normal(v, nfc) && ShortKeys(v) && i <= |v.items|
    ensures NormItems(v, i, v.items[..i], nfc) == Ok(v.items)
    decreases v, 0, |v.items| - i
  {
    if i == |v.items| {
      assert v.items[..i] == v.items;
    } else {
      NormalStays(v.items[i], nfc);
      hide Norm;
      ItemsStay(v, i + 1, nfc);
      assert v.items[..i] + [v.items[i]] == v.items[..i + 1];
    }
  }

  lemma {:induction false} MembersStay(v: Json, i: nat, nfc: Text -> Text)
    requires v.Obj? && Normal(v, nfc) && ShortKeys(v) && i <= |v.members|
    ensures NormMembers(v, i, v.members[..i], nfc) == Ok(v.members)
    decreases v, 0, |v.members| - i
  {
    if i == |v.members| {
      assert v.members[..i] == v.members;
    } else {
      var m := v.members[i];
      NormalStays(m.value, nfc);
      hide Norm;
      MembersStay(v, i + 1, nfc);
      assert v.members[..i] + [Member(m.key, m.value)] == v.members[..i + 1];
      assert HasMember(v.members, m.key);
      assert !HasMember(v.members[..i], m.key);
    }
  }

  lemma {:induction false} FineIsShort(v: Json, nfc: Text -> Text)
    requires Fine(v, nfc)
    ensures ShortKeys(v)
  {
    match v
    case Arr(items) => forall i | 0 <= i < |items| ensures ShortKeys(items[i]) { FineIsShort(items[i], nfc); }
    case Obj(ms) => forall i | 0 <= i < |ms| ensures ShortKeys(ms[i].value) { FineIsShort(ms[i].value, nfc); }
    case _ =>
  }

  /** All lengths are as accepted. */
  predicate Short(v: Json) { |Sent(v)| <= MAX_TEXT && Bounded(v) && ShortKeys(v) }

  /** Normal parameters are accepted as they are exactly when they are within the limits. */
  lemma ParamsAreStable(v: Json, nfc: Text -> Text)
    requires Idempotent(nfc) && KeepsClean(nfc) && NormParams(v, nfc).Ok?
    ensures var x := NormParams(v, nfc).value;
            (NormParams(x, nfc).Ok? <==> Short(x)) && (NormParams(x, nfc) == Ok(x) <==> Short(x))
  {
    var x := NormParams(v, nfc).value;
    assert Normal(Obj([]), nfc);
    if !v.Null? {
      NormIsNormal(v, nfc);
      ObjectParts(v, nfc);
    }
    NormExactly(x, nfc);
    hide Norm, Normal, Fine, ShortKeys, Bounded, Sent;
    if Fine(x, nfc) { FineIsShort(x, nfc); }
    if ShortKeys(x) { NormalStays(x, nfc); }
  }
}
