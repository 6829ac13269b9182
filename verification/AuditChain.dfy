/** The hash chain of src/audit.js over the configured store: each receipt's hash covers the
    previous hash and the receipt's canonical text. SHA-256 is an ideal hash. */
module AuditChain {
  import opened Prelude
  import opened JsonStrings
  import opened CanonicalJson

  /** An object's members, in insertion order. */
  type Record = seq<Member>

  const SEQ: Text := [0x73, 0x65, 0x71]
  const ID: Text := [0x69, 0x64]
  const TS: Text := [0x74, 0x73]
  const HASH: Text := [0x68, 0x61, 0x73, 0x68]
  const PREV_HASH: Text := [0x70, 0x72, 0x65, 0x76, 0x5F, 0x68, 0x61, 0x73, 0x68]
  const REQUEST_ID: Text := [0x72, 0x65, 0x71, 0x75, 0x65, 0x73, 0x74, 0x5F, 0x69, 0x64]
  const GENESIS: Text := [0x47, 0x45, 0x4E, 0x45, 0x53, 0x49, 0x53]
  const RCPT: Text := [0x72, 0x63, 0x70, 0x74, 0x5F]
  const BAR: Unit := 0x7C

  // ----- Members of an object -----

  function Get(r: Record, k: Text): Option<Json> {
    if r == [] then None else if r[0].key == k then Some(r[0].value) else Get(r[1..], k)
  }

  /** `r[k] = v` */
  function Put(r: Record, k: Text, v: Json): Record {
    if r == [] then [Member(k, v)]
    else if r[0].key == k then [Member(k, v)] + r[1..]
    else [r[0]] + Put(r[1..], k, v)
  }

  function Without(r: Record, k: Text): Record {
    if r == [] then [] else (if r[0].key == k then [] else [r[0]]) + Without(r[1..], k)
  }

  /** `{ ...r, ...extra }` */
  function Spread(r: Record, extra: Record): Record
    decreases extra
  {
    if extra == [] then r else Spread(Put(r, extra[0].key, extra[0].value), extra[1..])
  }

  predicate Truthy(v: Option<Json>) {
    match v
    case None => false
    case Some(Null) => false
    case Some(Bool(b)) => b
    case Some(Number(n)) => n != 0
    case Some(Str(s)) => s != []
    case Some(_) => true
  }

  // ----- redact -----

  function Ascii(s: string): Text {
    seq(|s|, i requires 0 <= i < |s| => if s[i] < '\U{80}' then s[i] as Unit else 0)
  }

  /** As a regular expression without regard to case compares letters. */
  function Lower(t: Text): Text {
    seq(|t|, i requires 0 <= i < |t| => if 0x41 <= t[i] <= 0x5A then t[i] + 0x20 else t[i])
  }

  predicate Contains(t: Text, part: Text) {
    part <= t || (t != [] && Contains(t[1..], part))
  }

  /** `token_` somewhere, with neither `jti` nor `_jti` behind it. */
  predicate NamesToken(t: Text) {
    t != []
    && ((Ascii("token_") <= t && !(Ascii("jti") <= t[|Ascii("token_")|..]) &&
          !(Ascii("_jti") <= t[|Ascii("token_")|..]))
        || NamesToken(t[1..]))
  }

  /** A field whose name looks like a secret's. */
  predicate Sensitive(k: Text) {
    var l := Lower(k);
    && (|| Contains(l, Ascii("secret")) || Contains(l, Ascii("priv")) || Contains(l, Ascii("password"))
        || Contains(l, Ascii("bootstrap")) || Contains(l, Ascii("apikey")) || Contains(l, Ascii("api_key"))
        || Contains(l, Ascii("api-key")) || NamesToken(l))
    && k != Ascii("token_jti") && k != Ascii("action_jti") && k != Ascii("action_token")
  }

  /** A sealed credential. */
  predicate HoldsEnvelope(k: Text, v: Json) {
    (k == Ascii("action_token") || k == Ascii("approval")) && v.Str? && Ascii("AR1.") <= v.s
  }

  function RedactedValue(k: Text, v: Json): Json {
    if Sensitive(k) then Str(Ascii("[redacted]"))
    else if HoldsEnvelope(k, v) then Str(Ascii("[envelope-redacted]"))
    else v
  }

  function Redacted(r: Record): (safe: Record)
    ensures |safe| == |r| && forall i :: 0 <= i < |r| ==>
            safe[i] == Member(r[i].key, RedactedValue(r[i].key, r[i].value))
  {
    seq(|r|, i requires 0 <= i < |r| => Member(r[i].key, RedactedValue(r[i].key, r[i].value)))
  }

  method Redact(entry: Record) returns (out: Record)
    ensures out == Redacted(entry)
  {
    out := entry;
    for i := 0 to |entry|
      invariant |out| == |entry|
      invariant forall j :: 0 <= j < i ==> out[j] == Redacted(entry)[j]
      invariant forall j :: i <= j < |entry| ==> out[j] == entry[j]
    {
      out := out[i := Member(entry[i].key, RedactedValue(entry[i].key, entry[i].value))];
    }
  }

  // ----- What is redacted, exactly -----

  /** The word stands here, in letters of either case; words are given in lower case. */
  ghost predicate SpelledAt(k: Text, at: int, word: string) {
    && 0 <= at && at + |word| <= |k|
    && forall j :: 0 <= j < |word| ==>
         k[at + j] as int == word[j] as int || ('a' <= word[j] <= 'z' && k[at + j] as int == word[j] as int - 32)
  }

  ghost predicate Spelled(k: Text, word: string) { exists at :: SpelledAt(k, at, word) }

  ghost predicate IsWord(k: Text, word: string) {
    |k| == |word| && forall j :: 0 <= j < |k| ==> k[j] as int == word[j] as int
  }

  /** The name of a secret: it holds one of these words, or speaks of a token other than by its
      number, and is none of the three names that are kept. */
  ghost predicate LooksSecret(k: Text) {
    && (|| Spelled(k, "secret") || Spelled(k, "priv") || Spelled(k, "password") || Spelled(k, "bootstrap")
        || Spelled(k, "apikey") || Spelled(k, "api_key") || Spelled(k, "api-key")
        || exists at :: SpelledAt(k, at, "token_") && !SpelledAt(k, at + 6, "jti") && !SpelledAt(k, at + 6, "_jti"))
    && !IsWord(k, "token_jti") && !IsWord(k, "action_jti") && !IsWord(k, "action_token")
  }

  ghost predicate IsEnvelope(k: Text, v: Json) {
    && (IsWord(k, "action_token") || IsWord(k, "approval"))
    && v.Str? && |v.s| >= 4 && v.s[0] == 0x41 && v.s[1] == 0x52 && v.s[2] == 0x31 && v.s[3] == 0x2E
  }

  predicate IsPlain(word: string) {
    forall j :: 0 <= j < |word| ==> word[j] < '\U{80}' && !('A' <= word[j] <= 'Z')
  }

  lemma LowerSpells(k: Text, at: int, word: string)
    requires IsPlain(word) && 0 <= at <= |k|
    ensures Ascii(word) <= Lower(k)[at..] <==> SpelledAt(k, at, word)
  {
    var l, w := Lower(k), Ascii(word);
    if at + |word| <= |k| {
      assert w <= l[at..] <==> forall j :: 0 <= j < |w| ==> w[j] == l[at..][j];
      forall j | 0 <= j < |w|
        ensures w[j] == l[at..][j] <==>
                (|| k[at + j] as int == word[j] as int
                 || ('a' <= word[j] <= 'z' && k[at + j] as int == word[j] as int - 32))
      {
        assert l[at..][j] == l[at + j];
      }
    }
  }

  lemma {:induction false} ContainsExactly(t: Text, part: Text)
    ensures Contains(t, part) <==> exists at :: 0 <= at <= |t| && part <= t[at..]
  {
    assert t[0..] == t;
    if t != [] {
      ContainsExactly(t[1..], part);
      if at :| 0 <= at <= |t[1..]| && part <= t[1..][at..] { assert t[1..][at..] == t[at + 1..]; }
      if at :| 0 < at <= |t| && part <= t[at..] { assert t[1..][at - 1..] == t[at..]; }
    }
  }

  lemma SpelledExactly(k: Text, word: string)
    requires IsPlain(word)
    ensures Contains(Lower(k), Ascii(word)) <==> Spelled(k, word)
  {
    ContainsExactly(Lower(k), Ascii(word));
    forall at | 0 <= at <= |k| ensures Ascii(word) <= Lower(k)[at..] <==> SpelledAt(k, at, word) {
      LowerSpells(k, at, word);
    }
    if Spelled(k, word) {
      var at :| SpelledAt(k, at, word);
      assert Ascii(word) <= Lower(k)[at..];
    }
    hide Contains, Lower, Ascii;
  }

  /** A token named here, but not its number. */
  ghost predicate TokenAt(l: Text, at: int) {
    && 0 <= at <= |l| && Ascii("token_") <= l[at..]
    && !(Ascii("jti") <= l[at + 6..]) && !(Ascii("_jti") <= l[at + 6..])
  }

  lemma {:induction false} NamesTokenFrom(l: Text, i: nat)
    requires i <= |l|
    ensures NamesToken(l[i..]) <==> exists at :: i <= at && TokenAt(l, at)
    decreases |l| - i
  {
    if i < |l| {
      NamesTokenFrom(l, i + 1);
      var t := l[i..];
      assert t[1..] == l[i + 1..];
      if |t| >= 6 { assert t[6..] == l[i + 6..]; }
      assert TokenAt(l, i) <==> Ascii("token_") <= t && !(Ascii("jti") <= t[6..]) && !(Ascii("_jti") <= t[6..]);
      hide Ascii;
      if at :| i <= at && TokenAt(l, at) { assert at == i || i + 1 <= at; }
    }
  }

  lemma TokenIsAt(k: Text, at: int)
    ensures TokenAt(Lower(k), at)
       <==> SpelledAt(k, at, "token_") && !SpelledAt(k, at + 6, "jti") && !SpelledAt(k, at + 6, "_jti")
  {
    if 0 <= at <= |k| { LowerSpells(k, at, "token_"); }
    if 0 <= at + 6 <= |k| {
      LowerSpells(k, at + 6, "jti");
      LowerSpells(k, at + 6, "_jti");
    }
    assert |Ascii("token_")| == 6 && |Lower(k)| == |k|;
    hide Lower, Ascii;
  }

  lemma TokenExactly(k: Text)
    ensures NamesToken(Lower(k))
       <==> exists at :: SpelledAt(k, at, "token_") && !SpelledAt(k, at + 6, "jti") && !SpelledAt(k, at + 6, "_jti")
  {
    NamesTokenFrom(Lower(k), 0);
    assert Lower(k)[0..] == Lower(k);
    assert forall at :: SpelledAt(k, at, "token_") ==> 0 <= at;
    hide NamesToken, Lower, Ascii, SpelledAt;
    forall at
      ensures TokenAt(Lower(k), at)
         <==> SpelledAt(k, at, "token_") && !SpelledAt(k, at + 6, "jti") && !SpelledAt(k, at + 6, "_jti")
    {
      TokenIsAt(k, at);
    }
    hide TokenAt;
  }

  lemma IsAscii(k: Text, word: string)
    requires IsPlain(word)
    ensures k == Ascii(word) <==> IsWord(k, word)
  {
  }

  lemma SensitiveExactly(k: Text)
    ensures Sensitive(k) <==> LooksSecret(k)
  {
    hide Lower, Ascii, Contains, NamesToken, Spelled, SpelledAt, IsWord;
    SpelledExactly(k, "secret");
    SpelledExactly(k, "priv");
    SpelledExactly(k, "password");
    SpelledExactly(k, "bootstrap");
    SpelledExactly(k, "apikey");
    SpelledExactly(k, "api_key");
    SpelledExactly(k, "api-key");
    TokenExactly(k);
    IsAscii(k, "token_jti");
    IsAscii(k, "action_jti");
    IsAscii(k, "action_token");
  }

  /** Secrets and sealed credentials are replaced, and every other member stays as it is. */
  lemma RedactsExactly(r: Record, i: nat)
    requires i < |r|
    ensures var safe, k, v := Redacted(r), r[i].key, r[i].value;
      && |safe| == |r| && safe[i].key == k
      && if LooksSecret(k) then safe[i].value.Str? && IsWord(safe[i].value.s, "[redacted]")
         else if IsEnvelope(k, v) then safe[i].value.Str? && IsWord(safe[i].value.s, "[envelope-redacted]")
         else safe[i].value == v
  {
    hide Sensitive, LooksSecret, Ascii, IsWord, HoldsEnvelope, IsEnvelope;
    SensitiveExactly(r[i].key);
    EnvelopeExactly(r[i].key, r[i].value);
    IsAscii(Ascii("[redacted]"), "[redacted]");
    IsAscii(Ascii("[envelope-redacted]"), "[envelope-redacted]");
  }

  lemma EnvelopeExactly(k: Text, v: Json)
    ensures HoldsEnvelope(k, v) <==> IsEnvelope(k, v)
  {
    IsAscii(k, "action_token");
    IsAscii(k, "approval");
    if v.Str? { EnvelopeStarts(v); }
    hide Ascii, IsWord;
  }

  lemma EnvelopeStarts(v: Json)
    requires v.Str?
    ensures Ascii("AR1.") <= v.s <==>
            |v.s| >= 4 && v.s[0] == 0x41 && v.s[1] == 0x52 && v.s[2] == 0x31 && v.s[3] == 0x2E
  {
  }

  // ----- The log -----

  function SeqOf(r: Record): int {
    match Get(r, SEQ) case Some(Number(n)) => n case _ => 0
  }

  function InsertBySeq(r: Record, rs: seq<Record>): seq<Record> {
    if rs == [] || SeqOf(r) <= SeqOf(rs[0]) then [r] + rs else [rs[0]] + InsertBySeq(r, rs[1..])
  }

  /** `centralReceipts`: what the store holds, by sequence number. */
  function Central(store: seq<Record>): seq<Record> {
    if store == [] then [] else InsertBySeq(store[0], Central(store[1..]))
  }

  /** The store keeps one record for each id. */
  function Stored(store: seq<Record>, r: Record): seq<Record> {
    if store == [] then [r]
    else if Get(store[0], ID) == Get(r, ID) then [r] + store[1..]
    else [store[0]] + Stored(store[1..], r)
  }

  function HashOf(r: Record): Json {
    match Get(r, HASH) case Some(v) => v case None => Unserializable
  }

  function AsText(v: Json): Text {
    match v case Str(s) => s case _ => []
  }

  /** The last receipt's hash. */
  function HeadOf(all: seq<Record>): Text {
    if all == [] then GENESIS else AsText(HashOf(all[|all| - 1]))
  }

  function ReceiptId(n: int): Text { RCPT + Decimal(n) }

  datatype Ideal = Ideal(hash: Text -> Text, nfc: Text -> Text)

  /** What the hash of a receipt is taken of. */
  function Digest(prev: Text, body: Record, f: Ideal): Option<Text> {
    match Canonical(Obj(body), f.nfc) case None => None case Some(t) => Some(f.hash(prev + [BAR] + t))
  }

  /** The members that the log itself sets first. */
  function Own(prev: Text, n: SafeInt, ts: SafeInt): Record {
    [Member(SEQ, Number(n)), Member(ID, Str(ReceiptId(n))), Member(TS, Number(ts)), Member(PREV_HASH, Str(prev))]
  }

  function BodyOf(prev: Text, n: SafeInt, ts: SafeInt, entry: Record, rid: Text): Record {
    var body := Spread(Own(prev, n, ts), entry);
    if Truthy(Get(body, REQUEST_ID)) then body else Put(body, REQUEST_ID, Str(rid))
  }

  /** `append`: the receipt for a redacted entry, unless it cannot be printed. */
  function Receipt(all: seq<Record>, entry: Record, ts: SafeInt, rid: Text, f: Ideal): Option<Record>
    requires |all| < MAX_RECEIPTS
  {
    var body := BodyOf(HeadOf(all), |all| + 1, ts, entry, rid);
    match Digest(HeadOf(all), body, f) case None => None case Some(h) => Some(Put(body, HASH, Str(h)))
  }

  /** Sequence numbers stay exact. */
  const MAX_RECEIPTS: nat := 0x1F_FFFF_FFFF_FFFF

  datatype Verdict = Intact(count: nat, head: Text) | Broken(at: Option<Json>) | Threw

  /** `verify` from the `i`-th receipt on, when `prev` is the hash before it. */
  function VerifyFrom(all: seq<Record>, i: nat, prev: Text, f: Ideal): Verdict
    decreases |all| - i
  {
    if i >= |all| then Intact(|all|, prev)
    else
      var body := Without(all[i], HASH);
      if Get(body, PREV_HASH) != Some(Str(prev)) then Broken(Get(body, SEQ))
      else
        match Digest(prev, body, f)
        case None => Threw
        case Some(h) =>
          if HashOf(all[i]) != Str(h) then Broken(Get(body, SEQ)) else VerifyFrom(all, i + 1, h, f)
  }

  function Verified(all: seq<Record>, f: Ideal): Verdict { VerifyFrom(all, 0, GENESIS, f) }

  class AuditLog {
    const f: Ideal
    var store: seq<Record>

    constructor (f: Ideal)
      ensures this.f == f && store == []
    {
      this.f := f;
      store := [];
    }

    method Append(entry: Record, ts: SafeInt, rid: Text) returns (rec: Option<Record>)
      requires |Central(store)| < MAX_RECEIPTS
      modifies this
      ensures rec == Receipt(Central(old(store)), Redacted(entry), ts, rid, f)
      ensures store == if rec.Some? then Stored(old(store), rec.value) else old(store)
    {
      var central := Central(store);
      var prev := GENESIS;
      if central != [] { prev := AsText(HashOf(central[|central| - 1])); }
      var n := |central| + 1;
      var safe := Redact(entry);
      var body := Spread(Own(prev, n, ts), safe);
      if !Truthy(Get(body, REQUEST_ID)) { body := Put(body, REQUEST_ID, Str(rid)); }
      var text := Canonical(Obj(body), f.nfc);
      if text.None? { return None; }
      var hash := f.hash(prev + [BAR] + text.value);
      rec := Some(Put(body, HASH, Str(hash)));
      store := Stored(store, rec.value);
    }

    method Verify() returns (verdict: Verdict)
      ensures verdict == Verified(Central(store), f)
    {
      var all := Central(store);
      var prev := GENESIS;
      for i := 0 to |all|
        invariant Verified(all, f) == VerifyFrom(all, i, prev, f)
      {
        var r := all[i];
        var body := Without(r, HASH);
        if Get(body, PREV_HASH) != Some(Str(prev)) { return Broken(Get(body, SEQ)); }
        var text := Canonical(Obj(body), f.nfc);
        if text.None? { return Threw; }
        var h := f.hash(prev + [BAR] + text.value);
        if HashOf(r) != Str(h) { return Broken(Get(body, SEQ)); }
        prev := h;
      }
      return Intact(|all|, prev);
    }
  }

  // ----- The hash -----

  /** Two texts never hash alike, and a hash is written without a bar. */
  ghost predicate IsIdeal(f: Ideal) {
    && (forall s, t :: f.hash(s) == f.hash(t) ==> s == t)
    && (forall s :: BAR !in f.hash(s))
  }

  lemma BarSplits(p: Text, x: Text, q: Text, y: Text)
    requires BAR !in p && BAR !in q && p + [BAR] + x == q + [BAR] + y
    ensures p == q && x == y
  {
    var s := p + [BAR] + x;
    assert s[|p|] == BAR && s[|q|] == BAR;
    assert forall i :: 0 <= i < |p| ==> s[i] == p[i];
    assert forall i :: 0 <= i < |q| ==> s[i] == q[i];
    assert |p| == |q|;
    assert s[..|p|] == p && s[..|q|] == q && s[|p| + 1..] == x && s[|q| + 1..] == y;
  }

  // ----- What a log that verifies is -----

  /** The hash before the `i`-th receipt. */
  function Prev(all: seq<Record>, i: nat): Text
    requires i <= |all|
  {
    if i == 0 then GENESIS else AsText(HashOf(all[i - 1]))
  }

  ghost predicate Linked(all: seq<Record>, i: int, f: Ideal) {
    && 0 <= i < |all|
    && Get(Without(all[i], HASH), PREV_HASH) == Some(Str(Prev(all, i)))
    && Digest(Prev(all, i), Without(all[i], HASH), f).Some?
    && HashOf(all[i]) == Str(Digest(Prev(all, i), Without(all[i], HASH), f).value)
  }

  lemma {:induction false} VerifyFromExactly(all: seq<Record>, i: nat, f: Ideal)
    requires i <= |all|
    ensures VerifyFrom(all, i, Prev(all, i), f).Intact? <==> forall j :: i <= j < |all| ==> Linked(all, j, f)
    ensures VerifyFrom(all, i, Prev(all, i), f).Intact? ==>
              VerifyFrom(all, i, Prev(all, i), f) == Intact(|all|, Prev(all, |all|))
    decreases |all| - i
  {
    hide Digest, Without, Get;
    if i < |all| {
      VerifyFromExactly(all, i + 1, f);
      assert Linked(all, i, f) ==> VerifyFrom(all, i, Prev(all, i), f) == VerifyFrom(all, i + 1, Prev(all, i + 1), f);
      assert !Linked(all, i, f) ==> !VerifyFrom(all, i, Prev(all, i), f).Intact?;
    }
  }

  /** A log verifies exactly when every receipt names the hash before it and carries its own. */
  lemma VerifiedExactly(all: seq<Record>, f: Ideal)
    ensures Verified(all, f).Intact? <==> forall j :: 0 <= j < |all| ==> Linked(all, j, f)
    ensures Verified(all, f).Intact? ==> Verified(all, f) == Intact(|all|, Prev(all, |all|))
  {
    VerifyFromExactly(all, 0, f);
  }

  /** Where the chain breaks: at the first receipt that is not linked, whose number is reported, unless
      it cannot even be printed. */
  ghost predicate BreaksAt(all: seq<Record>, j: int, v: Verdict, f: Ideal) {
    && 0 <= j < |all| && !Linked(all, j, f) && (forall i :: 0 <= i < j ==> Linked(all, i, f))
    && v == if Get(Without(all[j], HASH), PREV_HASH) == Some(Str(Prev(all, j)))
               && Canonical(Obj(Without(all[j], HASH)), f.nfc).None?
            then Threw else Broken(Get(Without(all[j], HASH), SEQ))
  }

  lemma {:induction false} BreaksFrom(all: seq<Record>, i: nat, f: Ideal)
    requires i <= |all| && (forall j :: 0 <= j < i ==> Linked(all, j, f))
    requires !VerifyFrom(all, i, Prev(all, i), f).Intact?
    ensures exists j :: BreaksAt(all, j, VerifyFrom(all, i, Prev(all, i), f), f)
    decreases |all| - i
  {
    hide Without, Get, Canonical;
    if Linked(all, i, f) {
      assert VerifyFrom(all, i, Prev(all, i), f) == VerifyFrom(all, i + 1, Prev(all, i + 1), f);
      BreaksFrom(all, i + 1, f);
    } else {
      assert BreaksAt(all, i, VerifyFrom(all, i, Prev(all, i), f), f);
    }
  }

  /** A log that does not verify is reported where it breaks first. */
  lemma BrokenAtFirst(all: seq<Record>, f: Ideal)
    requires !Verified(all, f).Intact?
    ensures exists j :: BreaksAt(all, j, Verified(all, f), f)
  {
    BreaksFrom(all, 0, f);
  }

  /** How the names are spelled. */
  lemma NamesAreSpelled()
    ensures SEQ == Ascii("seq") && ID == Ascii("id") && TS == Ascii("ts") && HASH == Ascii("hash")
    ensures PREV_HASH == Ascii("prev_hash") && REQUEST_ID == Ascii("request_id") && SIGNATURE == Ascii("signature")
    ensures GENESIS == Ascii("GENESIS") && RCPT == Ascii("rcpt_") && [BAR] == Ascii("|")
    ensures forall all: seq<Record> :: Prev(all, 0) == Ascii("GENESIS")
  {
  }

  // ----- Count and head fix the log -----

  ghost predicate AgreeAt(a: seq<Record>, b: seq<Record>, i: int, f: Ideal) {
    && 0 <= i < |a| && i < |b| && HashOf(a[i]) == HashOf(b[i])
    && Canonical(Obj(Without(a[i], HASH)), f.nfc) == Canonical(Obj(Without(b[i], HASH)), f.nfc)
    && Canonical(Obj(Without(a[i], HASH)), f.nfc).Some?
  }

  lemma PrevHasNoBar(all: seq<Record>, i: nat, f: Ideal)
    requires IsIdeal(f) && i <= |all| && forall j :: 0 <= j < |all| ==> Linked(all, j, f)
    ensures BAR !in Prev(all, i)
  {
    if i > 0 { assert Linked(all, i - 1, f); }
  }

  lemma LinkedText(all: seq<Record>, i: nat, f: Ideal) returns (t: Text)
    requires i < |all| && forall j :: 0 <= j < |all| ==> Linked(all, j, f)
    ensures Canonical(Obj(Without(all[i], HASH)), f.nfc) == Some(t)
    ensures HashOf(all[i]) == Str(f.hash(Prev(all, i) + [BAR] + t)) &&
            Prev(all, i + 1) == f.hash(Prev(all, i) + [BAR] + t)
  {
    hide Without, Get, Canonical;
    assert Linked(all, i, f);
    t := Canonical(Obj(Without(all[i], HASH)), f.nfc).value;
  }

  lemma {:induction false} HeadFixesPrefix(a: seq<Record>, b: seq<Record>, n: nat, f: Ideal)
    requires IsIdeal(f) && n <= |a| && n <= |b| && Prev(a, n) == Prev(b, n)
    requires forall j :: 0 <= j < |a| ==> Linked(a, j, f)
    requires forall j :: 0 <= j < |b| ==> Linked(b, j, f)
    ensures forall i :: 0 <= i < n ==> AgreeAt(a, b, i, f)
  {
    hide Without, Get, Linked, Canonical, Digest, HashOf;
    if n > 0 {
      var i := n - 1;
      var s := LinkedText(a, i, f);
      var t := LinkedText(b, i, f);
      PrevHasNoBar(a, i, f);
      PrevHasNoBar(b, i, f);
      BarSplits(Prev(a, i), s, Prev(b, i), t);
      HeadFixesPrefix(a, b, i, f);
    }
  }

  lemma {:induction false} HasWithout(r: Record, k: Text, l: Text)
    ensures HasMember(Without(r, k), l) <==> l != k && HasMember(r, l)
  {
    if r != [] {
      HasWithout(r[1..], k, l);
      MemberCons(r, l);
      if r[0].key != k {
        MemberCons(Without(r, k), l);
        assert Without(r, k)[1..] == Without(r[1..], k);
      } else {
        assert Without(r, k) == Without(r[1..], k);
      }
    }
  }

  lemma {:induction false} WithoutIn(r: Record, k: Text)
    ensures forall i :: 0 <= i < |Without(r, k)| ==> Without(r, k)[i] in r
    ensures forall i :: 0 <= i < |r| && r[i].key != k ==> r[i] in Without(r, k)
  {
    if r != [] {
      WithoutIn(r[1..], k);
      forall i | 0 <= i < |r| && r[i].key != k ensures r[i] in Without(r, k) {
        if i > 0 { assert r[1..][i - 1] == r[i]; }
      }
    }
  }

  lemma {:induction false} WithoutProper(r: Record, k: Text, nfc: Text -> Text)
    requires Proper(Obj(r), nfc)
    ensures Proper(Obj(Without(r, k)), nfc)
  {
    if r != [] {
      var tail := r[1..];
      assert Proper(Obj(tail), nfc);
      WithoutProper(tail, k, nfc);
      WithoutIn(tail, k);
      if r[0].key != k {
        var rest := Without(tail, k);
        forall i | 0 <= i < |rest| ensures rest[i].key != r[0].key { assert rest[i] in tail; }
        assert Without(r, k) == [r[0]] + rest;
      }
    }
  }

  lemma {:induction false} GetIsThere(r: Record, k: Text)
    ensures Get(r, k).Some? <==> HasMember(r, k)
    ensures Get(r, k).Some? ==> Member(k, Get(r, k).value) in r
  {
    if r != [] {
      GetIsThere(r[1..], k);
      MemberCons(r, k);
    }
  }

  lemma GetIsAt(r: Record, i: nat, nfc: Text -> Text)
    requires Proper(Obj(r), nfc) && i < |r|
    ensures Get(r, r[i].key) == Some(r[i].value)
  {
    var k := r[i].key;
    assert HasMember(r, k);
    GetIsThere(r, k);
    var j :| 0 <= j < |r| && r[j] == Member(k, Get(r, k).value);
    assert j == i;
  }

  /** The same receipt: the same members up to order, `signature` and normal form. */
  lemma AgreeIsSame(a: Record, b: Record, f: Ideal)
    requires Proper(Obj(a), f.nfc) && Proper(Obj(b), f.nfc) && Get(a, HASH).Some? && Get(b, HASH).Some?
    requires HashOf(a) == HashOf(b) && HashOf(a).Str?
    requires Canonical(Obj(Without(a, HASH)), f.nfc).Some?
    requires Canonical(Obj(Without(a, HASH)), f.nfc) == Canonical(Obj(Without(b, HASH)), f.nfc)
    ensures Same(Obj(a), Obj(b), f.nfc)
  {
    hide Canonical, Proper, Same, Without, Get, HasMember;
    var x, y := Without(a, HASH), Without(b, HASH);
    WithoutProper(a, HASH, f.nfc);
    WithoutProper(b, HASH, f.nfc);
    CanonicalIsUnambiguous(Obj(x), Obj(y), f.nfc);
    forall k | k != SIGNATURE ensures HasMember(a, k) <==> HasMember(b, k) { SameKey(a, b, k, f.nfc); }
    forall i, j | 0 <= i < |a| && 0 <= j < |b| && a[i].key == b[j].key && a[i].key != SIGNATURE
      ensures Same(a[i].value, b[j].value, f.nfc)
    {
      if a[i].key == HASH { SameHash(a, i, b, j, f.nfc); } else { SameValue(a, i, b, j, f.nfc); }
    }
    SameObjects(a, b, f.nfc);
  }

  lemma SameObjects(a: Record, b: Record, nfc: Text -> Text)
    requires forall k :: k != SIGNATURE ==> (HasMember(a, k) <==> HasMember(b, k))
    requires forall i, j :: 0 <= i < |a| && 0 <= j < |b| && a[i].key == b[j].key && a[i].key != SIGNATURE ==>
               Same(a[i].value, b[j].value, nfc)
    ensures Same(Obj(a), Obj(b), nfc)
  {
    hide HasMember;
  }

  lemma SameKey(a: Record, b: Record, k: Text, nfc: Text -> Text)
    requires Same(Obj(Without(a, HASH)), Obj(Without(b, HASH)), nfc) && k != SIGNATURE
    requires Get(a, HASH).Some? && Get(b, HASH).Some?
    ensures HasMember(a, k) <==> HasMember(b, k)
  {
    hide Without, Get, HasMember;
    HasWithout(a, HASH, k);
    HasWithout(b, HASH, k);
    GetIsThere(a, HASH);
    GetIsThere(b, HASH);
  }

  lemma SameHash(a: Record, i: nat, b: Record, j: nat, nfc: Text -> Text)
    requires Proper(Obj(a), nfc) && Proper(Obj(b), nfc) && i < |a| && j < |b| && a[i].key == b[j].key == HASH
    requires HashOf(a) == HashOf(b) && HashOf(a).Str?
    ensures Same(a[i].value, b[j].value, nfc)
  {
    hide Proper, Get;
    GetIsAt(a, i, nfc);
    GetIsAt(b, j, nfc);
  }

  lemma SameValue(a: Record, i: nat, b: Record, j: nat, nfc: Text -> Text)
    requires Same(Obj(Without(a, HASH)), Obj(Without(b, HASH)), nfc)
    requires i < |a| && j < |b| && a[i].key == b[j].key != HASH && a[i].key != SIGNATURE
    ensures Same(a[i].value, b[j].value, nfc)
  {
    hide Without, HasMember;
    var x, y := Without(a, HASH), Without(b, HASH);
    WithoutIn(a, HASH);
    WithoutIn(b, HASH);
    var m :| 0 <= m < |x| && x[m] == a[i];
    var n :| 0 <= n < |y| && y[n] == b[j];
  }

  /** Two logs that verify with the same count and head are the same, receipt by receipt: no
      edit, deletion, insertion or exchange below a known head goes unnoticed. */
  lemma HeadFixesLog(a: seq<Record>, b: seq<Record>, f: Ideal)
    requires IsIdeal(f) && Verified(a, f).Intact? && Verified(a, f) == Verified(b, f)
    requires forall i :: 0 <= i < |a| ==> Proper(Obj(a[i]), f.nfc)
    requires forall i :: 0 <= i < |b| ==> Proper(Obj(b[i]), f.nfc)
    ensures |a| == |b| && forall i :: 0 <= i < |a| ==> Same(Obj(a[i]), Obj(b[i]), f.nfc)
  {
    VerifiedExactly(a, f);
    VerifiedExactly(b, f);
    HeadFixesPrefix(a, b, |a|, f);
    forall i | 0 <= i < |a| ensures Same(Obj(a[i]), Obj(b[i]), f.nfc) {
      assert AgreeAt(a, b, i, f) && Linked(a, i, f) && Linked(b, i, f);
      AgreeIsSame(a[i], b[i], f);
    }
  }

  // ----- Appending -----

  lemma {:induction false} GetPut(r: Record, k: Text, v: Json, l: Text)
    ensures Get(Put(r, k, v), l) == if l == k then Some(v) else Get(r, l)
  {
    if r != [] && r[0].key != k { GetPut(r[1..], k, v, l); }
  }

  lemma HasPut(r: Record, k: Text, v: Json, l: Text)
    ensures HasMember(Put(r, k, v), l) <==> l == k || HasMember(r, l)
  {
    GetPut(r, k, v, l);
    GetIsThere(r, l);
    GetIsThere(Put(r, k, v), l);
  }

  lemma {:induction false} GetSpread(r: Record, extra: Record, l: Text)
    requires !HasMember(extra, l)
    ensures Get(Spread(r, extra), l) == Get(r, l)
    decreases extra
  {
    if extra != [] {
      MemberCons(extra, l);
      GetPut(r, extra[0].key, extra[0].value, l);
      GetSpread(Put(r, extra[0].key, extra[0].value), extra[1..], l);
    }
  }

  /** The spread members win. */
  lemma {:induction false} GetSpreadExtra(r: Record, extra: Record, l: Text, nfc: Text -> Text)
    requires HasMember(extra, l) && Proper(Obj(extra), nfc)
    ensures Get(Spread(r, extra), l) == Get(extra, l)
    decreases extra
  {
    var tail := extra[1..];
    var r' := Put(r, extra[0].key, extra[0].value);
    MemberCons(extra, l);
    assert Proper(Obj(tail), nfc);
    if extra[0].key == l {
      assert !HasMember(tail, l);
      GetPut(r, l, extra[0].value, l);
      GetSpread(r', tail, l);
    } else {
      GetSpreadExtra(r', tail, l, nfc);
    }
  }

  lemma {:induction false} PutProper(r: Record, k: Text, v: Json, nfc: Text -> Text)
    requires Proper(Obj(r), nfc) && Proper(v, nfc) && nfc(k) == k
    ensures Proper(Obj(Put(r, k, v)), nfc)
  {
    if r != [] {
      var tail := r[1..];
      assert Proper(Obj(tail), nfc);
      if r[0].key != k {
        PutProper(tail, k, v, nfc);
        var rest := Put(tail, k, v);
        forall i | 0 <= i < |rest| ensures rest[i].key != r[0].key {
          assert HasMember(rest, rest[i].key);
          HasPut(tail, k, v, rest[i].key);
        }
        assert Put(r, k, v) == [r[0]] + rest;
      } else {
        assert Put(r, k, v) == [Member(k, v)] + tail;
      }
    }
  }

  lemma {:induction false} SpreadProper(r: Record, extra: Record, nfc: Text -> Text)
    requires Proper(Obj(r), nfc) && Proper(Obj(extra), nfc)
    ensures Proper(Obj(Spread(r, extra)), nfc)
    decreases extra
  {
    if extra != [] {
      PutProper(r, extra[0].key, extra[0].value, nfc);
      assert Proper(Obj(extra[1..]), nfc);
      SpreadProper(Put(r, extra[0].key, extra[0].value), extra[1..], nfc);
    }
  }

  lemma {:induction false} WithoutPut(r: Record, k: Text, v: Json)
    ensures Without(Put(r, k, v), k) == Without(r, k)
    ensures !HasMember(r, k) ==> Without(r, k) == r
  {
    if r != [] {
      MemberCons(r, k);
      if r[0].key != k {
        WithoutPut(r[1..], k, v);
        assert Put(r, k, v)[1..] == Put(r[1..], k, v);
        if !HasMember(r, k) { assert Without(r, k) == [r[0]] + r[1..]; }
      } else {
        assert Put(r, k, v)[1..] == r[1..];
      }
    }
  }

  /** The normaliser leaves the receipt's own names alone. */
  ghost predicate FixesNames(nfc: Text -> Text) {
    nfc(SEQ) == SEQ && nfc(ID) == ID && nfc(TS) == TS && nfc(PREV_HASH) == PREV_HASH
    && nfc(REQUEST_ID) == REQUEST_ID && nfc(HASH) == HASH
  }

  /** What a body says, name by name. */
  lemma BodyMembers(prev: Text, n: SafeInt, ts: SafeInt, entry: Record, rid: Text, nfc: Text -> Text)
    requires Proper(Obj(entry), nfc)
    ensures var body := BodyOf(prev, n, ts, entry, rid);
            && (!HasMember(entry, SEQ) ==> Get(body, SEQ) == Some(Number(n)))
            && (!HasMember(entry, ID) ==> Get(body, ID) == Some(Str(ReceiptId(n))))
            && Get(body, PREV_HASH) == (if HasMember(entry, PREV_HASH) then Get(entry, PREV_HASH) else Some(Str(prev)))
            && (HasMember(body, HASH) <==> HasMember(entry, HASH))
  {
    var own := Own(prev, n, ts);
    var spread := Spread(own, entry);
    OwnMembers(prev, n, ts);
    if !HasMember(entry, SEQ) { GetSpread(own, entry, SEQ); }
    if !HasMember(entry, ID) { GetSpread(own, entry, ID); }
    if HasMember(entry, PREV_HASH) {
      GetSpreadExtra(own, entry, PREV_HASH, nfc);
    } else {
      GetSpread(own, entry, PREV_HASH);
    }
    if HasMember(entry, HASH) { GetSpreadExtra(own, entry, HASH, nfc); } else { GetSpread(own, entry, HASH); }
    GetIsThere(entry, HASH);
    GetIsThere(spread, HASH);
    NamesDiffer();
    GetPut(spread, REQUEST_ID, Str(rid), SEQ);
    GetPut(spread, REQUEST_ID, Str(rid), ID);
    GetPut(spread, REQUEST_ID, Str(rid), PREV_HASH);
    HasPut(spread, REQUEST_ID, Str(rid), HASH);
  }

  lemma OwnMembers(prev: Text, n: SafeInt, ts: SafeInt)
    ensures Get(Own(prev, n, ts), SEQ) == Some(Number(n)) && Get(Own(prev, n, ts), ID) == Some(Str(ReceiptId(n)))
    ensures Get(Own(prev, n, ts), PREV_HASH) == Some(Str(prev)) && Get(Own(prev, n, ts), HASH) == None
    ensures Get(Own(prev, n, ts), TS) == Some(Number(ts))
  {
    hide ReceiptId;
    NamesDiffer();
    var own := Own(prev, n, ts);
    var two := own[1..];
    var three := two[1..];
    var four := three[1..];
    assert four[1..] == [];
    forall k ensures Get(four, k) == if k == PREV_HASH then Some(Str(prev)) else None {}
    forall k ensures Get(three, k) == if k == TS then Some(Number(ts)) else Get(four, k) {}
    forall k ensures Get(two, k) == if k == ID then Some(Str(ReceiptId(n))) else Get(three, k) {}
  }

  lemma NamesDiffer()
    ensures SEQ != ID && SEQ != PREV_HASH && SEQ != REQUEST_ID && SEQ != HASH && ID != PREV_HASH && ID != REQUEST_ID &&
            ID != HASH
    ensures TS != SEQ && TS != ID && TS != PREV_HASH && TS != HASH && PREV_HASH != REQUEST_ID && PREV_HASH != HASH
    ensures HASH != REQUEST_ID && HASH != SIGNATURE && TS != REQUEST_ID
  {
    assert |SEQ| == 3 && |ID| == 2 && |TS| == 2 && |HASH| == 4 && |PREV_HASH| == 9 && |REQUEST_ID| == 10 &&
      |SIGNATURE| == 9;
    assert TS[0] != ID[0];
  }

  // ----- The chain is kept -----

  lemma {:induction false} CentralOfSorted(rs: seq<Record>)
    requires forall i, j :: 0 <= i < j < |rs| ==> SeqOf(rs[i]) <= SeqOf(rs[j])
    ensures Central(rs) == rs
  {
    hide SeqOf;
    if rs != [] {
      CentralOfSorted(rs[1..]);
      assert [rs[0]] + rs[1..] == rs;
      if |rs| > 1 { assert SeqOf(rs[0]) <= SeqOf(rs[1]); }
    }
  }

  ghost predicate SameId(a: Record, b: Record) { Get(a, ID) == Get(b, ID) }

  ghost predicate FirstWithId(store: seq<Record>, r: Record, i: int) {
    0 <= i < |store| && SameId(store[i], r) && forall j :: 0 <= j < i ==> !SameId(store[j], r)
  }

  /** A record takes the place of the first one with its id, and otherwise goes to the end. */
  lemma {:induction false} StoredExactly(store: seq<Record>, r: Record)
    ensures (forall i :: 0 <= i < |store| ==> !SameId(store[i], r)) ==> Stored(store, r) == store + [r]
    ensures forall i :: FirstWithId(store, r, i) ==> Stored(store, r) == store[i := r]
  {
    hide Get;
    if store != [] && !SameId(store[0], r) {
      var first, rest := store[0], store[1..];
      StoredExactly(rest, r);
      assert store == [first] + rest && Stored(store, r) == [first] + Stored(rest, r);
      hide Stored, SameId;
      assert forall j :: 0 <= j < |rest| ==> rest[j] == store[j + 1];
      forall i | FirstWithId(store, r, i) ensures Stored(store, r) == store[i := r] {
        assert FirstWithId(rest, r, i - 1);
        PutBehind(first, rest, i - 1, r);
      }
    }
  }

  lemma PutBehind(first: Record, rest: seq<Record>, i: nat, r: Record)
    requires i < |rest|
    ensures [first] + rest[i := r] == ([first] + rest)[i + 1 := r]
  {
  }

  lemma {:induction false} StoredAtEnd(store: seq<Record>, r: Record)
    requires forall i :: 0 <= i < |store| ==> Get(store[i], ID) != Get(r, ID)
    ensures Stored(store, r) == store + [r]
  {
    hide Get;
    if store != [] {
      assert Get(store[0], ID) != Get(r, ID);
      StoredAtEnd(store[1..], r);
      assert store + [r] == [store[0]] + (store[1..] + [r]);
    }
  }

  /** Numbered from one, with the ids that go with the numbers. */
  ghost predicate Numbered(store: seq<Record>) {
    forall i :: 0 <= i < |store| ==>
      Get(store[i], SEQ) == Some(Number(SafeSeq(i + 1))) && Get(store[i], ID) == Some(Str(ReceiptId(i + 1)))
  }

  function SafeSeq(n: int): SafeInt { if -(MAX_RECEIPTS as int) <= n <= MAX_RECEIPTS then n else 0 }

  lemma ReceiptIdInjective(m: nat, n: nat)
    requires ReceiptId(m) == ReceiptId(n)
    ensures m == n
  {
    assert ReceiptId(m)[|RCPT|..] == Digits(m) && ReceiptId(n)[|RCPT|..] == Digits(n);
    DigitsInjective(m, n);
  }

  lemma NumberedCentral(store: seq<Record>)
    requires Numbered(store) && |store| <= MAX_RECEIPTS
    ensures Central(store) == store
  {
    forall i, j | 0 <= i < j < |store| ensures SeqOf(store[i]) <= SeqOf(store[j]) {
      assert Get(store[i], SEQ) == Some(Number(SafeSeq(i + 1))) && Get(store[j], SEQ) == Some(Number(SafeSeq(j + 1)));
    }
    CentralOfSorted(store);
  }

  /** An append whose entry sets neither number nor id puts the receipt at the end. */
  lemma AppendNumbers(store: seq<Record>, entry: Record, ts: SafeInt, rid: Text, f: Ideal)
    requires Numbered(store) && |store| < MAX_RECEIPTS && Proper(Obj(entry), f.nfc)
    requires !HasMember(entry, SEQ) && !HasMember(entry, ID)
    requires Receipt(store, entry, ts, rid, f).Some?
    ensures var r := Receipt(store, entry, ts, rid, f).value;
            Stored(store, r) == store + [r] && Numbered(store + [r])
  {
    hide Receipt, BodyOf, Digest, HeadOf, ReceiptId, Proper, Get, HasMember, Put, Stored;
    var n := |store| + 1;
    var r := Receipt(store, entry, ts, rid, f).value;
    ReceiptNames(store, entry, ts, rid, f);
    forall i | 0 <= i < |store| ensures Get(store[i], ID) != Get(r, ID) {
      if ReceiptId(i + 1) == ReceiptId(n) { ReceiptIdInjective(i + 1, n); }
    }
    StoredAtEnd(store, r);
  }

  lemma ReceiptNames(all: seq<Record>, entry: Record, ts: SafeInt, rid: Text, f: Ideal)
    requires |all| < MAX_RECEIPTS && Proper(Obj(entry), f.nfc) && !HasMember(entry, SEQ) && !HasMember(entry, ID)
    requires Receipt(all, entry, ts, rid, f).Some?
    ensures var r := Receipt(all, entry, ts, rid, f).value;
            Get(r, SEQ) == Some(Number(|all| + 1)) && Get(r, ID) == Some(Str(ReceiptId(|all| + 1)))
  {
    hide Receipt, BodyOf, Digest, HeadOf, ReceiptId, Proper, HasMember, Get, Put;
    var n := |all| + 1;
    var body := BodyOf(HeadOf(all), n, ts, entry, rid);
    var r := Receipt(all, entry, ts, rid, f).value;
    BodyMembers(HeadOf(all), n, ts, entry, rid, f.nfc);
    NamesDiffer();
    ReceiptIsPut(all, entry, ts, rid, f);
    GetPut(body, HASH, HashOf(r), SEQ);
    GetPut(body, HASH, HashOf(r), ID);
  }

  lemma ReceiptIsPut(all: seq<Record>, entry: Record, ts: SafeInt, rid: Text, f: Ideal)
    requires |all| < MAX_RECEIPTS && Receipt(all, entry, ts, rid, f).Some?
    ensures var r := Receipt(all, entry, ts, rid, f).value;
            var body := BodyOf(HeadOf(all), |all| + 1, ts, entry, rid);
            && Digest(HeadOf(all), body, f).Some? && HashOf(r) == Str(Digest(HeadOf(all), body, f).value)
            && r == Put(body, HASH, HashOf(r))
  {
    var body := BodyOf(HeadOf(all), |all| + 1, ts, entry, rid);
    hide BodyOf, Digest, HeadOf;
    GetPut(body, HASH, Str(Digest(HeadOf(all), body, f).value), HASH);
  }

  /** Missing, or what counts as false. */
  ghost predicate Empty(v: Option<Json>) {
    v in {None, Some(Null), Some(Bool(false)), Some(Number(0)), Some(Str([]))}
  }

  /** What a receipt holds under a name other than its hash: what the entry says, or else what the log
      sets: number, id, time and the hash before it; a request id where the entry has an empty one. */
  ghost function Said(all: seq<Record>, entry: Record, ts: SafeInt, rid: Text, k: Text): Option<Json>
    requires |all| < MAX_RECEIPTS
  {
    if k == REQUEST_ID then if Empty(Get(entry, k)) then Some(Str(rid)) else Get(entry, k)
    else if HasMember(entry, k) then Get(entry, k)
    else if k == SEQ then Some(Number(|all| + 1))
    else if k == ID then Some(Str(ReceiptId(|all| + 1)))
    else if k == TS then Some(Number(ts))
    else if k == PREV_HASH then Some(Str(HeadOf(all)))
    else None
  }

  lemma OwnIs(prev: Text, n: SafeInt, ts: SafeInt, k: Text)
    ensures Get(Own(prev, n, ts), k)
         == if k == SEQ then Some(Number(n)) else if k == ID then Some(Str(ReceiptId(n)))
            else if k == TS then Some(Number(ts)) else if k == PREV_HASH then Some(Str(prev)) else None
  {
    OwnMembers(prev, n, ts);
    var own := Own(prev, n, ts);
    if k != SEQ && k != ID && k != TS && k != PREV_HASH && Get(own, k).Some? {
      GetIsThere(own, k);
      assert false;
    }
  }

  /** The receipt says exactly that, and its hash is a text. */
  lemma ReceiptKeepsEntry(all: seq<Record>, entry: Record, ts: SafeInt, rid: Text, f: Ideal, k: Text)
    requires |all| < MAX_RECEIPTS && Proper(Obj(entry), f.nfc)
    requires Receipt(all, entry, ts, rid, f).Some?
    ensures var r := Receipt(all, entry, ts, rid, f).value;
            HashOf(r).Str? && (k != HASH ==> Get(r, k) == Said(all, entry, ts, rid, k))
  {
    var n, prev := |all| + 1, HeadOf(all);
    var body := BodyOf(prev, n, ts, entry, rid);
    var r := Receipt(all, entry, ts, rid, f).value;
    ReceiptIsPut(all, entry, ts, rid, f);
    BodySays(prev, n, ts, entry, rid, k, f.nfc);
    GetPut(body, HASH, HashOf(r), k);
    hide Receipt, BodyOf, HasMember, Get, Put, Digest, Proper, HeadOf, Empty;
  }

  lemma BodySays(prev: Text, n: SafeInt, ts: SafeInt, entry: Record, rid: Text, k: Text, nfc: Text -> Text)
    requires Proper(Obj(entry), nfc)
    ensures Get(BodyOf(prev, n, ts, entry, rid), k)
         == if k == REQUEST_ID then if Empty(Get(entry, k)) then Some(Str(rid)) else Get(entry, k)
            else if HasMember(entry, k) then Get(entry, k) else Get(Own(prev, n, ts), k)
    ensures k != REQUEST_ID && !HasMember(entry, k) ==>
              Get(Own(prev, n, ts), k)
              == if k == SEQ then Some(Number(n)) else if k == ID then Some(Str(ReceiptId(n)))
                 else if k == TS then Some(Number(ts)) else if k == PREV_HASH then Some(Str(prev)) else None
  {
    var own := Own(prev, n, ts);
    var spread := Spread(own, entry);
    NamesDiffer();
    OwnIs(prev, n, ts, k);
    OwnIs(prev, n, ts, REQUEST_ID);
    GetIsThere(entry, k);
    GetIsThere(entry, REQUEST_ID);
    if HasMember(entry, k) { GetSpreadExtra(own, entry, k, nfc); } else { GetSpread(own, entry, k); }
    if HasMember(entry, REQUEST_ID) {
      GetSpreadExtra(own, entry, REQUEST_ID, nfc);
    } else {
      GetSpread(own, entry, REQUEST_ID);
    }
    GetPut(spread, REQUEST_ID, Str(rid), k);
    TruthyIs(Get(spread, REQUEST_ID));
    hide Spread, Own, HasMember, Get, Put, Proper, Empty, Truthy;
  }

  lemma TruthyIs(v: Option<Json>)
    ensures Truthy(v) <==> !Empty(v)
  {
  }

  /** After an append the log verifies exactly when it did before and the entry brought no hash
      of its own and no other previous hash. */
  lemma AppendVerifies(all: seq<Record>, entry: Record, ts: SafeInt, rid: Text, f: Ideal)
    requires IsIdeal(f) && FixesNames(f.nfc) && Proper(Obj(entry), f.nfc) && |all| < MAX_RECEIPTS
    requires Verified(all, f).Intact? && Receipt(all, entry, ts, rid, f).Some?
    ensures Verified(all + [Receipt(all, entry, ts, rid, f).value], f).Intact?
       <==> !HasMember(entry, HASH) && (HasMember(entry, PREV_HASH) ==> Get(entry, PREV_HASH) == Some(Str(HeadOf(all))))
  {
    var r := Receipt(all, entry, ts, rid, f).value;
    VerifiedExactly(all, f);
    VerifiedExactly(all + [r], f);
    OldLinks(all, r, f);
    NewLink(all, entry, ts, rid, f);
    hide Linked, Verified, HasMember, Get, Receipt;
    assert Linked(all + [r], |all|, f) <==> forall j :: 0 <= j < |all + [r]| ==> Linked(all + [r], j, f);
  }

  lemma OldLinks(all: seq<Record>, r: Record, f: Ideal)
    requires forall j :: 0 <= j < |all| ==> Linked(all, j, f)
    ensures forall j :: 0 <= j < |all| ==> Linked(all + [r], j, f)
  {
    forall j | 0 <= j < |all| ensures Linked(all + [r], j, f) {
      assert Linked(all, j, f) && (all + [r])[j] == all[j];
      assert Prev(all + [r], j) == Prev(all, j);
    }
  }

  lemma NewLink(all: seq<Record>, entry: Record, ts: SafeInt, rid: Text, f: Ideal)
    requires IsIdeal(f) && FixesNames(f.nfc) && Proper(Obj(entry), f.nfc) && |all| < MAX_RECEIPTS
    requires Receipt(all, entry, ts, rid, f).Some?
    ensures Linked(all + [Receipt(all, entry, ts, rid, f).value], |all|, f)
       <==> !HasMember(entry, HASH) && (HasMember(entry, PREV_HASH) ==> Get(entry, PREV_HASH) == Some(Str(HeadOf(all))))
  {
    var n, prev := |all| + 1, HeadOf(all);
    var body := BodyOf(prev, n, ts, entry, rid);
    var r := Receipt(all, entry, ts, rid, f).value;
    ReceiptIsPut(all, entry, ts, rid, f);
    BodyMembers(prev, n, ts, entry, rid, f.nfc);
    WithoutPut(body, HASH, HashOf(r));
    assert Prev(all + [r], |all|) == prev;
    GetWithout(body, HASH, PREV_HASH);
    NamesDiffer();
    BodyProper(prev, n, ts, entry, rid, f);
    if HasMember(body, HASH) { OtherDigest(prev, body, f); }
  }

  lemma {:induction false} GetWithout(r: Record, k: Text, l: Text)
    requires k != l
    ensures Get(Without(r, k), l) == Get(r, l)
  {
    if r != [] {
      GetWithout(r[1..], k, l);
      WithoutFirst(r, k);
      hide Without;
      if r[0].key != k { assert ([r[0]] + Without(r[1..], k))[1..] == Without(r[1..], k); }
    }
  }

  lemma WithoutFirst(r: Record, k: Text)
    requires r != []
    ensures Without(r, k) == if r[0].key != k then [r[0]] + Without(r[1..], k) else Without(r[1..], k)
  {
  }

  lemma StringProper(s: Text, nfc: Text -> Text)
    ensures Proper(Str(s), nfc)
  {
  }

  lemma BodyProper(prev: Text, n: SafeInt, ts: SafeInt, entry: Record, rid: Text, f: Ideal)
    requires FixesNames(f.nfc) && Proper(Obj(entry), f.nfc)
    ensures Proper(Obj(BodyOf(prev, n, ts, entry, rid)), f.nfc)
  {
    NamesDiffer();
    var own := Own(prev, n, ts);
    assert Proper(Obj(own), f.nfc);
    hide Proper;
    SpreadProper(own, entry, f.nfc);
    assert Proper(Str(rid), f.nfc) by { StringProper(rid, f.nfc); }
    PutProper(Spread(own, entry), REQUEST_ID, Str(rid), f.nfc);
  }

  /** A body that has a member `hash` is hashed with it, and read back without it. */
  lemma OtherDigest(prev: Text, body: Record, f: Ideal)
    requires IsIdeal(f) && Proper(Obj(body), f.nfc) && HasMember(body, HASH) && Digest(prev, body, f).Some?
    ensures Digest(prev, Without(body, HASH), f) != Digest(prev, body, f)
  {
    hide Canonical;
    var less := Without(body, HASH);
    NamesDiffer();
    WithoutProper(body, HASH, f.nfc);
    HasWithout(body, HASH, HASH);
    CanonicalIsUnambiguous(Obj(body), Obj(less), f.nfc);
    assert !Same(Obj(body), Obj(less), f.nfc);
    hide Canonical, Proper, Same, HasMember, Without;
    if Canonical(Obj(less), f.nfc).Some? {
      var s, t := Canonical(Obj(body), f.nfc).value, Canonical(Obj(less), f.nfc).value;
      assert (prev + [BAR] + s)[|prev| + 1..] == s && (prev + [BAR] + t)[|prev| + 1..] == t;
    }
  }

  // ----- Any row of appends -----

  datatype Call = Call(entry: Record, ts: SafeInt, rid: Text)

  /** What the store holds after these calls. */
  function Log(calls: seq<Call>, f: Ideal): seq<Record> {
    if calls == [] then []
    else
      var store, c := Log(calls[..|calls| - 1], f), calls[|calls| - 1];
      if |Central(store)| >= MAX_RECEIPTS then store
      else
        match Receipt(Central(store), Redacted(c.entry), c.ts, c.rid, f)
        case None => store
        case Some(r) => Stored(store, r)
  }

  /** Entries that leave the log's own members alone. */
  ghost predicate Plain(entry: Record, nfc: Text -> Text) {
    && Proper(Obj(entry), nfc)
    && !HasMember(entry, SEQ) && !HasMember(entry, ID) && !HasMember(entry, PREV_HASH) && !HasMember(entry, HASH)
  }

  /** A log that is only appended to is numbered from one, verifies, and every earlier state of
      it is a prefix of it. */
  lemma {:induction false} LogVerifies(calls: seq<Call>, f: Ideal)
    requires IsIdeal(f) && FixesNames(f.nfc) && forall i :: 0 <= i < |calls| ==> Plain(calls[i].entry, f.nfc)
    ensures var log := Log(calls, f);
            && Numbered(log) && |log| <= MAX_RECEIPTS && Central(log) == log && Verified(log, f).Intact?
    ensures forall k :: 0 <= k <= |calls| ==> Log(calls[..k], f) <= Log(calls, f)
  {
    hide Receipt, Verified, Central, Stored, Plain, HasMember, Numbered, Redacted;
    if calls == [] {
      EmptyLog(f);
    } else {
      var front, c := calls[..|calls| - 1], calls[|calls| - 1];
      LogVerifies(front, f);
      var store := Log(front, f);
      PlainFacts(c.entry, f.nfc);
      RedactedKeeps(c.entry, f.nfc);
      if |store| < MAX_RECEIPTS && Receipt(store, Redacted(c.entry), c.ts, c.rid, f).Some? {
        AppendNumbers(store, Redacted(c.entry), c.ts, c.rid, f);
        AppendVerifies(store, Redacted(c.entry), c.ts, c.rid, f);
        NumberedCentral(store + [Receipt(store, Redacted(c.entry), c.ts, c.rid, f).value]);
      }
      forall k | 0 <= k <= |calls| ensures Log(calls[..k], f) <= Log(calls, f) {
        if k < |calls| { assert calls[..k] == front[..k]; } else { assert calls[..k] == calls; }
      }
    }
  }

  /** Redaction changes values only. */
  lemma RedactedKeeps(r: Record, nfc: Text -> Text)
    requires Proper(Obj(r), nfc)
    ensures Proper(Obj(Redacted(r)), nfc) && forall k :: HasMember(Redacted(r), k) <==> HasMember(r, k)
  {
    var safe := Redacted(r);
    hide Sensitive, Ascii;
    forall i | 0 <= i < |safe| ensures nfc(safe[i].key) == safe[i].key && Proper(safe[i].value, nfc) {}
    forall k ensures HasMember(safe, k) <==> HasMember(r, k) {
      if i :| 0 <= i < |r| && r[i].key == k { assert safe[i].key == k; }
      if i :| 0 <= i < |safe| && safe[i].key == k { assert r[i].key == k; }
    }
  }

  /** No secret reaches the log: two entries that differ in the values of sensitive fields only, or
      in the envelopes they carry, leave the same receipt. */
  lemma SecretsLeaveNoTrace(all: seq<Record>, entry: Record, other: Record, ts: SafeInt, rid: Text, f: Ideal)
    requires |all| < MAX_RECEIPTS && |entry| == |other|
    requires forall i :: 0 <= i < |entry| ==> entry[i].key == other[i].key
    requires forall i :: 0 <= i < |entry| && !Sensitive(entry[i].key) ==>
               || entry[i].value == other[i].value
               || (HoldsEnvelope(entry[i].key, entry[i].value) && HoldsEnvelope(other[i].key, other[i].value))
    ensures Receipt(all, Redacted(entry), ts, rid, f) == Receipt(all, Redacted(other), ts, rid, f)
  {
    hide Receipt, Sensitive, Ascii, HoldsEnvelope;
    assert Redacted(entry) == Redacted(other);
  }

  lemma EmptyLog(f: Ideal)
    ensures Numbered([]) && Central([]) == [] && Verified([], f).Intact?
  {
  }

  lemma PlainFacts(entry: Record, nfc: Text -> Text)
    requires Plain(entry, nfc)
    ensures Proper(Obj(entry), nfc)
    ensures !HasMember(entry, SEQ) && !HasMember(entry, ID) && !HasMember(entry, PREV_HASH) && !HasMember(entry, HASH)
  {
  }
}
