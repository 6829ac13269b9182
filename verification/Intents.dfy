/** From a raw request to a canonical intent: `canonicalIntent` and `checkIntentShape` of
    src/intent.js. The Unicode normaliser is given twice: for texts of characters, and for texts of
    UTF-16 code units, of which parameters are made. */
module Intents {
  import opened Prelude
  import opened Doubles
  import opened Glob
  import opened Delegation
  import opened Gateway
  import GatewayExact
  import JsonStrings
  import CanonicalJson
  import Params

  // ----- Raw fields -----

  datatype Field = Absent | NotText | Text(s: string)

  datatype AmountField = NoAmount | BadAmount | Cents(n: int)

  datatype TimeField = NotInteger | Ms(n: int)

  type Units = JsonStrings.Text

  /** Missing parameters are null. */
  datatype RawIntent = RawIntent(
    passport: Field, org: Field, action: Field, resource: Field, params: CanonicalJson.Json, amount: AmountField,
    destination: Field, tool: Field, nonce: Field, iat: TimeField, exp: TimeField, aud: Field)

  /** Control characters and invisible marks of direction and joining. */
  predicate Disallowed(c: char) {
    || c <= '\U{1F}' || c == '\U{7F}' || '\U{200B}' <= c <= '\U{200F}' || '\U{202A}' <= c <= '\U{202E}'
    || '\U{2060}' <= c <= '\U{2064}' || c == '\U{FEFF}'
  }

  predicate CleanText(s: string) {
    forall i :: 0 <= i < |s| ==> !Disallowed(s[i])
  }

  /** Parameters refuse the same characters. */
  lemma DisallowedAgrees(c: char)
    requires c <= '\U{FFFF}'
    ensures Disallowed(c) <==> Params.Disallowed(c as JsonStrings.Unit)
  {
  }

  /** Only a missing value counts as empty: an empty text is accepted everywhere. */
  function NormStr(f: Field, max: nat, required: bool, nfc: string -> string): Result<string> {
    match f
    case Absent => if required then Err(BadIntent) else Ok("")
    case NotText => Err(BadIntent)
    case Text(s) => if Utf16Length(s) > max || !CleanText(s) then Err(BadIntent) else Ok(nfc(s))
  }

  // ----- Resources -----

  /** A path segment `..`; `start` says that a segment starts here. */
  predicate Traverses(s: string, start: bool) {
    || (start && ".." <= s && (|s| == 2 || s[2] == '/'))
    || (s != "" && Traverses(s[1..], s[0] == '/'))
  }

  /** Runs of slashes become one. */
  function Collapse(s: string): string {
    if s == "" then ""
    else if |s| > 1 && s[0] == '/' && s[1] == '/' then Collapse(s[1..])
    else [s[0]] + Collapse(s[1..])
  }

  /** A last slash goes, unless nothing or a line terminator stands before it. */
  function StripSlash(s: string): string {
    if |s| > 1 && s[|s| - 1] == '/' && !IsLineTerminator(s[|s| - 2]) then s[..|s| - 1] else s
  }

  function NormResource(f: Field, nfc: string -> string): Result<string> {
    match NormStr(f, 1024, true, nfc)
    case Err(code) => Err(code)
    case Ok(s) => if '\\' in s || Traverses(s, true) then Err(BadIntent) else Ok(StripSlash(Collapse(s)))
  }

  // ----- The intent -----

  const AUDIENCE: string := "authragen"

  function NormAmount(f: AmountField): Result<nat> {
    match f
    case NoAmount => Ok(0)
    case BadAmount => Err(BadIntent)
    case Cents(n) => if 0 <= n <= MAX_SAFE then Ok(n) else Err(BadIntent)
  }

  function CanonicalIntent(raw: RawIntent, nfc: string -> string, units: Units -> Units): Result<Intent> {
    var passport :- NormStr(raw.passport, 128, true, nfc);
    var org :- NormStr(raw.org, 128, true, nfc);
    var action :- NormStr(raw.action, 256, true, nfc);
    var resource :- NormResource(raw.resource, nfc);
    var params :- Params.ParamsText(raw.params, units);
    var amount :- NormAmount(raw.amount);
    var destination :- NormStr(raw.destination, 1024, false, nfc);
    var tool :- NormStr(raw.tool, 256, false, nfc);
    var nonce :- NormStr(raw.nonce, 256, true, nfc);
    var aud :- if raw.aud.Absent? then Ok(AUDIENCE) else NormStr(raw.aud, 512, true, nfc);
    :- Need(raw.iat.Ms? && raw.exp.Ms?, BadIntent);
    Ok(Intent(passport, org, action, resource, params, amount, destination, tool, nonce, raw.iat.n, raw.exp.n, aud))
  }

  /** `checkIntentShape` on what the caller sent. */
  function CheckRaw(cfg: Config, now: int, raw: RawIntent, nfc: string -> string,
      units: Units -> Units): Result<Intent> {
    var i :- CanonicalIntent(raw, nfc, units);
    :- Succeeds(CheckIntentShape(cfg, now, i));
    Ok(i)
  }

  // ----- Which requests are accepted -----

  predicate FieldOk(f: Field, max: nat, required: bool) {
    match f
    case Absent => !required
    case NotText => false
    case Text(s) => Utf16Length(s) <= max && CleanText(s)
  }

  predicate ResourceOk(f: Field, nfc: string -> string) {
    FieldOk(f, 1024, true) && '\\' !in nfc(f.s) && !Traverses(nfc(f.s), true)
  }

  /** The texts are short and clean, the resource climbs nowhere, and the numbers are integers. */
  predicate FieldsOk(raw: RawIntent, nfc: string -> string, units: Units -> Units) {
    && FieldOk(raw.passport, 128, true) && FieldOk(raw.org, 128, true) && FieldOk(raw.action, 256, true)
    && ResourceOk(raw.resource, nfc) && Params.Acceptable(raw.params, units)
    && (raw.amount.NoAmount? || (raw.amount.Cents? && 0 <= raw.amount.n <= MAX_SAFE))
    && FieldOk(raw.destination, 1024, false) && FieldOk(raw.tool, 256, false) && FieldOk(raw.nonce, 256, true)
    && FieldOk(raw.aud, 512, false) && raw.iat.Ms? && raw.exp.Ms?
  }

  /** The text a field stands for: its normal form, or nothing. */
  ghost predicate Stands(f: Field, s: string, nfc: string -> string) {
    match f case Absent => s == "" case Text(t) => s == nfc(t) case NotText => false
  }

  lemma NormStrExactly(f: Field, max: nat, required: bool, nfc: string -> string)
    ensures NormStr(f, max, required, nfc).Ok? <==> FieldOk(f, max, required)
    ensures FieldOk(f, max, required) ==> Stands(f, NormStr(f, max, required, nfc).value, nfc)
  {
  }

  /** A raw request is accepted exactly when its fields are in order and its canonical form is
      inside its window. */
  lemma RawShapeExactly(cfg: Config, now: int, raw: RawIntent, nfc: string -> string, units: Units -> Units)
    ensures CanonicalIntent(raw, nfc, units).Ok? <==> FieldsOk(raw, nfc, units)
    ensures CheckRaw(cfg, now, raw, nfc, units).Ok?
       <==> FieldsOk(raw, nfc, units) && GatewayExact.InWindow(cfg, now, CanonicalIntent(raw, nfc, units).value)
  {
    Params.TextExactly(raw.params, units);
    NormStrExactly(raw.passport, 128, true, nfc);
    NormStrExactly(raw.org, 128, true, nfc);
    NormStrExactly(raw.action, 256, true, nfc);
    NormStrExactly(raw.resource, 1024, true, nfc);
    NormStrExactly(raw.destination, 1024, false, nfc);
    NormStrExactly(raw.tool, 256, false, nfc);
    NormStrExactly(raw.nonce, 256, true, nfc);
    NormStrExactly(raw.aud, 512, true, nfc);
    NormStrExactly(raw.aud, 512, false, nfc);
    hide NormStr, FieldOk, GatewayExact.InWindow, CheckIntentShape, Traverses, Collapse, StripSlash,
      Params.ParamsText, Params.Acceptable;
    if CanonicalIntent(raw, nfc, units).Ok? {
      GatewayExact.ShapeExactly(cfg, now, CanonicalIntent(raw, nfc, units).value);
    }
  }

  // ----- Canonical resources -----

  predicate NoDoubleSlash(s: string) {
    forall i :: 0 <= i < |s| - 1 ==> !(s[i] == '/' && s[i + 1] == '/')
  }

  lemma {:induction false} CollapseFacts(s: string)
    ensures NoDoubleSlash(Collapse(s)) && |Collapse(s)| <= |s|
    ensures (Collapse(s) == "" <==> s == "") && (s != "" ==> Collapse(s)[0] == s[0])
    ensures forall c :: c in Collapse(s) ==> c in s
  {
    if s != "" {
      CollapseFacts(s[1..]);
      if !(|s| > 1 && s[0] == '/' && s[1] == '/') {
        var rest := Collapse(s[1..]);
        assert Collapse(s) == [s[0]] + rest;
        assert forall i :: 0 < i < |Collapse(s)| ==> Collapse(s)[i] == rest[i - 1];
      }
    }
  }

  lemma {:induction false} CollapsedStays(s: string)
    requires NoDoubleSlash(s)
    ensures Collapse(s) == s
  {
    if s != "" {
      assert forall i :: 0 <= i < |s[1..]| ==> s[1..][i] == s[i + 1];
      CollapsedStays(s[1..]);
      assert s == [s[0]] + s[1..];
    }
  }

  /** Joining slashes makes no segment `..` and hides none. */
  lemma {:induction false} CollapseKeepsSegments(s: string, start: bool)
    ensures Traverses(Collapse(s), start) <==> Traverses(s, start)
  {
    if s != "" {
      var t := s[1..];
      CollapseFacts(t);
      if |s| > 1 && s[0] == '/' && s[1] == '/' {
        CollapseKeepsSegments(t, true);
        CollapseKeepsSegments(t, start);
        SlashFirst(t, start);
      } else {
        CollapseKeepsSegments(t, s[0] == '/');
        assert Collapse(s)[1..] == Collapse(t);
        DotsFirst(s);
      }
    }
  }

  lemma SlashFirst(t: string, start: bool)
    requires t != "" && t[0] == '/'
    ensures Traverses(t, start) <==> Traverses(t, true)
  {
  }

  /** Whether a text starts with the segment is not changed by collapsing what follows. */
  lemma DotsFirst(s: string)
    requires s != "" && !(|s| > 1 && s[0] == '/' && s[1] == '/')
    ensures ".." <= Collapse(s) && (|Collapse(s)| == 2 || Collapse(s)[2] == '/')
       <==> ".." <= s && (|s| == 2 || s[2] == '/')
  {
    var t := s[1..];
    CollapseFacts(t);
    assert Collapse(s) == [s[0]] + Collapse(t);
    if t != "" {
      var u := t[1..];
      CollapseFacts(u);
      if !(|t| > 1 && t[0] == '/' && t[1] == '/') { assert Collapse(t) == [t[0]] + Collapse(u); }
    }
  }

  lemma StripFacts(s: string)
    requires NoDoubleSlash(s)
    ensures NoDoubleSlash(StripSlash(s)) && StripSlash(StripSlash(s)) == StripSlash(s)
    ensures forall c :: c in StripSlash(s) ==> c in s
  {
  }

  lemma {:induction false} StripKeepsSegments(s: string, start: bool)
    requires !Traverses(s + "/", start)
    ensures !Traverses(s, start)
  {
    if s != "" {
      assert (s + "/")[1..] == s[1..] + "/";
      StripKeepsSegments(s[1..], s[0] == '/');
      assert ".." <= s && (|s| == 2 || s[2] == '/') ==> ".." <= s + "/" && (s + "/")[2] == '/';
    }
  }

  /** A canonical resource has no empty segment, none that climbs, no backslash, and ends with a
      slash only if it is one, or behind a line terminator. */
  lemma ResourceIsNormal(f: Field, nfc: string -> string)
    requires NormResource(f, nfc).Ok?
    ensures var r := NormResource(f, nfc).value;
      && NoDoubleSlash(r) && !Traverses(r, true) && '\\' !in r
      && (|r| > 1 && r[|r| - 1] == '/' ==> IsLineTerminator(r[|r| - 2]))
  {
    var s := NormStr(f, 1024, true, nfc).value;
    CollapseFacts(s);
    CollapseKeepsSegments(s, true);
    var c := Collapse(s);
    StripFacts(c);
    if StripSlash(c) != c {
      assert c == StripSlash(c) + "/";
      StripKeepsSegments(StripSlash(c), true);
    }
  }

  /** One segment of the text is `..`. */
  ghost predicate Climbs(s: string) {
    exists k :: 0 <= k <= |s| - 2 && ClimbsAt(s, k)
  }

  ghost predicate ClimbsAt(s: string, k: int)
    requires 0 <= k <= |s| - 2
  {
    s[k] == '.' && s[k + 1] == '.' && (k == 0 || s[k - 1] == '/') && (k + 2 == |s| || s[k + 2] == '/')
  }

  /** What is refused as climbing is what has a segment `..`. */
  lemma TraversesExactly(s: string)
    ensures Traverses(s, true) <==> Climbs(s)
  {
    TraversesFrom(s, 0);
    assert s[0..] == s;
    assert Climbs(s) <==> ClimbsFrom(s, 0);
  }

  ghost predicate ClimbsFrom(s: string, i: nat) { exists k :: i <= k <= |s| - 2 && ClimbsAt(s, k) }

  lemma DotsAt(s: string, i: nat)
    requires i < |s|
    ensures var t := s[i..];
      (i == 0 || s[i - 1] == '/') && ".." <= t && (|t| == 2 || t[2] == '/') <==> i <= |s| - 2 && ClimbsAt(s, i)
  {
    var t := s[i..];
    assert ".." <= t <==> |t| >= 2 && t[0] == '.' && t[1] == '.';
    assert forall k :: 0 <= k < |t| ==> t[k] == s[i + k];
  }

  lemma {:induction false} TraversesFrom(s: string, i: nat)
    requires i <= |s|
    ensures Traverses(s[i..], i == 0 || s[i - 1] == '/') <==> ClimbsFrom(s, i)
    decreases |s| - i
  {
    var t := s[i..];
    if i < |s| {
      TraversesFrom(s, i + 1);
      assert t[1..] == s[i + 1..] && t[0] == s[i];
      DotsAt(s, i);
      if ClimbsFrom(s, i) && !(i <= |s| - 2 && ClimbsAt(s, i)) {
        var k :| i <= k <= |s| - 2 && ClimbsAt(s, k);
        assert ClimbsFrom(s, i + 1);
      }
      if ClimbsFrom(s, i + 1) {
        var k :| i + 1 <= k <= |s| - 2 && ClimbsAt(s, k);
        assert ClimbsFrom(s, i);
      }
    }
  }

  /** One slash of a double one may go. */
  ghost predicate Joins(s: string, t: string) {
    exists k :: 0 <= k < |s| - 1 && s[k] == '/' && s[k + 1] == '/' && t == s[..k] + s[k + 1..]
  }

  /** From one text to the other by joining double slashes. */
  ghost predicate Joined(s: string, t: string)
    decreases |s|
  {
    s == t || exists u :: |u| < |s| && Joins(s, u) && Joined(u, t)
  }

  /** The normal form of a resource: its slashes are joined until none is double, and then a last one
      goes, unless nothing or a line terminator stands before it. */
  ghost predicate Becomes(s: string, r: string) {
    exists c :: Joined(s, c) && NoDoubleSlash(c) && LosesLast(c, r)
  }

  ghost predicate LosesLast(c: string, r: string) {
    if exists q :: c == q + "/" && q != "" && !IsLineTerminator(q[|q| - 1]) then c == r + "/" else c == r
  }

  lemma {:induction false} CollapseJoins(s: string)
    ensures Joined(s, Collapse(s))
  {
    hide Joined;
    if s == "" {
      JoinedStays(s);
    } else {
      CollapseJoins(s[1..]);
      if |s| > 1 && s[0] == '/' && s[1] == '/' {
        assert s[1..] == s[..0] + s[1..];
        assert Joins(s, s[1..]);
        JoinedStep(s, s[1..], Collapse(s[1..]));
      } else {
        JoinedBehind(s[0], s[1..], Collapse(s[1..]));
        assert s == [s[0]] + s[1..];
      }
    }
  }

  lemma {:induction false} JoinedBehind(c: char, s: string, t: string)
    requires Joined(s, t)
    ensures Joined([c] + s, [c] + t)
    decreases |s|
  {
    hide Joins, Joined;
    if s == t {
      JoinedStays([c] + s);
    } else {
      var u := JoinedUnfolds(s, t);
      JoinedBehind(c, u, t);
      JoinsBehind(c, s, u);
      JoinedStep([c] + s, [c] + u, [c] + t);
    }
  }

  lemma JoinedStays(s: string)
    ensures Joined(s, s)
  {
  }

  lemma JoinedUnfolds(s: string, t: string) returns (u: string)
    requires Joined(s, t) && s != t
    ensures |u| < |s| && Joins(s, u) && Joined(u, t)
  {
    hide Joins;
    u :| |u| < |s| && Joins(s, u) && Joined(u, t);
  }

  lemma JoinedStep(s: string, u: string, t: string)
    requires |u| < |s| && Joins(s, u) && Joined(u, t)
    ensures Joined(s, t)
  {
    hide Joins;
  }

  lemma JoinsBehind(c: char, s: string, u: string)
    requires Joins(s, u)
    ensures Joins([c] + s, [c] + u)
  {
    var k :| 0 <= k < |s| - 1 && s[k] == '/' && s[k + 1] == '/' && u == s[..k] + s[k + 1..];
    var s' := [c] + s;
    assert s'[k + 1] == s[k] && s'[k + 2] == s[k + 1];
    assert s'[..k + 1] == [c] + s[..k] && s'[k + 2..] == s[k + 1..];
    assert [c] + u == s'[..k + 1] + s'[k + 2..];
  }

  lemma ResourceBecomes(f: Field, nfc: string -> string)
    requires NormResource(f, nfc).Ok?
    ensures f.Text? && Becomes(nfc(f.s), NormResource(f, nfc).value)
  {
    var s := NormStr(f, 1024, true, nfc).value;
    CollapseFacts(s);
    CollapseJoins(s);
    StripLoses(Collapse(s));
    hide Collapse, Joined, NoDoubleSlash, StripSlash, LosesLast, Traverses;
  }

  lemma StripLoses(c: string)
    ensures LosesLast(c, StripSlash(c))
  {
    if q :| c == q + "/" && q != "" && !IsLineTerminator(q[|q| - 1]) { assert c[..|c| - 1] == q; }
    if StripSlash(c) != c {
      var q := c[..|c| - 1];
      assert c == q + "/";
    }
  }

  // ----- Canonical intents are fixed points -----

  /** What is used of the normaliser: it is idempotent, brings in no disallowed character, and
      keeps its form when slashes are joined or a last one is dropped. */
  ghost predicate IsNormaliser(nfc: string -> string) {
    && (forall s :: nfc(nfc(s)) == nfc(s))
    && (forall s :: CleanText(s) ==> CleanText(nfc(s)))
    && (forall s :: nfc(s) == s ==> nfc(Collapse(s)) == Collapse(s) && nfc(StripSlash(s)) == StripSlash(s))
    && nfc("") == "" && nfc(AUDIENCE) == AUDIENCE
  }

  function AsRaw(i: Intent, params: CanonicalJson.Json): RawIntent {
    RawIntent(Text(i.passport), Text(i.org), Text(i.action), Text(i.resource), params, Cents(i.amount),
              Text(i.destination), Text(i.tool), Text(i.nonce), Ms(i.iat), Ms(i.exp), Text(i.aud))
  }

  /** Normalising may lengthen a text beyond what is accepted. */
  predicate WithinLimits(i: Intent) {
    && Utf16Length(i.passport) <= 128 && Utf16Length(i.org) <= 128 && Utf16Length(i.action) <= 256
    && Utf16Length(i.resource) <= 1024 && Utf16Length(i.destination) <= 1024 && Utf16Length(i.tool) <= 256
    && Utf16Length(i.nonce) <= 256 && Utf16Length(i.aud) <= 512
  }

  /** A field in normal form. */
  ghost predicate Stable(s: string, nfc: string -> string) { nfc(s) == s && CleanText(s) }

  lemma NormStrIsStable(f: Field, max: nat, required: bool, nfc: string -> string)
    requires IsNormaliser(nfc) && NormStr(f, max, required, nfc).Ok?
    ensures Stable(NormStr(f, max, required, nfc).value, nfc)
  {
  }

  lemma ResourceIsStable(f: Field, nfc: string -> string)
    requires IsNormaliser(nfc) && NormResource(f, nfc).Ok?
    ensures var r := NormResource(f, nfc).value; Stable(r, nfc) && StripSlash(Collapse(r)) == r
  {
    var s := NormStr(f, 1024, true, nfc).value;
    NormStrIsStable(f, 1024, true, nfc);
    ResourceIsNormal(f, nfc);
    CollapseFacts(s);
    StripFacts(Collapse(s));
    CollapsedStays(StripSlash(Collapse(s)));
    var r := StripSlash(Collapse(s));
    forall k | 0 <= k < |r| ensures !Disallowed(r[k]) { assert r[k] in s; }
  }

  ghost predicate IsUnitNormaliser(units: Units -> Units) {
    Params.Idempotent(units) && Params.KeepsClean(units)
  }

  /** A canonical intent sent again is accepted as it is, exactly when its texts and parameters are
      still within their limits; otherwise it is refused. */
  lemma CanonicalIsStable(raw: RawIntent, nfc: string -> string, units: Units -> Units)
    requires IsNormaliser(nfc) && IsUnitNormaliser(units) && CanonicalIntent(raw, nfc, units).Ok?
    ensures Params.NormParams(raw.params, units).Ok?
    ensures var i, params := CanonicalIntent(raw, nfc, units).value, Params.NormParams(raw.params, units).value;
            var again := CanonicalIntent(AsRaw(i, params), nfc, units);
            (again == Ok(i) <==> WithinLimits(i) && Params.Short(params)) && (again == Ok(i) || again.Err?)
  {
    var i := CanonicalIntent(raw, nfc, units).value;
    CanonicalFields(raw, nfc, units);
    ResourceIsStable(raw.resource, nfc);
    ResourceIsNormal(raw.resource, nfc);
    Params.TextExactly(raw.params, units);
    hide IsNormaliser, CleanText, Collapse, StripSlash, Traverses, Utf16Length, Params.Acceptable, Params.ParamsText,
      Params.NormParams, CanonicalIntent;
    TextIsStable(raw.params, units);
    AgainExactly(i, Params.NormParams(raw.params, units).value, nfc, units);
  }

  lemma TextIsStable(v: CanonicalJson.Json, units: Units -> Units)
    requires IsUnitNormaliser(units) && Params.ParamsText(v, units).Ok?
    ensures Params.NormParams(v, units).Ok?
    ensures var x := Params.NormParams(v, units).value;
            (Params.ParamsText(x, units).Ok? <==> Params.Short(x))
            && (Params.Short(x) ==> Params.ParamsText(x, units) == Params.ParamsText(v, units))
  {
    hide Params.NormParams, Params.Acceptable, CanonicalJson.Canonical, Params.Short, Params.Idempotent,
      Params.KeepsClean;
    Params.TextExactly(v, units);
    Params.ParamsAreStable(v, units);
    Params.TextExactly(Params.NormParams(v, units).value, units);
  }

  /** The canonical intent, field by field. */
  lemma FieldsAre(raw: RawIntent, nfc: string -> string, units: Units -> Units)
    requires CanonicalIntent(raw, nfc, units).Ok?
    ensures var i := CanonicalIntent(raw, nfc, units).value;
      && NormStr(raw.passport, 128, true, nfc) == Ok(i.passport) && NormStr(raw.org, 128, true, nfc) == Ok(i.org)
      && NormStr(raw.action, 256, true, nfc) == Ok(i.action) && NormResource(raw.resource, nfc) == Ok(i.resource)
      && Params.ParamsText(raw.params, units) == Ok(i.params) && i.amount <= MAX_SAFE
      && NormStr(raw.destination, 1024, false, nfc) == Ok(i.destination)
      && NormStr(raw.tool, 256, false, nfc) == Ok(i.tool) && NormStr(raw.nonce, 256, true, nfc) == Ok(i.nonce)
      && (if raw.aud.Absent? then i.aud == AUDIENCE else NormStr(raw.aud, 512, true, nfc) == Ok(i.aud))
    ensures var i := CanonicalIntent(raw, nfc, units).value;
      && raw.iat == Ms(i.iat) && raw.exp == Ms(i.exp)
      && (raw.amount == Cents(i.amount) || (raw.amount.NoAmount? && i.amount == 0))
  {
    hide NormStr, NormResource, Params.ParamsText;
  }

  /** The texts in normal form, the defaults in their places, the numbers as sent. */
  ghost predicate SaysWhatWasSent(raw: RawIntent, i: Intent, nfc: string -> string) {
    && Stands(raw.passport, i.passport, nfc) && Stands(raw.org, i.org, nfc) && Stands(raw.action, i.action, nfc)
    && Stands(raw.destination, i.destination, nfc) && Stands(raw.tool, i.tool, nfc) && Stands(raw.nonce, i.nonce, nfc)
    && (if raw.aud.Absent? then i.aud == "authragen" else Stands(raw.aud, i.aud, nfc))
    && raw.iat == Ms(i.iat) && raw.exp == Ms(i.exp)
    && (raw.amount == Cents(i.amount) || (raw.amount.NoAmount? && i.amount == 0))
  }

  /** The canonical intent says what was sent; its resource has become normal, and its parameters
      are the canonical text of the normalised ones. */
  lemma CanonicalSays(raw: RawIntent, nfc: string -> string, units: Units -> Units)
    requires CanonicalIntent(raw, nfc, units).Ok?
    ensures SaysWhatWasSent(raw, CanonicalIntent(raw, nfc, units).value, nfc)
    ensures raw.resource.Text? && Becomes(nfc(raw.resource.s), CanonicalIntent(raw, nfc, units).value.resource)
    ensures var x := Params.NormParams(raw.params, units);
      && x.Ok? && (raw.params.Null? ==> x == Ok(CanonicalJson.Obj([])))
      && (!raw.params.Null? ==> x == Ok(Params.NormalForm(raw.params, units)))
      && CanonicalJson.Canonical(x.value, units) == Some(CanonicalIntent(raw, nfc, units).value.params)
  {
    hide NormStr, NormResource, FieldOk, CanonicalIntent, Params.ParamsText, Params.Norm, Params.NormalForm,
      CanonicalJson.Canonical, Becomes;
    FieldsAre(raw, nfc, units);
    NormStrExactly(raw.passport, 128, true, nfc);
    NormStrExactly(raw.org, 128, true, nfc);
    NormStrExactly(raw.action, 256, true, nfc);
    NormStrExactly(raw.destination, 1024, false, nfc);
    NormStrExactly(raw.tool, 256, false, nfc);
    NormStrExactly(raw.nonce, 256, true, nfc);
    NormStrExactly(raw.aud, 512, true, nfc);
    ResourceBecomes(raw.resource, nfc);
    Params.TextExactly(raw.params, units);
    if !raw.params.Null? { Params.NormIsNormalForm(raw.params, units); }
  }

  lemma CanonicalFields(raw: RawIntent, nfc: string -> string, units: Units -> Units)
    requires IsNormaliser(nfc) && CanonicalIntent(raw, nfc, units).Ok?
    ensures var i := CanonicalIntent(raw, nfc, units).value;
      && Stable(i.passport, nfc) && Stable(i.org, nfc) && Stable(i.action, nfc) && Stable(i.destination, nfc)
      && Stable(i.tool, nfc) && Stable(i.nonce, nfc) && Stable(i.aud, nfc)
      && NormResource(raw.resource, nfc) == Ok(i.resource) && i.amount <= MAX_SAFE
      && Params.ParamsText(raw.params, units) == Ok(i.params)
  {
    FieldsAre(raw, nfc, units);
    assert Stable(AUDIENCE, nfc) by { assert CleanText(AUDIENCE); }
    hide IsNormaliser, NormResource, NormStr, Stable, Params.ParamsText, CanonicalIntent;
    NormStrIsStable(raw.passport, 128, true, nfc);
    NormStrIsStable(raw.org, 128, true, nfc);
    NormStrIsStable(raw.action, 256, true, nfc);
    NormStrIsStable(raw.destination, 1024, false, nfc);
    NormStrIsStable(raw.tool, 256, false, nfc);
    NormStrIsStable(raw.nonce, 256, true, nfc);
    if !raw.aud.Absent? { NormStrIsStable(raw.aud, 512, true, nfc); }
  }

  lemma AgainExactly(i: Intent, params: CanonicalJson.Json, nfc: string -> string, units: Units -> Units)
    requires Stable(i.passport, nfc) && Stable(i.org, nfc) && Stable(i.action, nfc) && Stable(i.destination, nfc)
    requires Stable(i.tool, nfc) && Stable(i.nonce, nfc) && Stable(i.aud, nfc) && Stable(i.resource, nfc)
    requires StripSlash(Collapse(i.resource)) == i.resource && '\\' !in i.resource && !Traverses(i.resource, true)
    requires i.amount <= MAX_SAFE
    requires Params.ParamsText(params, units).Ok? <==> Params.Short(params)
    requires Params.Short(params) ==> Params.ParamsText(params, units) == Ok(i.params)
    ensures var again := CanonicalIntent(AsRaw(i, params), nfc, units);
            (again == Ok(i) <==> WithinLimits(i) && Params.Short(params)) && (again == Ok(i) || again.Err?)
  {
    hide CleanText, Collapse, StripSlash, Traverses, Utf16Length, Params.ParamsText, Params.Short;
  }

  // ----- Normal forms that are too long -----

  /** Whenever the normal form of some short clean text exceeds the limit of an action, an intent is
      accepted whose canonical form is not. */
  lemma LongFormIsRefused(s: string, nfc: string -> string, units: Units -> Units) returns (raw: RawIntent)
    requires IsNormaliser(nfc) && IsUnitNormaliser(units)
    requires CleanText(s) && Utf16Length(s) <= 256 < Utf16Length(nfc(s))
    ensures CanonicalIntent(raw, nfc, units).Ok? && Params.NormParams(raw.params, units).Ok?
    ensures var i, params := CanonicalIntent(raw, nfc, units).value, Params.NormParams(raw.params, units).value;
            CanonicalIntent(AsRaw(i, params), nfc, units).Err?
  {
    var empty := Text("");
    raw := RawIntent(empty, empty, Text(s), empty, CanonicalJson.Null, NoAmount, Absent, Absent, empty, Ms(0), Ms(0),
      Absent);
    assert Utf16Length("") == 0 && CleanText("") && nfc("") == "";
    assert Collapse("") == "" && StripSlash("") == "" && !Traverses("", true) && NormResource(empty, nfc) == Ok("");
    Params.TextExactly(raw.params, units);
    assert Params.ParamsText(raw.params, units).Ok?;
    hide IsNormaliser, Collapse, StripSlash, Traverses, Params.ParamsText, Utf16Length, CleanText, NormResource;
    assert CanonicalIntent(raw, nfc, units).Ok? && CanonicalIntent(raw, nfc, units).value.action == nfc(s);
    hide CanonicalIntent;
    CanonicalIsStable(raw, nfc, units);
  }

  /** What NFC does to the letter U+0958: two characters for one. */
  function Decomposed(s: string): string {
    if s == "" then "" else (if s[0] == '\U{958}' then "\U{915}\U{93C}" else [s[0]]) + Decomposed(s[1..])
  }

  lemma {:induction false} DecomposedFacts(s: string)
    ensures '\U{958}' !in Decomposed(s) && ('\U{958}' !in s ==> Decomposed(s) == s)
    ensures CleanText(s) ==> CleanText(Decomposed(s))
  {
    if s != "" { DecomposedFacts(s[1..]); }
  }

  function Repeated(c: char, n: nat): (s: string)
    ensures |s| == n && forall k :: 0 <= k < n ==> s[k] == c
  {
    if n == 0 then "" else [c] + Repeated(c, n - 1)
  }

  lemma {:induction false} RepeatedLengths(n: nat)
    ensures var s := Repeated('\U{958}', n); CleanText(s) && Utf16Length(s) == n && Utf16Length(Decomposed(s)) == 2 * n
  {
    if n > 0 {
      RepeatedLengths(n - 1);
      var c, rest := '\U{958}', Repeated('\U{958}', n - 1);
      assert Repeated(c, n) == [c] + rest;
      OneMore(c, rest);
      DecomposedFirst(rest);
      hide Repeated, Decomposed, Utf16Length;
      OneMore('\U{93C}', Decomposed(rest));
      OneMore('\U{915}', ['\U{93C}'] + Decomposed(rest));
    }
  }

  lemma OneMore(c: char, rest: string)
    requires c <= '\U{FFFF}'
    ensures Utf16Length([c] + rest) == 1 + Utf16Length(rest)
  {
    assert ([c] + rest)[1..] == rest;
  }

  lemma DecomposedFirst(rest: string)
    ensures Decomposed(['\U{958}'] + rest) == ['\U{915}'] + (['\U{93C}'] + Decomposed(rest))
  {
    hide Decomposed;
    var s, more := ['\U{958}'] + rest, Decomposed(rest);
    assert s[1..] == rest;
    FirstIsDecomposed(s);
    TwoFirst(more);
  }

  lemma FirstIsDecomposed(s: string)
    requires s != "" && s[0] == '\U{958}'
    ensures Decomposed(s) == "\U{915}\U{93C}" + Decomposed(s[1..])
  {
  }

  lemma TwoFirst(more: string)
    ensures "\U{915}\U{93C}" + more == ['\U{915}'] + (['\U{93C}'] + more)
  {
  }

  lemma DecomposedIsNormaliser()
    ensures IsNormaliser(Decomposed)
  {
    hide Decomposed, Collapse, StripSlash, CleanText;
    forall s
      ensures Decomposed(Decomposed(s)) == Decomposed(s) && (CleanText(s) ==> CleanText(Decomposed(s)))
      ensures Decomposed(s) == s ==>
              Decomposed(Collapse(s)) == Collapse(s) && Decomposed(StripSlash(s)) == StripSlash(s)
    {
      DecomposedFacts(s);
      DecomposedFacts(Decomposed(s));
      if Decomposed(s) == s { SlashesStayDecomposed(s); }
    }
    DecomposedFacts("");
    DecomposedFacts(AUDIENCE);
  }

  lemma SlashesStayDecomposed(s: string)
    requires Decomposed(s) == s
    ensures Decomposed(Collapse(s)) == Collapse(s) && Decomposed(StripSlash(s)) == StripSlash(s)
  {
    hide Decomposed, Collapse;
    DecomposedFacts(s);
    CollapseFacts(s);
    DecomposedFacts(Collapse(s));
    DecomposedFacts(StripSlash(s));
  }

  /** An action of 256 such letters. */
  lemma SomeIntentIsUnstable(units: Units -> Units) returns (raw: RawIntent)
    requires IsUnitNormaliser(units)
    ensures IsNormaliser(Decomposed) && CanonicalIntent(raw, Decomposed, units).Ok? &&
            Params.NormParams(raw.params, units).Ok?
    ensures var i, params := CanonicalIntent(raw, Decomposed, units).value, Params.NormParams(raw.params, units).value;
            CanonicalIntent(AsRaw(i, params), Decomposed, units).Err?
  {
    hide Utf16Length, CleanText, CanonicalIntent, Params.NormParams, IsNormaliser, IsUnitNormaliser, Decomposed,
      Repeated;
    DecomposedIsNormaliser();
    RepeatedLengths(256);
    raw := LongFormIsRefused(Repeated('\U{958}', 256), Decomposed, units);
  }
}
