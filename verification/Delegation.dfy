/** Delegation tokens: what `registerDelegation` of src/tokens.js checks against the parent
    token, and what `tokenCovers` and the budget test ask of a token. */
module Delegation {
  import opened Prelude
  import opened Doubles
  import Glob
  import Attenuation

  type Id = string

  const MAX_DEPTH: nat := 4

  datatype Constraints = Constraints(
    targets: seq<string>, maxSpend: nat, notAfter: Option<int>, maxDepth: nat, requireApproval: bool)

  datatype Token = Token(
    jti: Id, org: Id, sub: Id, parent: Option<Id>, scope: seq<string>, resources: seq<string>,
    constraints: Constraints, issuer: Id, depth: nat, spent: nat)

  // ----- The signed payload: fields as they arrive, before they are checked -----

  /** `Missing` is an absent property, `Null` one that is present and null. */
  datatype PatternField = Missing | Null | NotAnArray | Patterns(items: seq<string>)

  /** A property after `Number(...)`: NaN, infinities and fractions are `NotAnInteger`. */
  datatype NumberField = NoNumber | NotAnInteger | Integer(n: int)

  /** `null` and the empty string clear the date; anything else has to parse. */
  datatype DateField = NoDate | Cleared | Unparsable | At(ms: int)

  datatype FlagField = NoFlag | Flag(on: bool)

  datatype Payload = Payload(
    v: int, jti: Id, org: Id, sub: Id, parent: Option<Id>, kid: Option<nat>,
    scope: PatternField, resources: PatternField, targets: PatternField,
    maxSpend: NumberField, notAfter: DateField, maxDepth: NumberField, requireApproval: FlagField)

  // ----- strictStringArray -----

  function Utf16Length(s: string): nat {
    if s == "" then 0 else (if s[0] as int > 0xFFFF then 2 else 1) + Utf16Length(s[1..])
  }

  /** The characters that `String.prototype.trim` removes. */
  predicate IsJsSpace(c: char) {
    || '\t' <= c <= '\r' || c == ' ' || c == '\U{A0}' || c == '\U{1680}'
    || '\U{2000}' <= c <= '\U{200A}' || c == '\U{2028}' || c == '\U{2029}'
    || c == '\U{202F}' || c == '\U{205F}' || c == '\U{3000}' || c == '\U{FEFF}'
  }

  predicate NotBlank(x: string) {
    exists i :: 0 <= i < |x| && !IsJsSpace(x[i])
  }

  predicate ValidPattern(x: string) {
    NotBlank(x) && Utf16Length(x) <= 512
  }

  function StrictStringArray(items: seq<string>): Result<seq<string>> {
    if |items| <= 256 && forall i :: 0 <= i < |items| ==> ValidPattern(items[i]) then Ok(items) else Err(BadRequest)
  }

  /** `scope` and `resources`: null counts as absent and inherits from the parent. */
  function ListOrInherit(f: PatternField, inherited: seq<string>): Result<seq<string>> {
    match f
    case Missing => Ok(inherited)
    case Null => Ok(inherited)
    case NotAnArray => Err(BadRequest)
    case Patterns(items) => StrictStringArray(items)
  }

  /** `allowed_targets`: an explicit null becomes the empty list. */
  function TargetsOrInherit(f: PatternField, inherited: seq<string>): Result<seq<string>> {
    match f
    case Missing => Ok(inherited)
    case Null => Ok([])
    case NotAnArray => Err(BadRequest)
    case Patterns(items) => StrictStringArray(items)
  }

  function DateOrInherit(f: DateField, inherited: Option<int>): Result<Option<int>> {
    match f
    case NoDate => Ok(inherited)
    case Cleared => Ok(None)
    case Unparsable => Err(BadRequest)
    case At(ms) => Ok(Some(ms))
  }

  function FlagOrInherit(f: FlagField, inherited: bool): bool {
    match f case NoFlag => inherited case Flag(on) => on
  }

  function NumberOrInherit(f: NumberField, inherited: int): NumberField {
    if f.NoNumber? then Integer(inherited) else f
  }

  predicate IsSafe(f: NumberField) {
    f.Integer? && 0 <= f.n <= MAX_SAFE
  }

  // ----- The checks against the parent, in the order of the source -----

  function CheckAttenuation(parent: Token, p: Payload): Result<()> {
    var pc := parent.constraints;
    var scope :- ListOrInherit(p.scope, parent.scope);
    var resources :- ListOrInherit(p.resources, parent.resources);
    :- Need(Attenuation.PatternsSubset(scope, parent.scope), AttenuationViolation);
    :- Need(Attenuation.PatternsSubset(resources, parent.resources), AttenuationViolation);
    var targets :- TargetsOrInherit(p.targets, pc.targets);
    // A null list has no length to read: the source fails with a TypeError here.
    :- Need(!(pc.targets != [] && p.targets.Null?), TypeError);
    :- Need(pc.targets != [] ==> targets != [] && Attenuation.PatternsSubset(targets, pc.targets),
            AttenuationViolation);
    var spend := NumberOrInherit(p.maxSpend, pc.maxSpend);
    :- Need(IsSafe(spend) && spend.n <= pc.maxSpend, AttenuationViolation);
    var after :- DateOrInherit(p.notAfter, pc.notAfter);
    :- Need(pc.notAfter.Some? ==> after.Some? && after.value <= pc.notAfter.value, AttenuationViolation);
    var maxDepth := NumberOrInherit(p.maxDepth, pc.maxDepth);
    :- Need(maxDepth.Integer? && 0 <= maxDepth.n <= pc.maxDepth, AttenuationViolation);
    :- Need(parent.depth + 1 <= maxDepth.n, DepthExceeded);
    :- Need(pc.requireApproval ==> FlagOrInherit(p.requireApproval, pc.requireApproval), AttenuationViolation);
    Ok(())
  }

  /** What is stored: the defaults come from the parent, or from the fixed limits at a root. */
  function BuildToken(parent: Option<Token>, p: Payload, issuer: Id, now: int): Result<Token> {
    var pc := if parent.Some? then parent.value.constraints
              else Constraints([], MAX_SAFE, None, MAX_DEPTH, false);
    var scope :- ListOrInherit(p.scope, if parent.Some? then parent.value.scope else []);
    var resources :- ListOrInherit(p.resources, if parent.Some? then parent.value.resources else []);
    var targets :- TargetsOrInherit(p.targets, pc.targets);
    var spend := NumberOrInherit(p.maxSpend, pc.maxSpend);
    var after :- DateOrInherit(p.notAfter, pc.notAfter);
    var maxDepth := NumberOrInherit(p.maxDepth, pc.maxDepth);
    :- Need(scope != [] && resources != [], BadRequest);
    :- Need(IsSafe(spend), BadRequest);
    :- Need(maxDepth.Integer? && 0 <= maxDepth.n <= MAX_DEPTH, BadRequest);
    :- Need(after.Some? ==> after.value > now, BadRequest);
    Ok(Token(p.jti, p.org, p.sub, p.parent, scope, resources,
             Constraints(targets, spend.n, after, maxDepth.n, FlagOrInherit(p.requireApproval, pc.requireApproval)),
             issuer, if parent.Some? then parent.value.depth + 1 else 0, 0))
  }

  // ----- Using a token -----

  predicate TokenCovers(t: Token, action: string, resource: string, destination: string) {
    && Glob.AnyMatch(t.scope, action)
    && Glob.AnyMatch(t.resources, resource)
    && (t.constraints.targets == [] || Glob.AnyMatch(t.constraints.targets, destination))
  }

  /** Action, resource and, where targets are given, destination are each accepted by a pattern of
      their own list. */
  ghost predicate Covers(t: Token, action: string, resource: string, destination: string) {
    && (exists p :: p in t.scope && Glob.Accepts(p, action))
    && (exists p :: p in t.resources && Glob.Accepts(p, resource))
    && (t.constraints.targets != [] ==> exists p :: p in t.constraints.targets && Glob.Accepts(p, destination))
  }

  lemma CoversExactly(t: Token, action: string, resource: string, destination: string)
    ensures TokenCovers(t, action, resource, destination) <==> Covers(t, action, resource, destination)
  {
    Glob.AnyMatchExactly(t.scope, action);
    Glob.AnyMatchExactly(t.resources, resource);
    Glob.AnyMatchExactly(t.constraints.targets, destination);
    hide Glob.AnyMatch, Glob.Accepts;
  }

  /** The cap, tested as the source tests it: in Number arithmetic. */
  predicate WithinBudget(t: Token, amount: nat) {
    amount <= MAX_SAFE && t.spent <= MAX_SAFE && !(Round(t.spent + amount) > t.constraints.maxSpend)
  }

  /** The budget test is the comparison of exact integers. */
  lemma BudgetTestIsExact(t: Token, amount: nat)
    requires t.spent <= t.constraints.maxSpend <= MAX_SAFE
    ensures WithinBudget(t, amount) <==> t.spent + amount <= t.constraints.maxSpend
  {
    SumComparisonIsExact(t.spent, amount, t.constraints.maxSpend);
  }

  // ----- Attenuation -----

  /** No limit of the child is wider than the parent's. */
  ghost predicate Narrows(child: Token, parent: Token) {
    var c, p := child.constraints, parent.constraints;
    && Attenuation.PatternsSubset(child.scope, parent.scope)
    && Attenuation.PatternsSubset(child.resources, parent.resources)
    && (p.targets != [] ==> c.targets != [] && Attenuation.PatternsSubset(c.targets, p.targets))
    && c.maxSpend <= p.maxSpend
    && (p.notAfter.Some? ==> c.notAfter.Some? && c.notAfter.value <= p.notAfter.value)
    && c.maxDepth <= p.maxDepth
    && (p.requireApproval ==> c.requireApproval)
    && child.depth == parent.depth + 1
  }

  /** Well-formed on its own, whoever the parent is. */
  ghost predicate Bounded(t: Token) {
    && t.scope != [] && t.resources != []
    && t.spent <= t.constraints.maxSpend <= MAX_SAFE
    && t.depth <= t.constraints.maxDepth <= MAX_DEPTH
    && (t.parent.None? ==> t.depth == 0)
  }

  /** The two passes over the payload, the check and the construction, agree: a token that
      leaves registration is bounded and narrower than its parent. */
  lemma RegistrationNarrows(parent: Token, p: Payload, issuer: Id, now: int)
    requires p.parent.Some? && CheckAttenuation(parent, p).Ok? && BuildToken(Some(parent), p, issuer, now).Ok?
    ensures var t := BuildToken(Some(parent), p, issuer, now).value; Bounded(t) && Narrows(t, parent)
  {
  }

  lemma BuiltAsAsked(parent: Option<Token>, p: Payload, issuer: Id, now: int)
    requires BuildToken(parent, p, issuer, now).Ok?
    ensures var t := BuildToken(parent, p, issuer, now).value;
      && t.jti == p.jti && t.org == p.org && t.sub == p.sub && t.parent == p.parent && t.issuer == issuer &&
         t.spent == 0
      && t.depth == (if parent.Some? then parent.value.depth + 1 else 0)
      && (t.constraints.notAfter.Some? ==> t.constraints.notAfter.value > now)
  {
  }

  lemma RootIsBounded(p: Payload, issuer: Id, now: int)
    requires p.parent.None? && BuildToken(None, p, issuer, now).Ok?
    ensures Bounded(BuildToken(None, p, issuer, now).value)
  {
  }

  /** The value holds no line terminator, or the lists agree in theirs. */
  predicate Carries(child: seq<string>, parent: seq<string>, v: string) {
    Glob.LineFree(v) || Attenuation.ListAdmitsAnywhere(child, parent)
  }

  predicate CarriesAll(child: Token, parent: Token, action: string, resource: string, destination: string) {
    && Carries(child.scope, parent.scope, action)
    && Carries(child.resources, parent.resources, resource)
    && Carries(child.constraints.targets, parent.constraints.targets, destination)
  }

  /** Whatever a narrower token covers, the wider one covers. */
  lemma NarrowerCoversLess(child: Token, parent: Token, action: string, resource: string, destination: string)
    requires Narrows(child, parent) && TokenCovers(child, action, resource, destination)
    requires CarriesAll(child, parent, action, resource, destination)
    ensures TokenCovers(parent, action, resource, destination)
  {
    Attenuation.PatternsSubsetSound(child.scope, parent.scope, action);
    Attenuation.PatternsSubsetSound(child.resources, parent.resources, resource);
    if parent.constraints.targets != [] {
      Attenuation.PatternsSubsetSound(child.constraints.targets, parent.constraints.targets, destination);
    }
  }

  // ----- What a payload asks for, field by field -----

  /** At most 256 texts, each of at most 512 UTF-16 units and not all of it white space. */
  ghost predicate GoodList(items: seq<string>) {
    && |items| <= 256
    && forall x :: x in items ==> (exists c :: c in x && !IsJsSpace(c)) && |x| + |Astral(x)| <= 512
  }

  /** The characters that take two UTF-16 units. */
  function Astral(s: string): string {
    if s == "" then "" else (if s[0] >= '\U{10000}' then [s[0]] else "") + Astral(s[1..])
  }

  lemma {:induction false} Utf16LengthIs(s: string)
    ensures Utf16Length(s) == |s| + |Astral(s)|
  {
    if s != "" { Utf16LengthIs(s[1..]); }
  }

  ghost predicate ListAsked(f: PatternField, inherited: seq<string>, x: seq<string>) {
    || ((f == Missing || f == Null) && x == inherited)
    || (f == Patterns(x) && GoodList(x))
  }

  ghost predicate TargetsAsked(f: PatternField, inherited: seq<string>, x: seq<string>) {
    || (f == Missing && x == inherited)
    || (f == Null && x == [])
    || (f == Patterns(x) && GoodList(x))
  }

  ghost predicate NumberAsked(f: NumberField, inherited: nat, x: nat) {
    (f == NoNumber && x == inherited) || f == Integer(x)
  }

  ghost predicate DateAsked(f: DateField, inherited: Option<int>, x: Option<int>) {
    || (f == NoDate && x == inherited)
    || (f == Cleared && x == None)
    || (x.Some? && f == At(x.value))
  }

  ghost predicate FlagAsked(f: FlagField, inherited: bool, x: bool) {
    (f == NoFlag && x == inherited) || f == Flag(x)
  }

  /** The token a payload asks for: every field is the payload's own where it has one, and
      otherwise the parent's, or at a root the widest one allowed. */
  ghost predicate Asked(parent: Option<Token>, p: Payload, issuer: Id, t: Token) {
    && t.jti == p.jti && t.org == p.org && t.sub == p.sub && t.parent == p.parent && t.issuer == issuer && t.spent == 0
    && var c := t.constraints;
       match parent
       case None =>
         && t.depth == 0
         && ListAsked(p.scope, [], t.scope) && ListAsked(p.resources, [], t.resources)
         && TargetsAsked(p.targets, [], c.targets) && NumberAsked(p.maxSpend, 9007199254740991, c.maxSpend)
         && DateAsked(p.notAfter, None, c.notAfter) && NumberAsked(p.maxDepth, 4, c.maxDepth)
         && FlagAsked(p.requireApproval, false, c.requireApproval)
       case Some(q) =>
         && t.depth == q.depth + 1
         && ListAsked(p.scope, q.scope, t.scope) && ListAsked(p.resources, q.resources, t.resources)
         && TargetsAsked(p.targets, q.constraints.targets, c.targets)
         && NumberAsked(p.maxSpend, q.constraints.maxSpend, c.maxSpend)
         && DateAsked(p.notAfter, q.constraints.notAfter, c.notAfter)
         && NumberAsked(p.maxDepth, q.constraints.maxDepth, c.maxDepth)
         && FlagAsked(p.requireApproval, q.constraints.requireApproval, c.requireApproval)
  }

  /** The limits that every token has to keep. */
  ghost predicate WithinLimits(t: Token, now: int) {
    && t.scope != [] && t.resources != []
    && t.constraints.maxSpend <= 9007199254740991 && t.constraints.maxDepth <= 4
    && (t.constraints.notAfter.Some? ==> t.constraints.notAfter.value > now)
  }

  ghost predicate AllAdmitted(child: seq<string>, parent: seq<string>) {
    forall c :: c in child ==> exists p :: p in parent && Attenuation.GlobSubset(p, c)
  }

  /** Nothing is wider than the parent's. */
  ghost predicate NoWider(t: Token, q: Token) {
    var c, d := t.constraints, q.constraints;
    && AllAdmitted(t.scope, q.scope) && AllAdmitted(t.resources, q.resources)
    && (d.targets != [] ==> c.targets != [] && AllAdmitted(c.targets, d.targets))
    && c.maxSpend <= d.maxSpend && c.maxDepth <= d.maxDepth && t.depth <= c.maxDepth
    && (d.notAfter.Some? ==> c.notAfter.Some? && c.notAfter.value <= d.notAfter.value)
    && (d.requireApproval ==> c.requireApproval)
  }

  lemma GoodListExactly(items: seq<string>)
    ensures StrictStringArray(items).Ok? <==> GoodList(items)
  {
    forall x ensures ValidPattern(x) <==> (exists c :: c in x && !IsJsSpace(c)) && |x| + |Astral(x)| <= 512 {
      Utf16LengthIs(x);
      assert forall i :: 0 <= i < |x| ==> x[i] in x;
    }
    hide ValidPattern, Astral;
    assert forall i :: 0 <= i < |items| ==> items[i] in items;
  }

  lemma FieldsExactly(p: Payload, scope: seq<string>, resources: seq<string>, targets: seq<string>,
                      spend: nat, after: Option<int>, depth: nat, approval: bool, t: Token)
    ensures ListOrInherit(p.scope, scope) == Ok(t.scope) <==> ListAsked(p.scope, scope, t.scope)
    ensures ListOrInherit(p.resources, resources) == Ok(t.resources) <==> ListAsked(p.resources, resources, t.resources)
    ensures TargetsOrInherit(p.targets, targets) == Ok(t.constraints.targets)
       <==> TargetsAsked(p.targets, targets, t.constraints.targets)
    ensures NumberOrInherit(p.maxSpend, spend) == Integer(t.constraints.maxSpend)
       <==> NumberAsked(p.maxSpend, spend, t.constraints.maxSpend)
    ensures DateOrInherit(p.notAfter, after) == Ok(t.constraints.notAfter)
       <==> DateAsked(p.notAfter, after, t.constraints.notAfter)
    ensures NumberOrInherit(p.maxDepth, depth) == Integer(t.constraints.maxDepth)
       <==> NumberAsked(p.maxDepth, depth, t.constraints.maxDepth)
    ensures FlagOrInherit(p.requireApproval, approval) == t.constraints.requireApproval
       <==> FlagAsked(p.requireApproval, approval, t.constraints.requireApproval)
  {
    GoodListExactly(t.scope);
    GoodListExactly(t.resources);
    GoodListExactly(t.constraints.targets);
    hide GoodList, ValidPattern;
  }

  /** The construction stores exactly what was asked for, if it keeps the limits. */
  lemma BuildsExactly(parent: Option<Token>, p: Payload, issuer: Id, now: int, t: Token)
    ensures BuildToken(parent, p, issuer, now) == Ok(t) <==> Asked(parent, p, issuer, t) && WithinLimits(t, now)
  {
    var c := if parent.Some? then parent.value.constraints else Constraints([], 9007199254740991, None, 4, false);
    var scope := if parent.Some? then parent.value.scope else [];
    var resources := if parent.Some? then parent.value.resources else [];
    FieldsExactly(p, scope, resources, c.targets, c.maxSpend, c.notAfter, c.maxDepth, c.requireApproval, t);
    hide ListOrInherit, TargetsOrInherit, NumberOrInherit, DateOrInherit, FlagOrInherit, ListAsked, TargetsAsked,
      NumberAsked, DateAsked, FlagAsked;
  }

  lemma SubsetExactly(child: seq<string>, parent: seq<string>)
    ensures Attenuation.PatternsSubset(child, parent) <==> AllAdmitted(child, parent)
  {
    hide Attenuation.GlobSubset;
    assert forall i :: 0 <= i < |child| ==> child[i] in child;
    assert forall j :: 0 <= j < |parent| ==> parent[j] in parent;
    if AllAdmitted(child, parent) && child != [] {
      assert child[0] in child;
      forall i | 0 <= i < |child| ensures exists j :: 0 <= j < |parent| && Attenuation.GlobSubset(parent[j], child[i]) {
        var q :| q in parent && Attenuation.GlobSubset(q, child[i]);
        var j :| 0 <= j < |parent| && parent[j] == q;
      }
    }
  }

  /** The checks against the parent pass exactly when that token would be no wider. */
  lemma NarrowsExactly(q: Token, p: Payload, issuer: Id, t: Token)
    requires Asked(Some(q), p, issuer, t)
    ensures CheckAttenuation(q, p).Ok? <==> NoWider(t, q) && t.constraints.maxSpend <= 9007199254740991
  {
    var d := q.constraints;
    FieldsExactly(p, q.scope, q.resources, d.targets, d.maxSpend, d.notAfter, d.maxDepth, d.requireApproval, t);
    SubsetExactly(t.scope, q.scope);
    SubsetExactly(t.resources, q.resources);
    SubsetExactly(t.constraints.targets, d.targets);
    TargetsCleared(p.targets, d.targets, t.constraints.targets);
    hide ListOrInherit, TargetsOrInherit, NumberOrInherit, DateOrInherit, FlagOrInherit, Attenuation.PatternsSubset,
      ListAsked, TargetsAsked, NumberAsked, DateAsked, FlagAsked, AllAdmitted;
  }

  lemma TargetsCleared(f: PatternField, inherited: seq<string>, x: seq<string>)
    requires TargetsAsked(f, inherited, x)
    ensures f.Null? ==> x == []
  {
  }
}
