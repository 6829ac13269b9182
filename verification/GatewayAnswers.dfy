/** What `authorize` answers, exactly: each decision and each error as a condition on the fields of
    the request, the passport, the token and the policies, and what each decision leaves. */
module GatewayAnswers {
  import opened Prelude
  import opened Delegation
  import opened Gateway
  import opened GatewayInvariants
  import opened GatewayExact
  import opened GatewayFaults
  import Glob
  import Policy
  import Risk

  // ----- Policies, as they apply to a request -----

  /** The depth of the token that is named. */
  ghost function TokenDepth(s: State, r: AuthorizeRequest): nat {
    match r.token
    case None => 0
    case Some(jti) => if jti in s.tokens then s.tokens[jti].depth else 0
  }

  ghost predicate ConditionHolds(c: Policy.Condition, r: AuthorizeRequest, pass: Passport, depth: nat) {
    var i := r.intent;
    && (c.window.Some? ==> c.window.value.0 <= r.minute && r.minute <= c.window.value.1)
    && (c.maxSpend.Some? ==> i.amount <= c.maxSpend.value) && (c.minSpend.Some? ==> c.minSpend.value <= i.amount)
    && (c.maxDepth.Some? ==> depth <= c.maxDepth.value) && (c.minDepth.Some? ==> c.minDepth.value <= depth)
    && (c.environments != [] ==> pass.environment in c.environments)
    && (c.blueprints != [] ==> pass.blueprint.Some? && pass.blueprint.value in c.blueprints)
    && (c.agents != [] ==> i.passport in c.agents)
    && (c.audiences != [] ==> i.aud in c.audiences)
    && (c.tools != [] ==> exists t :: t in c.tools && Glob.Accepts(t, i.tool))
  }

  /** The policy applies to the operation, the money, the agent and the moment. */
  ghost predicate RuleApplies(p: Policy.Rule, r: AuthorizeRequest, pass: Passport, depth: nat) {
    && (exists a :: a in p.actions && Glob.Accepts(a, r.intent.action))
    && (exists x :: x in p.resources && Glob.Accepts(x, r.intent.resource))
    && (p.condition.Some? ==> ConditionHolds(p.condition.value, r, pass, depth))
  }

  ghost predicate SomeRule(r: AuthorizeRequest, pass: Passport, depth: nat, effect: Policy.Effect) {
    exists p :: p in r.policies && p.effect == effect && RuleApplies(p, r, pass, depth)
  }

  lemma RuleAppliesExactly(s: State, r: AuthorizeRequest, pass: Passport, p: Policy.Rule)
    ensures Policy.Matches(p, QueryOf(s, r, pass)) <==> RuleApplies(p, r, pass, TokenDepth(s, r))
  {
    Glob.AnyMatchExactly(p.actions, r.intent.action);
    Glob.AnyMatchExactly(p.resources, r.intent.resource);
    if p.condition.Some? { ToolsExactly(p.condition.value.tools, r.intent.tool); }
    hide Glob.AnyMatch, Glob.Accepts, Glob.GlobMatch;
  }

  lemma ToolsExactly(tools: seq<string>, tool: string)
    ensures (exists i :: 0 <= i < |tools| && Glob.GlobMatch(tools[i], tool))
       <==> exists t :: t in tools && Glob.Accepts(t, tool)
  {
    hide Glob.Accepts, Glob.GlobMatch;
    forall t ensures Glob.GlobMatch(t, tool) <==> Glob.Accepts(t, tool) { Glob.AcceptsExactly(t, tool); }
    if t :| t in tools && Glob.Accepts(t, tool) {
      var i :| 0 <= i < |tools| && tools[i] == t;
    }
  }

  lemma SomeRuleExactly(s: State, r: AuthorizeRequest, pass: Passport, effect: Policy.Effect)
    ensures Policy.Applies(r.policies, QueryOf(s, r, pass), effect) <==> SomeRule(r, pass, TokenDepth(s, r), effect)
  {
    hide Policy.Matches, RuleApplies, QueryOf;
    forall p ensures Policy.Matches(p, QueryOf(s, r, pass)) <==> RuleApplies(p, r, pass, TokenDepth(s, r)) {
      RuleAppliesExactly(s, r, pass, p);
    }
  }

  // ----- The score -----

  /** The points of the family an action belongs to. */
  ghost predicate BasePoints(action: string, b: nat) {
    && ("admin." <= action ==> b == 80) && ("payments." <= action ==> b == 60)
    && ("code.exec" <= action ==> b == 50) && ("external.send" <= action ==> b == 40)
    && ("data.write" <= action ==> b == 25) && ("browser." <= action ==> b == 20)
    && ("data.read" <= action || "search." <= action ==> b == 5)
    && (|| b == 15 || "admin." <= action || "payments." <= action || "code.exec" <= action || "external.send" <= action
        || "data.write" <= action || "browser." <= action || "data.read" <= action || "search." <= action)
  }

  /** A point for every hundred cents, to the nearest, and thirty at most. */
  ghost predicate SpendPoints(cents: nat, n: nat) {
    if cents >= 2950 then n == 30 else 100 * n <= cents + 50 < 100 * n + 100
  }

  ghost predicate MentionsAt(s: string, word: string, k: int) {
    0 <= k <= |s| - |word| && s[k..k + |word|] == word
  }

  ghost predicate Mentions(s: string, word: string) {
    exists k :: MentionsAt(s, word, k)
  }

  ghost predicate Scores(r: AuthorizeRequest, depth: nat, n: nat) {
    var a := r.intent.action;
    exists b: nat, m: nat :: BasePoints(a, b) && SpendPoints(r.intent.amount, m) &&
      var sum := b + m + 5 * depth
                 + (if !r.seen && (Mentions(a, "payments.") || Mentions(a, "admin.") || Mentions(a, "external."))
                    then 10 else 0)
                 + (if r.minute < 360 then 5 else 0)
                 + (if depth >= 2 && (Mentions(a, "payments.") || Mentions(a, "admin.") || Mentions(a, "code.exec"))
                    then 15 else 0);
      n == if sum > 100 then 100 else sum
  }

  lemma {:induction false} ContainsExactly(s: string, word: string)
    ensures Risk.Contains(s, word) <==> Mentions(s, word)
  {
    if word <= s {
      assert MentionsAt(s, word, 0);
    } else if s != "" {
      ContainsExactly(s[1..], word);
      forall k ensures MentionsAt(s, word, k) <==> MentionsAt(s[1..], word, k - 1) { MentionedLater(s, word, k); }
      if k :| MentionsAt(s[1..], word, k) {
        var j := k + 1;
        assert MentionsAt(s, word, j) <==> MentionsAt(s[1..], word, j - 1);
      }
    }
  }

  lemma MentionedLater(s: string, word: string, k: int)
    requires s != "" && !(word <= s)
    ensures MentionsAt(s, word, k) <==> MentionsAt(s[1..], word, k - 1)
  {
    if k > 0 && k <= |s| - |word| { assert s[1..][k - 1..k - 1 + |word|] == s[k..k + |word|]; }
    if k == 0 && |word| <= |s| { assert s[0..|word|] == s[..|word|]; }
  }

  lemma BaseExactly(action: string)
    ensures forall b: nat :: BasePoints(action, b) <==> b == Risk.BaseFor(action)
  {
    FirstCharacters(action);
  }

  /** No two of the families meet. */
  lemma FirstCharacters(action: string)
    ensures "admin." <= action ==> action[0] == 'a'
    ensures "payments." <= action ==> action[0] == 'p'
    ensures "code.exec" <= action ==> action[0] == 'c'
    ensures "external.send" <= action ==> action[0] == 'e'
    ensures "data.write" <= action ==> action[0] == 'd' && action[5] == 'w'
    ensures "data.read" <= action ==> action[0] == 'd' && action[5] == 'r'
    ensures "browser." <= action ==> action[0] == 'b'
    ensures "search." <= action ==> action[0] == 's'
  {
  }

  lemma ScoreExactly(s: State, r: AuthorizeRequest)
    ensures forall n: nat :: RiskOf(s, r) == n <==> Scores(r, TokenDepth(s, r), n)
  {
    var a := r.intent.action;
    BaseExactly(a);
    SpendExactly(r.intent.amount);
    ContainsExactly(a, "payments.");
    ContainsExactly(a, "admin.");
    ContainsExactly(a, "external.");
    ContainsExactly(a, "code.exec");
    hide Risk.BaseFor, BasePoints, Risk.SpendPart, SpendPoints, Mentions, Risk.Contains;
    assert BasePoints(a, Risk.BaseFor(a)) && SpendPoints(r.intent.amount, Risk.SpendPart(r.intent.amount));
  }

  lemma SpendExactly(cents: nat)
    ensures forall n: nat :: SpendPoints(cents, n) <==> n == Risk.SpendPart(cents)
  {
  }

  // ----- Why a passport is refused -----

  /** Of the faults on the way up, only that of a blueprint goes unrecorded. */
  lemma RecordedExactly(s: State, id: Id)
    requires PassportsOk(s.passports) && id in s.passports
    ensures var u := AssertPassportUsable(s, id, {});
      && (u.Ok? <==> LineageHealthy(s, id)) && (u == Err(BlueprintRevoked) <==> FirstFault(s, id, BlueprintRevoked))
      && (u.Err? ==> (RecordedRefusal(u.code) <==> u.code != BlueprintRevoked))
  {
    hide AssertPassportUsable, LineageHealthy, Healthy, PassportsOk;
    UsablePassportExactly(s, id);
    FaultExactly(s, id, BlueprintRevoked);
    var u := AssertPassportUsable(s, id, {});
    if u.Err? { FaultExactly(s, id, u.code); }
  }

  // ----- The decisions -----

  /** The caller is who he says he is. */
  ghost predicate Called(cfg: Config, s: State, r: AuthorizeRequest) {
    var i := r.intent;
    && InWindow(cfg, s.now, i) && OrgOpen(s, i.org)
    && i.passport in s.passports && s.passports[i.passport].org == i.org
    && Authentic(s, r, s.passports[i.passport])
  }

  /** The agent and the token it names are in order, and the token covers the operation. */
  ghost predicate Entitled(s: State, r: AuthorizeRequest) {
    && LineageHealthy(s, r.intent.passport)
    && (r.token.Some? ==> TokenGrants(s, r.token.value, r.intent) && s.tokens[r.token.value].sub == r.intent.passport)
  }

  /** A policy denies, or none allows in any way, or the score reaches the ceiling. */
  ghost predicate Forbidden(s: State, r: AuthorizeRequest, pass: Passport) {
    var depth := TokenDepth(s, r);
    || SomeRule(r, pass, depth, Policy.Denies)
    || (!SomeRule(r, pass, depth, Policy.NeedsApproval) && !SomeRule(r, pass, depth, Policy.Allows))
    || (exists n: nat :: Scores(r, depth, n) && n >= r.ceiling)
  }

  /** A policy asks for approval, or the score does. */
  ghost predicate Deferred(s: State, r: AuthorizeRequest, pass: Passport) {
    var depth := TokenDepth(s, r);
    SomeRule(r, pass, depth, Policy.NeedsApproval) || exists n: nat :: Scores(r, depth, n) && r.stepup <= n < 70
  }

  /** What an accepted caller is answered, by condition. */
  ghost predicate Answer(s: State, r: AuthorizeRequest, out: Result<Decision>)
    requires r.intent.passport in s.passports
  {
    var pass := s.passports[r.intent.passport];
    if FirstFault(s, r.intent.passport, BlueprintRevoked) then out == Err(BlueprintRevoked)
    else if !Entitled(s, r) then out == Ok(Deny)
    else if r.dryRun then out == Ok(DryRun)
    else if Forbidden(s, r, pass) then out == Ok(Deny)
    else if Deferred(s, r, pass) then out == Ok(StepUp)
    else out == Ok(Allow)
  }

  /** The verdict of the policies and the score, by their conditions. */
  lemma VerdictExactly(s: State, r: AuthorizeRequest, pass: Passport)
    ensures VerdictOf(s, r, pass).effect == Policy.Denies || RiskOf(s, r) >= r.ceiling <==> Forbidden(s, r, pass)
    ensures VerdictOf(s, r, pass).effect == Policy.NeedsApproval
       <==> && SomeRule(r, pass, TokenDepth(s, r), Policy.NeedsApproval)
            && !SomeRule(r, pass, TokenDepth(s, r), Policy.Denies)
    ensures !Forbidden(s, r, pass) ==> (StepsUp(s, r, pass) <==> Deferred(s, r, pass))
  {
    Policy.EvaluatesExactly(r.policies, QueryOf(s, r, pass));
    SomeRuleExactly(s, r, pass, Policy.Denies);
    SomeRuleExactly(s, r, pass, Policy.NeedsApproval);
    SomeRuleExactly(s, r, pass, Policy.Allows);
    ScoreExactly(s, r);
    EffectsAre(VerdictOf(s, r, pass).effect);
    hide Policy.Evaluate, Policy.Applies, SomeRule, Scores, QueryOf, RiskOf;
    assert Scores(r, TokenDepth(s, r), RiskOf(s, r));
    assert forall n: nat :: Scores(r, TokenDepth(s, r), n) ==> n == RiskOf(s, r);
  }

  lemma JudgedExactly(cfg: Config, s: State, r: AuthorizeRequest)
    requires PassportsOk(s.passports) && TokensOk(s.passports, s.tokens) && Authenticate(cfg, s, r).Ok?
    ensures r.intent.passport in s.passports && Answer(s, r, AuthorizeOutcome(cfg, s, r))
  {
    AuthenticIsStored(cfg, s, r);
    RecordedExactly(s, r.intent.passport);
    if r.token.Some? { TokenChecksExactly(s, r.intent, r.token.value); } else { NoTokenNoCheck(s, r.intent); }
    VerdictExactly(s, r, s.passports[r.intent.passport]);
    hide Authenticate, AssertPassportUsable, FirstFault, LineageHealthy, RecordedRefusal, TokenChecks, TokenGrants,
      VerdictOf, RiskOf, StepsUp, Forbidden, Deferred, PassportsOk, TokensOk;
  }

  // ----- The errors -----

  /** The intent is expired, and nothing that is tested before that is wrong with it. */
  ghost predicate ExpiredIntent(s: State, i: Intent) {
    && i.amount <= 9007199254740991 && |i.nonce| >= 16
    && (forall c :: c in i.nonce ==>
          'A' <= c <= 'Z' || 'a' <= c <= 'z' || '0' <= c <= '9' || c == ':' || c == '_' || c == '-' || c == '.' ||
            c == '/')
    && i.exp <= s.now
  }

  /** The first archived key of the number. */
  ghost predicate Archived(p: Passport, kid: Option<nat>, k: Key) {
    kid.Some? && kid.value != p.current.kid && Names(p, kid, k)
  }

  /** Why nobody is accepted as the caller. */
  ghost predicate CallerError(cfg: Config, s: State, r: AuthorizeRequest, code: Code) {
    var i := r.intent;
    if !InWindow(cfg, s.now, i) then code == if ExpiredIntent(s, i) then IntentExpired else BadIntent
    else if i.org !in s.orgs then code == OrgUnknown
    else if s.orgs[i.org].locked then code == OrgLocked
    else if !(i.passport in s.passports && s.passports[i.passport].org == i.org) then code == PassportUnknown
    else
      var p := s.passports[i.passport];
      if r.signature.None? then !r.serviceKey && code == Unauthorized
      else if p.current.revoked || (exists k :: Archived(p, r.kid, k) && k.revoked) then code == KeyRevoked
      else if !(exists k :: Names(p, r.kid, k)) then code == UnknownKid
      else if exists k :: Archived(p, r.kid, k) && k.until < s.now then code == KeyExpired
      else !Authentic(s, r, p) && code == SigInvalid
  }

  lemma ShapeErrs(cfg: Config, now: int, s: State, i: Intent)
    requires s.now == now && !InWindow(cfg, now, i)
    ensures CheckIntentShape(cfg, now, i) == Err(if ExpiredIntent(s, i) then IntentExpired else BadIntent)
  {
    assert forall k :: 0 <= k < |i.nonce| ==> i.nonce[k] in i.nonce;
  }

  lemma KeyErrs(p: Passport, kid: Option<nat>, now: int)
    requires KeyFor(p, kid, now).Err?
    ensures KeyFor(p, kid, now) ==
            Err(if p.current.revoked || (exists k :: Archived(p, kid, k) && k.revoked) then KeyRevoked
                else if !(exists k :: Names(p, kid, k)) then UnknownKid else KeyExpired)
    ensures KeyFor(p, kid, now) == Err(KeyExpired) ==> exists k :: Archived(p, kid, k) && k.until < now
  {
    if kid.Some? && kid.value != p.current.kid {
      forall k ensures FindKey(p.history, kid.value) == Some(k) <==> Names(p, kid, k) { FirstExactly(p, kid, k); }
      hide FindKey, Names;
    }
  }

  lemma CallerErrs(cfg: Config, s: State, r: AuthorizeRequest)
    requires Authenticate(cfg, s, r).Err?
    ensures CallerError(cfg, s, r, Authenticate(cfg, s, r).code)
  {
    var i := r.intent;
    ShapeExactly(cfg, s.now, i);
    if !InWindow(cfg, s.now, i) {
      ShapeErrs(cfg, s.now, s, i);
      hide CheckIntentShape, InWindow, ExpiredIntent, KeyFor;
    } else if i.passport in s.passports && r.signature.Some? {
      var p := s.passports[i.passport];
      hide CheckIntentShape, InWindow, KeyFor, MayUse, Names, Archived;
      forall k ensures KeyFor(p, r.kid, s.now) == Ok(k) <==> MayUse(p, r.kid, s.now, k) {
        KeyIsExactly(p, r.kid, s.now, k);
      }
      if KeyFor(p, r.kid, s.now).Err? {
        KeyErrs(p, r.kid, s.now);
      } else {
        KeyIsGood(p, r.kid, s.now, KeyFor(p, r.kid, s.now).value);
      }
    } else {
      hide CheckIntentShape, InWindow, KeyFor;
    }
  }

  /** A usable key is neither unknown, nor revoked, nor expired. */
  lemma KeyIsGood(p: Passport, kid: Option<nat>, now: int, k: Key)
    requires MayUse(p, kid, now, k)
    ensures !p.current.revoked && Names(p, kid, k)
    ensures forall x :: Archived(p, kid, x) ==> !x.revoked && now <= x.until
  {
    if kid.Some? && kid.value != p.current.kid {
      forall x ensures FindKey(p.history, kid.value) == Some(x) <==> Names(p, kid, x) { FirstExactly(p, kid, x); }
      hide FindKey, Names;
    }
  }

  /** In every reachable store, to every request: an accepted caller is answered by the conditions of
      `Answer`, and anyone else by the first error of `CallerError`. */
  lemma AuthorizeExactly(cfg: Config, s: State, r: AuthorizeRequest)
    requires PassportsOk(s.passports) && TokensOk(s.passports, s.tokens)
    ensures var out := AuthorizeOutcome(cfg, s, r);
      && (Called(cfg, s, r) ==> Answer(s, r, out))
      && (!Called(cfg, s, r) ==> out.Err? && CallerError(cfg, s, r, out.code))
  {
    AuthenticateExactly(cfg, s, r);
    if Authenticate(cfg, s, r).Ok? { JudgedExactly(cfg, s, r); } else { CallerErrs(cfg, s, r); }
    hide Authenticate, Authentic, InWindow, Answer, CallerError, PassportsOk, TokensOk;
  }

  /** A dry run foretells: the same request made in earnest instead is answered as it says. */
  lemma DryRunForetells(cfg: Config, s: State, r: AuthorizeRequest)
    requires AuthorizeOutcome(cfg, s, r) == Ok(DryRun)
    ensures r.intent.passport in s.passports
    ensures AuthorizeOutcome(cfg, s, r.(dryRun := false)) == Ok(Simulated(s, r, s.passports[r.intent.passport]))
  {
    var r', pass := r.(dryRun := false), s.passports[r.intent.passport];
    AuthenticIsStored(cfg, s, r);
    assert Authenticate(cfg, s, r') == Authenticate(cfg, s, r);
    assert QueryOf(s, r', pass) == QueryOf(s, r, pass);
    hide Authenticate, AssertPassportUsable, TokenChecks, Policy.Evaluate, Risk.Score;
  }

  /** So a credential is minted at once exactly when the caller, the agent, the token, the policies
      and the score all allow it. */
  lemma AllowsExactly(cfg: Config, s: State, r: AuthorizeRequest)
    requires PassportsOk(s.passports) && TokensOk(s.passports, s.tokens)
    ensures AuthorizeOutcome(cfg, s, r) == Ok(Allow)
       <==> && Called(cfg, s, r) && Entitled(s, r) && !r.dryRun
            && !Forbidden(s, r, s.passports[r.intent.passport]) && !Deferred(s, r, s.passports[r.intent.passport])
  {
    AuthorizeExactly(cfg, s, r);
    if r.intent.passport in s.passports { EntitledIsNoFault(s, r); }
    hide Called, AuthorizeOutcome, Entitled, FirstFault, Forbidden, Deferred, CallerError;
    CalledIsKnown(cfg, s, r);
  }

  lemma CalledIsKnown(cfg: Config, s: State, r: AuthorizeRequest)
    ensures Called(cfg, s, r) ==> r.intent.passport in s.passports
  {
  }

  lemma EntitledIsNoFault(s: State, r: AuthorizeRequest)
    requires PassportsOk(s.passports) && r.intent.passport in s.passports
    ensures Entitled(s, r) ==> !FirstFault(s, r.intent.passport, BlueprintRevoked)
  {
    RecordedExactly(s, r.intent.passport);
    hide AssertPassportUsable, FirstFault, LineageHealthy, RecordedRefusal, TokenGrants;
  }

  // ----- What the decisions leave -----

  /** The receipt of an answer. */
  ghost predicate Answered(s: State, t: State, r: AuthorizeRequest, d: Decision) {
    var i := r.intent;
    t.log == s.log + [Receipt(d, i.org, i.passport, Some(i), i.amount, r.token,
                              if d == Allow then Some(r.freshJti) else None,
                              if d == StepUp then Some(r.freshApproval) else None, s.now)]
  }

  /** The policy that decides: of the highest priority among those that apply with the effect, and
      the first of these. */
  ghost predicate Decider(r: AuthorizeRequest, pass: Passport, depth: nat, effect: Policy.Effect, n: int) {
    && 0 <= n < |r.policies| && r.policies[n].effect == effect && RuleApplies(r.policies[n], r, pass, depth)
    && forall m :: (0 <= m < |r.policies| && r.policies[m].effect == effect
                    && RuleApplies(r.policies[m], r, pass, depth)) ==>
         r.policies[m].priority <= r.policies[n].priority
         && (m < n ==> r.policies[m].priority < r.policies[n].priority)
  }

  /** The number of approvals a policy asks for. */
  ghost predicate AsksFor(p: Policy.Rule, n: nat) {
    match p.condition
    case Some(c) => if c.minApprovals > 1 then n == c.minApprovals else n == 1
    case None => n == 1
  }

  lemma DeciderExactly(s: State, r: AuthorizeRequest, pass: Passport, effect: Policy.Effect, n: int)
    ensures Policy.DecidesAt(r.policies, QueryOf(s, r, pass), effect, n) <==>
            Decider(r, pass, TokenDepth(s, r), effect, n)
  {
    hide Policy.Matches, RuleApplies, QueryOf;
    forall p ensures Policy.Matches(p, QueryOf(s, r, pass)) <==> RuleApplies(p, r, pass, TokenDepth(s, r)) {
      RuleAppliesExactly(s, r, pass, p);
    }
  }

  /** The verdict names the decider of its effect, if its effect is that of a policy. */
  lemma NamedExactly(s: State, r: AuthorizeRequest, pass: Passport, effect: Policy.Effect) returns (n: int)
    requires VerdictOf(s, r, pass).effect == effect && Policy.Applies(r.policies, QueryOf(s, r, pass), effect)
    ensures Decider(r, pass, TokenDepth(s, r), effect, n) && VerdictOf(s, r, pass).rule == Some(r.policies[n])
  {
    var q := QueryOf(s, r, pass);
    n := Policy.SomeDecider(r.policies, q, effect);
    Policy.DeciderIsFirst(r.policies, q, effect, n);
    Policy.RuleIsFirst(r.policies, q);
    DeciderExactly(s, r, pass, effect, n);
    hide Policy.Evaluate, Policy.Applies, Decider, QueryOf, Policy.DecidesAt;
  }

  /** A step-up stores one pending record: of this intent, token and key number, without approvers,
      for a quarter of an hour, with the quorum that the deciding policy asks for. */
  lemma StepUpStores(cfg: Config, s: State, r: AuthorizeRequest) returns (n: int)
    requires AuthorizeOutcome(cfg, s, r) == Ok(StepUp) && Policy.DistinctIds(r.policies)
    ensures r.intent.passport in s.passports
    ensures var i, pass, t := r.intent, s.passports[r.intent.passport], AuthorizeStep(cfg, s, r);
      && r.freshApproval in t.approvals
      && var ap := t.approvals[r.freshApproval];
         && ap.org == i.org && ap.passport == i.passport && ap.token == r.token && ap.intent == i
         && ap.kid == Some(if r.kid.Some? then r.kid.value else pass.current.kid)
         && ap.status == ApPending && ap.approvers == [] && ap.actionJti == None && ap.expiresAt == s.now + 900_000
         && Decider(r, pass, TokenDepth(s, r), DecidingEffect(s, r, pass), n) && AsksFor(r.policies[n], ap.quorum)
         && t == s.(approvals := s.approvals[r.freshApproval := ap], log := t.log) && Answered(s, t, r, StepUp)
  {
    StepUpLeaves(cfg, s, r);
    hide AuthorizeOutcome, AuthorizeStep, Decider, AsksFor, Answered, Policy.DistinctIds;
    n := StepUpQuorum(cfg, s, r);
  }

  /** Approval is asked for by a policy that says so, or by the score on behalf of one that allows. */
  ghost function DecidingEffect(s: State, r: AuthorizeRequest, pass: Passport): Policy.Effect {
    if SomeRule(r, pass, TokenDepth(s, r), Policy.NeedsApproval) then Policy.NeedsApproval else Policy.Allows
  }

  lemma StepUpLeaves(cfg: Config, s: State, r: AuthorizeRequest)
    requires AuthorizeOutcome(cfg, s, r) == Ok(StepUp)
    ensures r.intent.passport in s.passports
    ensures var i, pass, t := r.intent, s.passports[r.intent.passport], AuthorizeStep(cfg, s, r);
      && r.freshApproval in t.approvals
      && var ap := t.approvals[r.freshApproval];
         && ap.org == i.org && ap.passport == i.passport && ap.token == r.token && ap.intent == i
         && ap.kid == Some(if r.kid.Some? then r.kid.value else pass.current.kid)
         && ap.status == ApPending && ap.approvers == [] && ap.actionJti == None && ap.expiresAt == s.now + 900_000
         && ap.quorum == Policy.Quorum(r.policies, VerdictOf(s, r, pass).rule)
         && t == s.(approvals := s.approvals[r.freshApproval := ap], log := t.log) && Answered(s, t, r, StepUp)
  {
    AuthenticIsStored(cfg, s, r);
    hide Authenticate, AssertPassportUsable, TokenChecks, VerdictOf, RiskOf, StepsUp, Policy.Quorum;
  }

  lemma StepUpQuorum(cfg: Config, s: State, r: AuthorizeRequest) returns (n: int)
    requires AuthorizeOutcome(cfg, s, r) == Ok(StepUp) && Policy.DistinctIds(r.policies) &&
             r.intent.passport in s.passports
    ensures var pass := s.passports[r.intent.passport];
      && Decider(r, pass, TokenDepth(s, r), DecidingEffect(s, r, pass), n)
      && AsksFor(r.policies[n], Policy.Quorum(r.policies, VerdictOf(s, r, pass).rule))
  {
    AuthenticIsStored(cfg, s, r);
    StepUpNotForbidden(cfg, s, r);
    var pass := s.passports[r.intent.passport];
    var effect := DecidingEffect(s, r, pass);
    SomeRuleExactly(s, r, pass, effect);
    EffectsAre(VerdictOf(s, r, pass).effect);
    hide AuthorizeOutcome, Authenticate, QueryOf, SomeRule, Decider, Forbidden, Policy.Applies, VerdictOf, AsksFor,
      Policy.Quorum, Policy.DistinctIds;
    n := NamedExactly(s, r, pass, effect);
    QuorumAsked(s, r, pass, n);
  }

  lemma EffectsAre(e: Policy.Effect)
    ensures e == Policy.Allows || e == Policy.Denies || e == Policy.NeedsApproval
  {
  }

  lemma StepUpNotForbidden(cfg: Config, s: State, r: AuthorizeRequest)
    requires AuthorizeOutcome(cfg, s, r) == Ok(StepUp)
    ensures Authenticate(cfg, s, r).Ok?
    ensures var pass := Authenticate(cfg, s, r).value;
      && !Forbidden(s, r, pass) && VerdictOf(s, r, pass).effect != Policy.Denies
      && (VerdictOf(s, r, pass).effect == Policy.NeedsApproval
          <==> SomeRule(r, pass, TokenDepth(s, r), Policy.NeedsApproval))
      && (VerdictOf(s, r, pass).effect == Policy.Allows ==> SomeRule(r, pass, TokenDepth(s, r), Policy.Allows))
  {
    var pass := Authenticate(cfg, s, r).value;
    VerdictExactly(s, r, pass);
    ForbiddenParts(s, r, pass);
    hide Authenticate, AssertPassportUsable, TokenChecks, VerdictOf, RiskOf, Forbidden, Deferred, SomeRule;
  }

  lemma ForbiddenParts(s: State, r: AuthorizeRequest, pass: Passport)
    ensures SomeRule(r, pass, TokenDepth(s, r), Policy.Denies) ==> Forbidden(s, r, pass)
    ensures VerdictOf(s, r, pass).effect == Policy.Allows ==> SomeRule(r, pass, TokenDepth(s, r), Policy.Allows)
  {
    Policy.EvaluatesExactly(r.policies, QueryOf(s, r, pass));
    SomeRuleExactly(s, r, pass, Policy.Allows);
    hide Policy.Evaluate, SomeRule, Policy.Applies, QueryOf;
  }

  lemma QuorumAsked(s: State, r: AuthorizeRequest, pass: Passport, n: int)
    requires 0 <= n < |r.policies| && VerdictOf(s, r, pass).rule == Some(r.policies[n]) &&
             Policy.DistinctIds(r.policies)
    ensures AsksFor(r.policies[n], Policy.Quorum(r.policies, VerdictOf(s, r, pass).rule))
  {
    hide VerdictOf;
    Policy.QuorumIsOwn(r.policies, r.policies[n]);
  }

  /** An allowance seals one credential, for this very operation, and only for it. */
  lemma AllowMints(cfg: Config, s: State, r: AuthorizeRequest)
    requires AuthorizeOutcome(cfg, s, r) == Ok(Allow)
    ensures r.intent.passport in s.passports
    ensures var i, pass, t := r.intent, s.passports[r.intent.passport], AuthorizeStep(cfg, s, r);
            var kid := Some(if r.kid.Some? then r.kid.value else pass.current.kid);
      && t == s.(sealed := s.sealed + {ActionCredential(r.freshJti, kid, i.org, i.passport, i, i.action, i.resource,
                   i.amount, false, r.token, i.aud, s.now, s.now + cfg.actionTtl * 1000)}, log := t.log)
      && Answered(s, t, r, Allow)
  {
    AuthenticIsStored(cfg, s, r);
    hide Authenticate, AssertPassportUsable, TokenChecks, VerdictOf, RiskOf;
  }

  /** Any other answer leaves its receipt, and an error nothing. */
  lemma OthersLeaveReceipts(cfg: Config, s: State, r: AuthorizeRequest)
    ensures var out, t := AuthorizeOutcome(cfg, s, r), AuthorizeStep(cfg, s, r);
      && (out.Err? ==> t == s)
      && (out == Ok(Deny) || out == Ok(DryRun) ==> t == s.(log := t.log) && Answered(s, t, r, out.value))
      && (out.Ok? ==> out.value in {Allow, Deny, StepUp, DryRun})
  {
    hide Authenticate, AssertPassportUsable, TokenChecks, VerdictOf, RiskOf;
  }
}
