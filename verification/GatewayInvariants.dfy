/** What every step of the gateway keeps. */
module GatewayInvariants {
  import opened Prelude
  import opened Doubles
  import opened Delegation
  import opened Gateway

  // ----- What a step may touch -----

  /** An administrative step touches passports, blueprints and organisations, adds to the
      revocations, and appends at most one receipt, of no request for authority. */
  ghost predicate AdminOnly(s: State, t: State) {
    && t.now == s.now && s.revocations <= t.revocations
    && t.tokens == s.tokens && t.approvals == s.approvals && t.sealed == s.sealed && t.used == s.used
    && (t.log == s.log || exists r :: t.log == s.log + [r] && r.decision !in {Executed, StepUp})
  }

  lemma IssueIsAdminOnly(s: State, id: Id, n: NewPassport)
    ensures AdminOnly(s, IssueStep(s, id, n))
  {
    hide IssueChecks;
  }

  lemma StatusIsAdminOnly(s: State, id: Id, status: Status)
    ensures AdminOnly(s, SetStatusStep(s, id, status))
  {
  }

  lemma RotateIsAdminOnly(s: State, id: Id, key: KeyField, keeper: Keeper)
    ensures AdminOnly(s, RotateStep(s, id, key, keeper))
  {
    hide RotateChecks;
  }

  lemma RevokeIsAdminOnly(s: State, r: Revocation, kid: Id, named: Id)
    ensures AdminOnly(s, RevokeStep(s, r, kid, named))
  {
    hide RevocationOrg, MarkedPassports, Recorded;
  }

  lemma OthersAreAdminOnly(s: State, e: Event)
    requires e.CreateOrg? || e.SetLock? || e.CreateBlueprint?
    ensures AdminOnly(s, AdminStep(s, e)) && AdminStep(s, e).passports == s.passports
  {
    hide AssertOrgUsable, IssueStep, SetStatusStep, RotateStep, RevokeStep;
  }

  lemma AdminFrame(s: State, e: Event)
    ensures !e.Tick? ==> AdminOnly(s, AdminStep(s, e))
    ensures e.Tick? ==> AdminStep(s, e) == s.(now := s.now + e.ms)
    ensures !e.IssuePassport? && !e.SetStatus? && !e.RotateKey? && !e.Revoke? ==>
            AdminStep(s, e).passports == s.passports
  {
    hide IssueStep, SetStatusStep, RotateStep, RevokeStep, AdminOnly, AssertOrgUsable;
    match e
    case IssuePassport(id, n) => IssueIsAdminOnly(s, id, n);
    case SetStatus(id, status) => StatusIsAdminOnly(s, id, status);
    case RotateKey(id, key, keeper) => RotateIsAdminOnly(s, id, key, keeper);
    case Revoke(r, kid, named) => RevokeIsAdminOnly(s, r, kid, named);
    case Tick(_) =>
    case CreateOrg(_) => OthersAreAdminOnly(s, e);
    case SetLock(_, _) => OthersAreAdminOnly(s, e);
    case CreateBlueprint(_, _) => OthersAreAdminOnly(s, e);
    case _ => NothingIsAdminOnly(s);
  }

  lemma NothingIsAdminOnly(s: State)
    ensures AdminOnly(s, s)
  {
  }

  lemma AdminAppends(s: State, e: Event)
    ensures var log' := AdminStep(s, e).log;
            && s.log <= log' && |log'| <= |s.log| + 1
            && (|log'| > |s.log| ==> log'[|s.log|].decision !in {Executed, StepUp})
  {
    AdminFrame(s, e);
    hide AdminStep;
  }

  /** Nothing is ever withdrawn: time, revocations and credentials only grow. */
  lemma StepGrows(cfg: Config, s: State, e: Event)
    ensures var s' := Step(cfg, s, e);
            s.now <= s'.now && s.revocations <= s'.revocations && s.sealed <= s'.sealed
  {
    AdminFrame(s, e);
  }

  /** A step appends at most one receipt and changes none. */
  lemma StepAppends(cfg: Config, s: State, e: Event)
    ensures s.log <= Step(cfg, s, e).log && |Step(cfg, s, e).log| <= |s.log| + 1
  {
    AdminAppends(s, e);
  }

  /** Which steps write which collection. */
  lemma StepFrame(cfg: Config, s: State, e: Event)
    ensures var s' := Step(cfg, s, e);
            && (!e.Tick? ==> s'.now == s.now)
            && (!e.Delegate? && !e.Execute? ==> s'.tokens == s.tokens)
            && (!e.IssuePassport? && !e.SetStatus? && !e.RotateKey? && !e.Revoke? ==> s'.passports == s.passports)
            && (!e.Authorize? && !e.Decide? ==> s'.approvals == s.approvals && s'.sealed == s.sealed)
            && (!e.Execute? ==> s'.used == s.used)
  {
    AdminFrame(s, e);
  }

  /** Only `Execute` writes an executed receipt. */
  lemma OnlyExecuteExecutes(cfg: Config, s: State, e: Event)
    requires !e.Execute?
    ensures var log' := Step(cfg, s, e).log; |log'| > |s.log| ==> log'[|s.log|].decision != Executed
  {
    AdminAppends(s, e);
  }

  // ----- Passports -----

  ghost predicate Ranked(ps: map<Id, Passport>, rank: map<Id, nat>) {
    && ps.Keys <= rank.Keys
    && forall id :: id in ps && ps[id].parent.Some? ==>
         ps[id].parent.value in ps && rank[ps[id].parent.value] < rank[id]
  }

  /** Parents exist, belong to the same organisation, outlive their children, and there are
      no cycles. */
  ghost predicate PassportsOk(ps: map<Id, Passport>) {
    && (forall id :: id in ps ==> ps[id].id == id && ps[id].exp > 0)
    && (forall id :: id in ps && ps[id].parent.Some? ==>
          var q := ps[id].parent.value;
          q in ps && ps[q].org == ps[id].org && ps[id].exp <= ps[q].exp)
    && exists rank :: Ranked(ps, rank)
  }

  /** Passports change only in status and keys once issued. */
  ghost predicate SameLineage(a: map<Id, Passport>, b: map<Id, Passport>) {
    forall id :: id in a ==>
      id in b && b[id].id == a[id].id && b[id].parent == a[id].parent && b[id].org == a[id].org &&
        b[id].exp == a[id].exp
  }

  lemma MarkKeepsLineage(s: State, r: Revocation, kid: Id, named: Id)
    ensures var ps := RevokeStep(s, r, kid, named).passports;
            SameLineage(s.passports, ps) && ps.Keys == s.passports.Keys
  {
    hide RevocationOrg, Recorded, Joined, RevokedInHistory, FindKey;
    SameIsSame(s.passports);
    hide SameLineage;
    match r
    case PassportRevocation(id) =>
      if id in s.passports { PutKeepsLineage(s.passports, id, s.passports[id].(status := Revoked)); }
    case KeyRevocation(id, n) =>
      if id in s.passports && WithKeyRevoked(s.passports[id], n, s.now).Ok? {
        PutKeepsLineage(s.passports, id, WithKeyRevoked(s.passports[id], n, s.now).value);
      }
    case _ =>
  }

  lemma StatusKeepsLineage(s: State, id: Id, status: Status)
    ensures var ps := SetStatusStep(s, id, status).passports;
            SameLineage(s.passports, ps) && ps.Keys == s.passports.Keys
  {
    SameIsSame(s.passports);
    if id in s.passports { PutKeepsLineage(s.passports, id, s.passports[id].(status := status)); }
    hide SameLineage;
  }

  lemma PutKeepsLineage(ps: map<Id, Passport>, id: Id, p: Passport)
    requires id in ps && p.id == ps[id].id && p.parent == ps[id].parent && p.org == ps[id].org && p.exp == ps[id].exp
    ensures SameLineage(ps, ps[id := p]) && ps[id := p].Keys == ps.Keys
  {
  }

  lemma SameIsSame(ps: map<Id, Passport>)
    ensures SameLineage(ps, ps)
  {
  }

  lemma IssueKeepsLineage(s: State, id: Id, n: NewPassport)
    requires id !in s.passports
    ensures SameLineage(s.passports, IssueStep(s, id, n).passports)
  {
    hide IssueChecks;
  }

  lemma UsablePassportExists(s: State, id: Id, trail: set<Id>)
    ensures AssertPassportUsable(s, id, trail).Ok? ==> id in s.passports
  {
  }

  lemma RotateKeepsLineage(s: State, id: Id, key: KeyField, keeper: Keeper)
    ensures var ps := RotateStep(s, id, key, keeper).passports;
            SameLineage(s.passports, ps) && ps.Keys == s.passports.Keys
  {
    hide AssertPassportUsable, NextKey;
  }

  lemma AdminKeepsLineage(s: State, e: Event)
    requires Fresh(s, e)
    ensures SameLineage(s.passports, AdminStep(s, e).passports)
    ensures !e.IssuePassport? ==> AdminStep(s, e).passports.Keys == s.passports.Keys
  {
    hide AssertPassportUsable, RotateStep, RevokeStep, SetStatusStep, IssueStep;
    match e
    case SetStatus(id, status) => StatusKeepsLineage(s, id, status);
    case IssuePassport(id, n) => IssueKeepsLineage(s, id, n);
    case Revoke(r, kid, named) => MarkKeepsLineage(s, r, kid, named);
    case RotateKey(id, key, keeper) => RotateKeepsLineage(s, id, key, keeper);
    case _ =>
  }

  lemma StepKeepsLineage(cfg: Config, s: State, e: Event)
    requires Fresh(s, e)
    ensures SameLineage(s.passports, Step(cfg, s, e).passports)
    ensures !e.IssuePassport? ==> Step(cfg, s, e).passports.Keys == s.passports.Keys
  {
    AdminKeepsLineage(s, e);
    StepFrame(cfg, s, e);
  }

  lemma SameLineageKeeps(a: map<Id, Passport>, b: map<Id, Passport>)
    requires PassportsOk(a) && SameLineage(a, b) && a.Keys == b.Keys
    ensures PassportsOk(b)
  {
    var rank :| Ranked(a, rank);
    assert Ranked(b, rank);
  }

  /** What a new passport has in common with its parent. */
  lemma IssuedFacts(s: State, e: Event)
    requires e.IssuePassport? && PassportsOk(s.passports) && s.now >= 0
    requires IssueChecks(s, e.id, e.passport).Ok?
    ensures var p := IssueChecks(s, e.id, e.passport).value;
            && p.id == e.id && p.exp > 0 && p.parent == e.passport.parent
            && (e.passport.parent.Some? ==>
                  var q := e.passport.parent.value;
                  q in s.passports && s.passports[q].org == p.org && p.exp <= s.passports[q].exp)
  {
    assert e.passport.parent.Some? && e.passport.parent.value in s.passports ==>
      s.passports[e.passport.parent.value].exp > 0;
    hide PassportsOk;
  }

  lemma IssueKeeps(s: State, e: Event)
    requires e.IssuePassport? && Fresh(s, e) && PassportsOk(s.passports) && s.now >= 0
    requires IssueChecks(s, e.id, e.passport).Ok?
    ensures PassportsOk(s.passports[e.id := IssueChecks(s, e.id, e.passport).value])
  {
    hide IssueChecks;
    IssuedFacts(s, e);
    NewIsRanked(s.passports, e.id, IssueChecks(s, e.id, e.passport).value);
  }

  lemma NewIsRanked(ps: map<Id, Passport>, id: Id, p: Passport)
    requires PassportsOk(ps) && id !in ps && p.id == id && p.exp > 0
    requires p.parent.Some? ==>
               p.parent.value in ps && ps[p.parent.value].org == p.org && p.exp <= ps[p.parent.value].exp
    ensures PassportsOk(ps[id := p])
  {
    var rank :| Ranked(ps, rank);
    assert Ranked(ps[id := p], rank[id := if p.parent.Some? then rank[p.parent.value] + 1 else 0]);
  }

  lemma StepKeepsPassports(cfg: Config, s: State, e: Event)
    requires Fresh(s, e) && PassportsOk(s.passports) && s.now >= 0
    ensures PassportsOk(Step(cfg, s, e).passports)
  {
    StepKeepsLineage(cfg, s, e);
    if e.IssuePassport? {
      if IssueChecks(s, e.id, e.passport).Ok? { IssueKeeps(s, e); }
    } else {
      SameLineageKeeps(s.passports, Step(cfg, s, e).passports);
    }
  }

  // ----- Delegation tokens -----

  /** Every token is bounded, held by a passport of its organisation, and narrower than the
      parent it names, whose subject issued it. */
  ghost predicate TokenOk(ps: map<Id, Passport>, tokens: map<Id, Token>, jti: Id)
    requires jti in tokens
  {
    var t := tokens[jti];
    && t.jti == jti && Bounded(t)
    && t.sub in ps && ps[t.sub].org == t.org
    && (t.constraints.notAfter.Some? ==> t.constraints.notAfter.value > 0)
    && (t.parent.Some? ==>
          && t.parent.value in tokens
          && tokens[t.parent.value].org == t.org
          && tokens[t.parent.value].sub == t.issuer
          && Narrows(t, tokens[t.parent.value]))
  }

  ghost predicate TokensOk(ps: map<Id, Passport>, tokens: map<Id, Token>) {
    forall jti :: jti in tokens ==> TokenOk(ps, tokens, jti)
  }

  /** Tokens change only in what was spent on them. */
  ghost predicate SameTokens(a: map<Id, Token>, b: map<Id, Token>) {
    forall jti :: jti in a ==> jti in b && b[jti] == a[jti].(spent := b[jti].spent)
  }

  /** What a registration has passed. */
  lemma DelegatePassed(s: State, org: Id, delegator: Id, p: Payload, envelope: Envelope, admin: bool)
    requires DelegateChecks(s, org, delegator, p, envelope, admin).Ok?
    ensures AssertOrgUsable(s, org).Ok? && envelope.payload == p && p.org == org && p.jti !in s.tokens
    ensures delegator in s.passports && s.passports[delegator].org == org && AssertPassportUsable(s, delegator, {}).Ok?
    ensures var key := KeyFor(s.passports[delegator], p.kid, s.now); key.Ok? && envelope.signer == key.value.pub
    ensures p.sub in s.passports && s.passports[p.sub].org == org && AssertPassportUsable(s, p.sub, {}).Ok?
    ensures match p.parent
            case None =>
              && (admin || p.sub == delegator)
              && DelegateChecks(s, org, delegator, p, envelope, admin) == BuildToken(None, p, delegator, s.now)
            case Some(q) =>
              && q in s.tokens && s.tokens[q].org == org && s.tokens[q].sub == delegator &&
                 AssertTokenUsable(s, q, {}).Ok?
              && CheckAttenuation(s.tokens[q], p).Ok?
              && DelegateChecks(s, org, delegator, p, envelope, admin) ==
                 BuildToken(Some(s.tokens[q]), p, delegator, s.now)
  {
    hide AssertOrgUsable, AssertPassportUsable, AssertTokenUsable, KeyFor, CheckAttenuation, BuildToken;
  }

  /** So the token stored is as asked for, bounded, and narrower than its parent. */
  lemma RegistrationParts(s: State, org: Id, delegator: Id, p: Payload, envelope: Envelope, admin: bool)
    requires DelegateChecks(s, org, delegator, p, envelope, admin).Ok?
    ensures var t := DelegateChecks(s, org, delegator, p, envelope, admin).value;
      && t.jti == p.jti && t.org == org && t.sub == p.sub && t.parent == p.parent && t.issuer == delegator &&
         t.spent == 0
      && (t.constraints.notAfter.Some? ==> t.constraints.notAfter.value > s.now) && Bounded(t)
      && match p.parent
         case None => t.depth == 0
         case Some(q) => q in s.tokens && Narrows(t, s.tokens[q])
  {
    DelegatePassed(s, org, delegator, p, envelope, admin);
    hide DelegateChecks, CheckAttenuation, BuildToken, Bounded, Narrows, AssertPassportUsable, AssertTokenUsable,
      KeyFor;
    match p.parent {
      case None =>
        BuiltAsAsked(None, p, delegator, s.now);
        RootIsBounded(p, delegator, s.now);
      case Some(q) =>
        BuiltAsAsked(Some(s.tokens[q]), p, delegator, s.now);
        RegistrationNarrows(s.tokens[q], p, delegator, s.now);
    }
  }

  lemma DelegateStored(s: State, e: Event)
    requires e.Delegate? && DelegateChecks(s, e.org, e.delegator, e.payload, e.envelope, e.admin).Ok?
    requires s.now >= 0
    ensures var t := DelegateChecks(s, e.org, e.delegator, e.payload, e.envelope, e.admin).value;
            && t.jti !in s.tokens && t.spent == 0
            && TokenOk(s.passports, s.tokens[t.jti := t], t.jti)
  {
    DelegatePassed(s, e.org, e.delegator, e.payload, e.envelope, e.admin);
    RegistrationParts(s, e.org, e.delegator, e.payload, e.envelope, e.admin);
    hide DelegateChecks, CheckAttenuation, BuildToken, Bounded, Narrows, AssertPassportUsable, AssertTokenUsable,
      KeyFor;
  }

  /** What an execution that goes through has passed; the approval is the next lemma's. */
  ghost predicate Passed(cfg: Config, s: State, att: Credential, i: Intent, approvalId: Option<Id>) {
    && CheckIntentShape(cfg, s.now, i).Ok?
    && att in s.sealed && att.ActionCredential? && Complete(att) && att.intent == i
    && att.iat - ACTION_SKEW_MS <= s.now <= att.exp
    && ActionRevocation(att.jti) !in s.revocations && AssertOrgUsable(s, i.org).Ok?
    && i.passport in s.passports && KeyFor(s.passports[i.passport], att.kid, s.now).Ok?
    && (att.requiresApproval <==> approvalId.Some?)
    && AssertPassportUsable(s, i.passport, {}).Ok?
    && (att.token.Some? ==>
          && att.token.value in s.tokens
          && AssertTokenUsable(s, att.token.value, {}).Ok?
          && TokenCovers(s.tokens[att.token.value], i.action, i.resource, i.destination)
          && WithinBudget(s.tokens[att.token.value], i.amount))
    && AfterNonce(s, i).1 && AfterCredential(s, att, i).1
  }

  lemma DonePassed(cfg: Config, s: State, att: Credential, i: Intent, approval: Option<Credential>)
    requires ExecuteOutcome(cfg, s, att, i, approval).Done?
    ensures Passed(cfg, s, att, i, ExecuteOutcome(cfg, s, att, i, approval).approvalId)
  {
  }

  /** The approval credential behind a deferred action is sealed, for the same intent and
      for this action. */
  lemma DoneApproved(cfg: Config, s: State, att: Credential, i: Intent, approval: Option<Credential>)
      returns (apc: Credential)
    requires ExecuteOutcome(cfg, s, att, i, approval).Done? && att.ActionCredential? && att.requiresApproval
    ensures apc in s.sealed && apc.ApprovalCredential? && apc.intent == i
    ensures apc.actionJti.Some? ==> apc.actionJti.value == att.jti
    ensures ExecuteOutcome(cfg, s, att, i, approval) == Done(Some(apc.approvalId))
  {
    apc := approval.value;
  }

  lemma ExecuteTokens(cfg: Config, s: State, att: Credential, i: Intent, x: Execution)
    requires TokensOk(s.passports, s.tokens)
    requires x.Done? || x.Replayed? ==> att.ActionCredential?
    requires x.Done? && att.token.Some? ==>
               att.token.value in s.tokens && WithinBudget(s.tokens[att.token.value], i.amount)
    ensures var tokens' := ExecuteEffect(s, att, i, x).tokens;
            && tokens'.Keys == s.tokens.Keys && SameTokens(s.tokens, tokens')
            && forall jti :: jti in s.tokens ==> tokens'[jti].spent <= tokens'[jti].constraints.maxSpend
  {
    SpendWithin(s.passports, s.tokens);
    EffectTokens(s, att, i, x);
    hide TokensOk, WithinBudget, ExecuteEffect;
    if x.Done? && att.token.Some? { BudgetTestIsExact(s.tokens[att.token.value], i.amount); }
  }

  lemma EffectTokens(s: State, att: Credential, i: Intent, x: Execution)
    requires x.Done? || x.Replayed? ==> att.ActionCredential?
    ensures ExecuteEffect(s, att, i, x).tokens == if x.Done? then Debited(s.tokens, att.token, i.amount) else s.tokens
  {
    hide ExecuteEntry, UsedAfter, Debited;
  }

  lemma SpendWithin(ps: map<Id, Passport>, tokens: map<Id, Token>)
    requires TokensOk(ps, tokens)
    ensures forall jti :: jti in tokens ==> tokens[jti].spent <= tokens[jti].constraints.maxSpend <= MAX_SAFE
  {
    forall jti | jti in tokens ensures tokens[jti].spent <= tokens[jti].constraints.maxSpend <= MAX_SAFE {
      assert TokenOk(ps, tokens, jti);
    }
  }

  lemma ExecuteKeepsTokens(cfg: Config, s: State, att: Credential, i: Intent, approval: Option<Credential>)
    requires TokensOk(s.passports, s.tokens)
    ensures var tokens' := ExecuteStep(cfg, s, att, i, approval).tokens;
            SameTokens(s.tokens, tokens') && TokensOk(s.passports, tokens')
  {
    var x := ExecuteOutcome(cfg, s, att, i, approval);
    if x.Done? { DonePassed(cfg, s, att, i, approval); }
    ExecuteTokens(cfg, s, att, i, x);
    SameTokensKeep(s.passports, s.passports, s.tokens, ExecuteEffect(s, att, i, x).tokens);
  }

  lemma StepKeepsTokenRecords(cfg: Config, s: State, e: Event)
    requires Fresh(s, e) && PassportsOk(s.passports) && TokensOk(s.passports, s.tokens) && s.now >= 0
    ensures SameTokens(s.tokens, Step(cfg, s, e).tokens)
  {
    StepFrame(cfg, s, e);
    hide PassportsOk, TokensOk, AdminStep, AuthorizeStep, DecideStep, ExecuteStep, DelegateChecks;
    if e.Execute? { ExecuteKeepsTokens(cfg, s, e.credential, e.intent, e.approval); }
    if e.Delegate? && DelegateChecks(s, e.org, e.delegator, e.payload, e.envelope, e.admin).Ok? {
      DelegateStored(s, e);
    }
  }

  lemma SameTokensKeep(ps: map<Id, Passport>, ps': map<Id, Passport>, tokens: map<Id, Token>, tokens': map<Id, Token>)
    requires TokensOk(ps, tokens) && SameLineage(ps, ps') && SameTokens(tokens, tokens')
    requires forall jti :: jti in tokens ==> tokens'[jti].spent <= tokens'[jti].constraints.maxSpend
    requires forall jti :: jti in tokens' && jti !in tokens ==> TokenOk(ps, tokens', jti)
    ensures TokensOk(ps', tokens')
  {
    forall jti | jti in tokens' ensures TokenOk(ps', tokens', jti) {
      if jti in tokens { assert TokenOk(ps, tokens, jti); }
    }
  }

  lemma DelegateKeepsTokens(s: State, e: Event)
    requires e.Delegate? && PassportsOk(s.passports) && TokensOk(s.passports, s.tokens) && s.now >= 0
    ensures TokensOk(s.passports, DelegateStep(s, e.org, e.delegator, e.payload, e.envelope, e.admin).tokens)
  {
    var checks := DelegateChecks(s, e.org, e.delegator, e.payload, e.envelope, e.admin);
    if checks.Ok? {
      DelegateStored(s, e);
      var tokens' := s.tokens[checks.value.jti := checks.value];
      forall jti | jti in tokens' ensures TokenOk(s.passports, tokens', jti) {
        if jti in s.tokens { assert TokenOk(s.passports, s.tokens, jti); }
      }
    }
  }

  lemma StepKeepsTokens(cfg: Config, s: State, e: Event)
    requires Fresh(s, e) && PassportsOk(s.passports) && TokensOk(s.passports, s.tokens) && s.now >= 0
    ensures TokensOk(Step(cfg, s, e).passports, Step(cfg, s, e).tokens)
  {
    if e.Delegate? {
      DelegateKeepsTokens(s, e);
    } else if e.Execute? {
      ExecuteKeepsTokens(cfg, s, e.credential, e.intent, e.approval);
    } else {
      StepFrame(cfg, s, e);
      StepKeepsLineage(cfg, s, e);
      SpendWithin(s.passports, s.tokens);
      hide Step, TokensOk, PassportsOk;
      SameTokensKeep(s.passports, Step(cfg, s, e).passports, s.tokens, s.tokens);
    }
  }
}
