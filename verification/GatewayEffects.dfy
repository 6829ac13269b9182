/** What requests leave in the store, field by field: executions, refusals with their codes,
    registrations and revocations. */
module GatewayEffects {
  import opened Prelude
  import opened Delegation
  import opened Replay
  import opened Gateway
  import opened GatewayInvariants
  import opened GatewayGrants
  import opened GatewayExact
  import opened GatewayFaults
  import GatewayAnswers

  // ----- Executions -----

  /** The replay map afterwards: the expired entries gone, and these keys held for ten minutes. */
  ghost predicate Held(s: State, used: map<string, int>, keys: set<string>) {
    forall k ::
      && (k in used <==> k in keys || (k in s.used && s.used[k] > s.now))
      && (k in used ==> used[k] == if k in keys then s.now + 600_000 else s.used[k])
  }

  /** The amount is added to what that one token has spent. */
  ghost predicate Charged(ts: map<Id, Token>, ts': map<Id, Token>, token: Option<Id>, amount: nat) {
    && ts'.Keys == ts.Keys
    && forall jti :: jti in ts ==>
         ts'[jti] == if token == Some(jti) then ts[jti].(spent := ts[jti].spent + amount) else ts[jti]
  }

  /** The receipt of an execution that is refused. */
  ghost predicate Refuses(s: State, t: State, i: Intent) {
    t.log == s.log + [Receipt(Deny, i.org, i.passport, Some(i), i.amount, None, None, None, s.now)]
  }

  /** The receipt of an execution that goes through. */
  ghost predicate Executes(s: State, t: State, att: Credential, i: Intent, approval: Option<Id>) {
    && att.ActionCredential?
    && Held(s, t.used, {IntentKey(i.org, i.nonce), CredentialKey(att.jti)})
    && Charged(s.tokens, t.tokens, att.token, i.amount)
    && t.log == s.log + [Receipt(Executed, i.org, i.passport, Some(i), i.amount, att.token, Some(att.jti), approval,
                                 s.now)]
  }

  /** Only the credential was used before, or the nonce was: the nonce is held from now on in any
      case. */
  ghost predicate Replays(s: State, t: State, i: Intent) {
    var nonce := IntentKey(i.org, i.nonce);
    Refuses(s, t, i) && t.tokens == s.tokens && Held(s, t.used, if Free(s, nonce) then {nonce} else {})
  }

  ghost predicate Leaves(cfg: Config, s: State, t: State, att: Credential, i: Intent, approval: Option<Credential>) {
    && t == s.(used := t.used, tokens := t.tokens, log := t.log)
    && if !InWindow(cfg, s.now, i) then t == s
       else if !InOrder(s, att, i, approval) then Refuses(s, t, i) && t == s.(log := t.log)
       else if !Executable(cfg, s, att, i, approval) then Replays(s, t, i)
       else if att.requiresApproval then
         approval.Some? && approval.value.ApprovalCredential? && Executes(s, t, att, i, Some(approval.value.approvalId))
       else Executes(s, t, att, i, None)
  }

  /** What an execution changes: the replay entries, the budget and the log if it goes through; the
      entry of the nonce and the log if something was used before; the log alone if it is refused
      for another reason; nothing if the intent is out of its window. */
  lemma ExecutionLeaves(cfg: Config, s: State, att: Credential, i: Intent, approval: Option<Credential>)
    requires PassportsOk(s.passports) && TokensOk(s.passports, s.tokens) && GrantsOk(s.approvals, s.sealed, s.log)
    requires att.ActionCredential? ==> Complete(att)
    ensures Leaves(cfg, s, ExecuteStep(cfg, s, att, i, approval), att, i, approval)
  {
    OutcomeExactly(cfg, s, att, i, approval);
    hide InOrder, Executable, InWindow, ExecuteOutcome, ExecuteEffect, Refuses, Replays, Executes;
    EffectLeaves(s, att, i, ExecuteOutcome(cfg, s, att, i, approval));
  }

  lemma OutcomeExactly(cfg: Config, s: State, att: Credential, i: Intent, approval: Option<Credential>)
    requires PassportsOk(s.passports) && TokensOk(s.passports, s.tokens) && GrantsOk(s.approvals, s.sealed, s.log)
    requires att.ActionCredential? ==> Complete(att)
    ensures var x := ExecuteOutcome(cfg, s, att, i, approval);
      && (InOrder(s, att, i, approval) ==> att.ActionCredential?)
      && (Executable(cfg, s, att, i, approval) ==> InOrder(s, att, i, approval) && InWindow(cfg, s.now, i))
      && (InWindow(cfg, s.now, i) ==> "org_" <= i.org)
      && (x.Malformed? <==> !InWindow(cfg, s.now, i))
      && (x.Refused? <==> InWindow(cfg, s.now, i) && !InOrder(s, att, i, approval))
      && (x.Done? <==> Executable(cfg, s, att, i, approval))
      && (x.Replayed? ==> !(Free(s, IntentKey(i.org, i.nonce)) && Free(s, CredentialKey(att.jti))))
      && (x.Done? ==> Free(s, IntentKey(i.org, i.nonce)) && Free(s, CredentialKey(att.jti)))
      && (x.Done? && att.requiresApproval ==>
            approval.Some? && approval.value.ApprovalCredential? && x.approvalId == Some(approval.value.approvalId))
      && (x.Done? && !att.requiresApproval ==> x.approvalId == None)
  {
    ShapeExactly(cfg, s.now, i);
    ExecuteChecksExactly(s, att, i, approval);
    ExecutesExactly(cfg, s, att, i, approval);
    hide PassportsOk, TokensOk, GrantsOk, CheckIntentShape, LineageHealthy, KeyValid, TokenGrants, ApprovalFits;
    if InWindow(cfg, s.now, i) && InOrder(s, att, i, approval) {
      NoncesExactly(s, att, i);
      ApprovedBy(s, att, i, approval);
    }
    hide ExecuteChecks, AfterNonce, AfterCredential, Free;
  }

  lemma EffectLeaves(s: State, att: Credential, i: Intent, x: Execution)
    requires x.Done? || x.Replayed? ==> att.ActionCredential? && "org_" <= i.org
    requires x.Done? ==> Free(s, IntentKey(i.org, i.nonce)) && Free(s, CredentialKey(att.jti))
    requires x.Replayed? ==> !(Free(s, IntentKey(i.org, i.nonce)) && Free(s, CredentialKey(att.jti)))
    ensures var t := ExecuteEffect(s, att, i, x);
      && t == s.(used := t.used, tokens := t.tokens, log := t.log)
      && match x
         case Malformed(_) => t == s
         case Refused(_) => Refuses(s, t, i) && t == s.(log := t.log)
         case Replayed => Replays(s, t, i)
         case Done(approvalId) => Executes(s, t, att, i, approvalId)
  {
    if x.Done? || x.Replayed? { UsedLeaves(s, att, i); }
    hide Held, AfterNonce, AfterCredential, UsedAfter, Free;
  }

  /** The map after the two insertions. */
  lemma UsedLeaves(s: State, att: Credential, i: Intent)
    requires att.ActionCredential? && "org_" <= i.org
    ensures var nonce, jti := IntentKey(i.org, i.nonce), CredentialKey(att.jti);
      && Held(s, UsedAfter(s, att, i),
              if !Free(s, nonce) then {} else if Free(s, jti) then {nonce, jti} else {nonce})
      && (AfterNonce(s, i).1 && AfterCredential(s, att, i).1 <==> Free(s, nonce) && Free(s, jti))
  {
    assert IntentKey(i.org, i.nonce)[0] == 'o' && CredentialKey(att.jti)[0] == 'a';
  }

  lemma ApprovedBy(s: State, att: Credential, i: Intent, approval: Option<Credential>)
    requires att.ActionCredential? && ExecuteChecks(s, att, i, approval).Ok?
    ensures att.requiresApproval ==> approval.Some? && approval.value.ApprovalCredential?
    ensures ExecuteChecks(s, att, i, approval).value
         == if att.requiresApproval then Some(approval.value.approvalId) else None
  {
    hide CredentialChecks, AssertPassportUsable, AssertTokenUsable, KeyFor, TokenCovers, WithinBudget;
  }

  // ----- Why an execution is refused -----

  /** The credential is sealed, current, unrevoked and for this intent. */
  ghost predicate Current(s: State, att: Credential, i: Intent) {
    && att in s.sealed && att.ActionCredential? && att.intent == i && att.iat - 30 * 1000 <= s.now <= att.exp
    && ActionRevocation(att.jti) !in s.revocations
    && (att.token.Some? ==> TokenRevocation(att.token.value) !in s.revocations)
  }

  ghost predicate CredentialError(s: State, att: Credential, i: Intent, code: Code) {
    if att !in s.sealed then code == SigInvalid
    else if att.ApprovalCredential? then code == TokenMalformed
    else if att.intent.org != i.org || att.intent.passport != i.passport || att.intent.aud != i.aud then
      code == TokenMismatch
    else if att.intent != i then code == IntentMismatch
    else if att.exp < s.now then code == TokenExpired
    else if s.now < att.iat - 30 * 1000 then code == TokenMalformed
    else code == TokenRevoked && !Current(s, att, i)
  }

  lemma CredentialErrs(s: State, att: Credential, i: Intent, code: Code)
    requires GrantsOk(s.approvals, s.sealed, s.log) && (att.ActionCredential? ==> Complete(att))
    ensures CredentialChecks(s, att, i) == Err(code) <==> CredentialError(s, att, i, code)
    ensures CredentialChecks(s, att, i).Ok? <==> Current(s, att, i)
  {
    hide GrantsOk, CredentialChecks, CredentialError, Current;
    if att in s.sealed && att.ActionCredential? {
      CredentialMatches(s, att);
      if att.intent == i { OwnCredentialErrs(s, att, i, code); } else { OtherCredentialErrs(s, att, i, code); }
    } else {
      NoCredentialErrs(s, att, i, code);
    }
  }

  lemma NoCredentialErrs(s: State, att: Credential, i: Intent, code: Code)
    requires !(att in s.sealed && att.ActionCredential?)
    ensures CredentialChecks(s, att, i) == Err(code) <==> CredentialError(s, att, i, code)
    ensures CredentialChecks(s, att, i).Err? && !Current(s, att, i)
  {
  }

  lemma OtherCredentialErrs(s: State, att: Credential, i: Intent, code: Code)
    requires att in s.sealed && att.ActionCredential? && Complete(att) && att.intent != i
    requires att.org == att.intent.org && att.sub == att.intent.passport && att.aud == att.intent.aud
    ensures CredentialChecks(s, att, i) == Err(code) <==> CredentialError(s, att, i, code)
    ensures CredentialChecks(s, att, i).Err? && !Current(s, att, i)
  {
  }

  lemma OwnCredentialErrs(s: State, att: Credential, i: Intent, code: Code)
    requires att in s.sealed && att.ActionCredential? && Complete(att) && att.intent == i
    requires att.org == i.org && att.sub == i.passport && att.aud == i.aud
    requires att.action == i.action && att.resource == i.resource && att.amount == i.amount
    ensures CredentialChecks(s, att, i) == Err(code) <==> CredentialError(s, att, i, code)
    ensures CredentialChecks(s, att, i).Ok? <==> Current(s, att, i)
  {
  }

  ghost predicate ApprovalError(s: State, att: Credential, i: Intent, approval: Option<Credential>, code: Code)
    requires att.ActionCredential?
  {
    att.requiresApproval &&
      if approval.None? then code == ApprovalRequired
      else
        var a := approval.value;
        if a !in s.sealed then code == SigInvalid
        else if a.ActionCredential? then code == ApprovalRequired
        else if a.intent != i || a.actionJti != Some(att.jti) then code == IntentMismatch
        else code == ApprovalExpired && a.exp < s.now
  }

  lemma ApprovalMatches(s: State, a: Credential)
    requires GrantsOk(s.approvals, s.sealed, s.log) && a in s.sealed && a.ApprovalCredential?
    ensures a.aud == a.intent.aud && a.actionJti.Some?
  {
    assert CredentialOk(a, s.approvals, s.log);
  }

  lemma ApprovalErrs(s: State, att: Credential, i: Intent, approval: Option<Credential>, code: Code)
    requires GrantsOk(s.approvals, s.sealed, s.log) && att.ActionCredential?
    ensures ApprovalChecks(s, att, i, approval) == Err(code) <==> ApprovalError(s, att, i, approval, code)
  {
    hide GrantsOk, ApprovalChecks, ApprovalError;
    if approval.Some? && approval.value in s.sealed && approval.value.ApprovalCredential? {
      ApprovalMatches(s, approval.value);
      SealedApprovalErrs(s, att, i, approval, code);
    } else {
      NoApprovalErrs(s, att, i, approval, code);
    }
  }

  lemma SealedApprovalErrs(s: State, att: Credential, i: Intent, approval: Option<Credential>, code: Code)
    requires att.ActionCredential? && approval.Some? && approval.value in s.sealed && approval.value.ApprovalCredential?
    requires approval.value.aud == approval.value.intent.aud && approval.value.actionJti.Some?
    ensures ApprovalChecks(s, att, i, approval) == Err(code) <==> ApprovalError(s, att, i, approval, code)
  {
  }

  lemma NoApprovalErrs(s: State, att: Credential, i: Intent, approval: Option<Credential>, code: Code)
    requires att.ActionCredential?
    requires !(approval.Some? && approval.value in s.sealed && approval.value.ApprovalCredential?)
    ensures ApprovalChecks(s, att, i, approval) == Err(code) <==> ApprovalError(s, att, i, approval, code)
  {
  }

  /** The first thing wrong with the key number of a passport. */
  ghost predicate KeyError(p: Passport, kid: Option<nat>, now: int, code: Code) {
    if p.current.revoked || (exists k :: GatewayAnswers.Archived(p, kid, k) && k.revoked) then code == KeyRevoked
    else if !(exists k :: Names(p, kid, k)) then code == UnknownKid
    else code == KeyExpired && exists k :: GatewayAnswers.Archived(p, kid, k) && k.until < now
  }

  /** The first thing wrong with the token a credential was granted under. */
  ghost predicate TokenError(s: State, jti: Id, i: Intent, code: Code) {
    if jti !in s.tokens || s.tokens[jti].org != i.org then code == TokenUnknown
    else if !ChainFit(s, jti) then AssertTokenUsable(s, jti, {}) == Err(code)
    else if !Covers(s.tokens[jti], i.action, i.resource, i.destination) then code == ScopeInsufficient
    else code == BudgetExceeded && s.tokens[jti].spent + i.amount > s.tokens[jti].constraints.maxSpend
  }

  lemma TokenErrs(s: State, jti: Id, i: Intent)
    requires PassportsOk(s.passports) && TokensOk(s.passports, s.tokens) && !TokenGrants(s, jti, i)
    ensures if jti !in s.tokens || s.tokens[jti].org != i.org then TokenError(s, jti, i, TokenUnknown)
            else if AssertTokenUsable(s, jti, {}).Err? then
              TokenError(s, jti, i, AssertTokenUsable(s, jti, {}).code)
            else if !TokenCovers(s.tokens[jti], i.action, i.resource, i.destination) then
              TokenError(s, jti, i, ScopeInsufficient)
            else TokenError(s, jti, i, BudgetExceeded) && !WithinBudget(s.tokens[jti], i.amount)
  {
    hide AssertTokenUsable, TokenCovers, Covers, WithinBudget, PassportsOk, TokensOk, ChainFit;
    if jti in s.tokens {
      CoversExactly(s.tokens[jti], i.action, i.resource, i.destination);
      UsableTokenExactly(s, jti);
      BudgetExactly(s, jti, i.amount);
    }
  }

  /** The first thing wrong, in the order of the checks. */
  ghost predicate Refusal(s: State, att: Credential, i: Intent, approval: Option<Credential>, code: Code) {
    if i.org !in s.orgs then code == OrgUnknown
    else if s.orgs[i.org].locked then code == OrgLocked
    else if !Current(s, att, i) then CredentialError(s, att, i, code)
    else if !ApprovalFits(s, att, i, approval) then ApprovalError(s, att, i, approval, code)
    else if i.passport !in s.passports then code == PassportUnknown
    else if !LineageHealthy(s, i.passport) then FirstFault(s, i.passport, code)
    else if !KeyValid(s.passports[i.passport], att.kid, s.now) then
      KeyError(s.passports[i.passport], att.kid, s.now, code)
    else att.token.Some? && TokenError(s, att.token.value, i, code)
  }

  /** An execution is refused with the code of the first thing wrong. */
  lemma RefusalExactly(s: State, att: Credential, i: Intent, approval: Option<Credential>)
    requires PassportsOk(s.passports) && TokensOk(s.passports, s.tokens) && GrantsOk(s.approvals, s.sealed, s.log)
    requires att.ActionCredential? ==> Complete(att)
    requires ExecuteChecks(s, att, i, approval).Err?
    ensures Refusal(s, att, i, approval, ExecuteChecks(s, att, i, approval).code)
  {
    hide PassportsOk, TokensOk, GrantsOk, CredentialChecks, CredentialError, Current, ApprovalChecks, ApprovalError,
      ApprovalFits, AssertPassportUsable, LineageHealthy, FirstFault, KeyFor, KeyValid, KeyError, AssertTokenUsable,
      TokenError, TokenCovers, WithinBudget, TokenGrants;
    var code := ExecuteChecks(s, att, i, approval).code;
    CredentialErrs(s, att, i, code);
    if Current(s, att, i) {
      CurrentIsAction(s, att, i);
      ApprovalErrs(s, att, i, approval, code);
      ApprovalExactly(s, att, i, approval);
      FaultExactly(s, i.passport, code);
      if i.passport in s.passports {
        UsablePassportExactly(s, i.passport);
        KeyExactly(s.passports[i.passport], att.kid, s.now);
        KeyErrsFlat(s.passports[i.passport], att.kid, s.now);
      } else {
        UnknownIsUnusable(s, i.passport);
      }
      if att.token.Some? {
        TokenPartExactly(s, i, att.token.value);
        if !TokenGrants(s, att.token.value, i) { TokenErrs(s, att.token.value, i); }
      }
    }
  }

  lemma CurrentIsAction(s: State, att: Credential, i: Intent)
    requires Current(s, att, i)
    ensures att in s.sealed && att.ActionCredential?
  {
  }

  lemma KeyErrsFlat(p: Passport, kid: Option<nat>, now: int)
    ensures KeyFor(p, kid, now).Err? ==> KeyError(p, kid, now, KeyFor(p, kid, now).code)
  {
    if KeyFor(p, kid, now).Err? { GatewayAnswers.KeyErrs(p, kid, now); }
    hide KeyFor, Names, GatewayAnswers.Archived;
  }

  // ----- Registrations -----

  /** A token that is registered is stored under its own id and noted; a refusal leaves nothing. */
  lemma TokensAreStored(s: State, org: Id, delegator: Id, p: Payload, envelope: Envelope, admin: bool)
    ensures var t, out := DelegateStep(s, org, delegator, p, envelope, admin),
                          DelegateChecks(s, org, delegator, p, envelope, admin);
      if out.Err? then t == s
      else && t == s.(tokens := s.tokens[p.jti := out.value], log := t.log)
           && t.log == s.log + [Receipt(Allow, org, delegator, None, 0, None, None, None, s.now)]
  {
    var out := DelegateChecks(s, org, delegator, p, envelope, admin);
    if out.Ok? { JtiIsAsked(s, org, delegator, p, envelope, admin); }
    hide DelegateChecks;
  }

  lemma JtiIsAsked(s: State, org: Id, delegator: Id, p: Payload, envelope: Envelope, admin: bool)
    requires DelegateChecks(s, org, delegator, p, envelope, admin).Ok?
    ensures DelegateChecks(s, org, delegator, p, envelope, admin).value.jti == p.jti
  {
    hide AssertPassportUsable, AssertTokenUsable, KeyFor, CheckAttenuation;
  }
}
