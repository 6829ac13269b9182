/** The gateway as the object it is: collections that the handlers reassign one by one, and
    the replay map. Every handler is proved to take exactly the step of Gateway.dfy. */
module GatewayServer {
  import opened Prelude
  import opened Delegation
  import opened Replay
  import opened Gateway
  import opened Doubles
  import Policy

  class Server {
    const cfg: Config
    const nonces: ReplayMap
    var now: int
    var orgs: map<Id, Org>
    var blueprints: map<Id, Blueprint>
    var passports: map<Id, Passport>
    var tokens: map<Id, Token>
    var revocations: set<Revocation>
    var approvals: map<Id, Approval>
    var sealed: set<Credential>
    var log: seq<Receipt>

    /** The state the step functions are about. */
    function View(): State
      reads this, nonces
    {
      State(now, orgs, blueprints, passports, tokens, revocations, approvals, nonces.used, sealed, log)
    }

    constructor (cfg: Config, now: int)
      ensures View() == Start(now) && this.cfg == cfg && fresh(nonces)
    {
      this.cfg := cfg;
      this.now := now;
      nonces := new ReplayMap();
      orgs, blueprints, passports, tokens := map[], map[], map[], map[];
      revocations, approvals, sealed, log := {}, map[], {}, [];
    }

    method Advance(ms: nat)
      modifies this`now
      ensures View() == AdminStep(old(View()), Tick(ms))
    {
      now := now + ms;
    }

    method CreateOrg(org: Id)
      modifies this`orgs, this`log
      ensures View() == AdminStep(old(View()), Event.CreateOrg(org))
    {
      log := log + Note(View(), Allow, org, org);
      orgs := orgs[org := Org(false)];
    }

    method SetLock(org: Id, locked: bool)
      modifies this`orgs, this`log
      ensures View() == AdminStep(old(View()), Event.SetLock(org, locked))
    {
      if org in orgs {
        log := log + Note(View(), Allow, org, org);
        orgs := orgs[org := Org(locked)];
      }
    }

    // ----- The usability checks -----

    method CheckOrg(org: Id) returns (r: Result<()>)
      ensures r == AssertOrgUsable(View(), org)
    {
      if org !in orgs { return Err(OrgUnknown); }
      if orgs[org].locked { return Err(OrgLocked); }
      return Ok(());
    }

    /** `assertPassportUsable`: the trail holds the passports visited on the way up. */
    method CheckPassport(id: Id, visited: set<Id>) returns (r: Result<()>)
      ensures r == AssertPassportUsable(View(), id, visited)
      decreases passports.Keys - visited
    {
      if id !in passports { return Err(PassportUnknown); }
      var p := passports[id];
      if id in visited { return Err(PassportInvalid); }
      var trail := visited + {id};
      if p.org in orgs && orgs[p.org].locked { return Err(OrgLocked); }
      if p.status == Revoked || PassportRevocation(id) in revocations { return Err(PassportRevoked); }
      if now > p.exp || p.status == Expired { return Err(PassportExpired); }
      if p.status == Suspended { return Err(PassportSuspended); }
      if p.status == Quarantined { return Err(PassportQuarantined); }
      if p.blueprint.Some? {
        var b := p.blueprint.value;
        if b !in blueprints || blueprints[b].revoked || BlueprintRevocation(b) in revocations {
          return Err(BlueprintRevoked);
        }
      }
      if p.parent.Some? {
        var q := p.parent.value;
        if q !in passports || passports[q].org != p.org { return Err(PassportParentInvalid); }
        assert id in passports.Keys - visited && id !in passports.Keys - trail;
        r := CheckPassport(q, trail);
        return;
      }
      return Ok(());
    }

    /** The first archived key of that number. */
    method ArchivedKey(history: seq<Key>, kid: nat) returns (key: Option<Key>)
      ensures key == FindKey(history, kid)
    {
      var i := 0;
      while i < |history|
        invariant 0 <= i <= |history| && FindKey(history, kid) == FindKey(history[i..], kid)
      {
        if history[i].kid == kid { return Some(history[i]); }
        assert history[i..][1..] == history[i + 1..];
        i := i + 1;
      }
      return None;
    }

    method CheckKey(p: Passport, kid: Option<nat>) returns (r: Result<Key>)
      ensures r == KeyFor(p, kid, now)
    {
      if p.current.revoked { return Err(KeyRevoked); }
      if kid.None? || kid.value == p.current.kid { return Ok(p.current); }
      var h := ArchivedKey(p.history, kid.value);
      if h.None? { return Err(UnknownKid); }
      if h.value.revoked { return Err(KeyRevoked); }
      if now > h.value.until { return Err(KeyExpired); }
      return Ok(h.value);
    }

    /** `assertTokenUsable`: first the ancestors, then the token's own subject. */
    method CheckToken(jti: Id, visited: set<Id>) returns (r: Result<()>)
      ensures r == AssertTokenUsable(View(), jti, visited)
      decreases tokens.Keys - visited
    {
      hide AssertPassportUsable;
      if jti !in tokens { return Err(TokenUnknown); }
      var t := tokens[jti];
      if jti in visited { return Err(TokenMalformed); }
      var trail := visited + {jti};
      if TokenRevocation(jti) in revocations { return Err(TokenRevoked); }
      var after := t.constraints.notAfter;
      if after.Some? && after.value != 0 && now > after.value { return Err(TokenExpired); }
      if t.parent.Some? {
        var q := t.parent.value;
        if q !in tokens || tokens[q].org != t.org { return Err(TokenRevoked); }
        if tokens[q].sub != t.issuer { return Err(TokenRevoked); }
        assert jti in tokens.Keys - visited && jti !in tokens.Keys - trail;
        r := CheckToken(q, trail);
        if r.Err? { return; }
      }
      r := CheckPassport(t.sub, {});
    }

    method CheckBudget(t: Token, amount: nat) returns (ok: bool)
      ensures ok == WithinBudget(t, amount)
    {
      if amount > MAX_SAFE || t.spent > MAX_SAFE { return false; }
      return Round(t.spent + amount) <= t.constraints.maxSpend;
    }

    method CheckIntent(i: Intent) returns (r: Result<()>)
      ensures r == CheckIntentShape(cfg, now, i)
    {
      if i.amount > MAX_SAFE { return Err(BadIntent); }
      if |i.nonce| < 16 { return Err(BadIntent); }
      for k := 0 to |i.nonce|
        invariant forall m :: 0 <= m < k ==> NonceChar(i.nonce[m])
      {
        if !NonceChar(i.nonce[k]) { return Err(BadIntent); }
      }
      if i.exp <= now { return Err(IntentExpired); }
      if i.exp - i.iat > cfg.intentTtl * 1000 { return Err(BadIntent); }
      if i.iat - now > cfg.skew * 1000 { return Err(BadIntent); }
      if now - i.iat > cfg.intentTtl * 1000 { return Err(BadIntent); }
      if !("agt_" <= i.passport) || !("org_" <= i.org) { return Err(BadIntent); }
      return Ok(());
    }

    // ----- Administration -----

    method CreateBlueprint(id: Id, org: Id) returns (r: Result<()>)
      modifies this`blueprints, this`log
      ensures View() == AdminStep(old(View()), Event.CreateBlueprint(id, org))
      ensures r == AssertOrgUsable(old(View()), org)
    {
      r := CheckOrg(org);
      if r.Err? { return; }
      log := log + Note(View(), Allow, org, org);
      blueprints := blueprints[id := Blueprint(org, false)];
    }

    method CheckNewPassport(n: NewPassport) returns (r: Result<()>)
      ensures forall id :: r.Err? ==> IssueChecks(View(), id, n) == Err(r.code)
      ensures forall id :: r.Ok? ==> IssueChecks(View(), id, n).Ok?
      ensures r.Ok? && n.parent.Some? ==> n.parent.value in passports
      ensures r.Ok? ==> FirstKey(n).Ok? && (!n.server ==> n.key.Offered?)
    {
      hide AssertPassportUsable, NotBlank, Utf16Length;
      r := CheckOrg(n.org);
      if r.Err? { return; }
      if !NotBlank(n.name) || Utf16Length(n.name) > 256 { return Err(BadRequest); }
      if n.server && !n.keeper.allowed { return Err(CustodyForbidden); }
      if !n.server && n.key.NoKey? { return Err(BadRequest); }
      if n.key.BadKey? { return Err(BadRequest); }
      if n.parent.Some? {
        var q := n.parent.value;
        if q !in passports || passports[q].org != n.org { return Err(BadRequest); }
        r := CheckPassport(q, {});
        if r.Err? { return; }
      }
      if n.subagent && n.parent.None? { return Err(BadRequest); }
      if n.blueprint.Some? {
        var b := n.blueprint.value;
        if b !in blueprints || blueprints[b].org != n.org || blueprints[b].revoked { return Err(BadRequest); }
      }
      if n.exp <= now { return Err(BadRequest); }
      return Ok(());
    }

    method IssuePassport(id: Id, n: NewPassport) returns (r: Result<Passport>)
      modifies this`passports, this`log
      ensures View() == IssueStep(old(View()), id, n)
      ensures r == IssueChecks(old(View()), id, n)
    {
      hide AssertPassportUsable, AssertOrgUsable, NotBlank, Utf16Length;
      var ok := CheckNewPassport(n);
      if ok.Err? { return Err(ok.code); }
      var exp := n.exp;
      if n.parent.Some? {
        var limit := passports[n.parent.value].exp;
        if limit > 0 && limit < exp { exp := limit; }
      }
      var pub;
      if n.server { pub := n.keeper.made; } else { pub := n.key.pub; }
      var p := Passport(id, n.org, n.parent, n.blueprint, n.environment, n.server, GraceOf(n.grace), Active, exp,
                        Key(1, pub, false, 0), []);
      log := log + Note(View(), Allow, n.org, id);
      passports := passports[id := p];
      return Ok(p);
    }

    method SetPassportStatus(id: Id, status: Status) returns (known: bool)
      modifies this`passports, this`revocations, this`log
      ensures View() == SetStatusStep(old(View()), id, status)
      ensures known == (id in old(passports))
    {
      known := id in passports;
      if !known { return; }
      log := log + Note(View(), Allow, passports[id].org, id);
      passports := passports[id := passports[id].(status := status)];
      if status == Revoked && PassportRevocation(id) !in revocations {
        revocations := revocations + {PassportRevocation(id)};
      }
    }

    method RotatePassport(id: Id, key: KeyField, keeper: Keeper) returns (r: Result<Passport>)
      modifies this`passports, this`log
      ensures View() == RotateStep(old(View()), id, key, keeper)
      ensures r == RotateChecks(old(View()), id, key, keeper)
    {
      var usable := CheckPassport(id, {});
      if usable.Err? { return Err(usable.code); }
      var p := passports[id];
      var pub;
      if key.NoKey? {
        if !p.server || !keeper.allowed { return Err(BadRequest); }
        pub := keeper.made;
      } else {
        if key.BadKey? { return Err(BadRequest); }
        pub := key.pub;
      }
      log := log + Note(View(), Allow, p.org, id);
      var retired := Key(p.current.kid, p.current.pub, false, now + GraceMs(p));
      p := p.(history := p.history + [retired]);
      p := p.(current := Key(p.current.kid + 1, pub, false, 0));
      passports := passports[id := p];
      return Ok(p);
    }

    /** `revokeKey`: an archived key is marked and closed, the current one marked. */
    method RevokeKey(id: Id, kid: nat) returns (known: bool)
      requires id in passports
      modifies this`passports
      ensures var p := WithKeyRevoked(old(passports)[id], kid, now);
              known == p.Ok? && passports == if p.Ok? then old(passports)[id := p.value] else old(passports)
    {
      hide WithKeyRevoked;
      var p := passports[id];
      var i := 0;
      while i < |p.history| && p.history[i].kid != kid
        invariant 0 <= i <= |p.history| && forall j :: 0 <= j < i ==> p.history[j].kid != kid
      {
        i := i + 1;
      }
      KeyRevokedAt(p, kid, now, i);
      if i < |p.history| {
        passports := passports[id := p.(history := p.history[i := p.history[i].(revoked := true, until := now)])];
        return true;
      }
      if p.current.kid == kid {
        passports := passports[id := p.(current := p.current.(revoked := true))];
        return true;
      }
      return false;
    }

    /** The organisation on whose behalf something is revoked. */
    method TargetOrg(r: Revocation, named: Id) returns (org: Option<Id>)
      ensures !r.KeyRevocation? ==> org == RevocationOrg(View(), r, named)
      ensures r.KeyRevocation? ==> org == if r.id in passports then Some(passports[r.id].org) else None
    {
      match r {
        case PassportRevocation(id) => if id in passports { return Some(passports[id].org); }
        case TokenRevocation(id) => if id in tokens { return Some(tokens[id].org); }
        case ActionRevocation(_) => if named != "" { return Some(named); }
        case KeyRevocation(id, _) => if id in passports { return Some(passports[id].org); }
        case BlueprintRevocation(id) => if id in blueprints { return Some(blueprints[id].org); }
        case OrgRevocation(id) => if id in orgs { return Some(id); }
      }
      return None;
    }

    method RevokeTarget(r: Revocation, kid: Id, named: Id) returns (known: bool)
      modifies this`passports, this`blueprints, this`orgs, this`revocations, this`log
      ensures View() == RevokeStep(old(View()), r, kid, named)
      ensures known == RevocationOrg(old(View()), r, named).Some?
    {
      hide WithKeyRevoked, Recorded;
      var org := TargetOrg(r, named);
      if org.None? { return false; }
      match r {
        case PassportRevocation(id) => passports := passports[id := passports[id].(status := Revoked)];
        case KeyRevocation(id, number) =>
          var marked := RevokeKey(id, number);
          if !marked { return false; }
        case BlueprintRevocation(id) => blueprints := blueprints[id := blueprints[id].(revoked := true)];
        case OrgRevocation(id) => orgs := orgs[id := Org(true)];
        case _ =>
      }
      revocations := revocations + {Recorded(r, kid)};
      log := log + Note(View(), RevokedEntry, org.value, ADMIN);
      return true;
    }

    // ----- registerDelegation -----

    method CheckDelegation(org: Id, delegator: Id, payload: Payload, envelope: Envelope, admin: bool)
        returns (r: Result<Token>)
      ensures r == DelegateChecks(View(), org, delegator, payload, envelope, admin)
    {
      hide AssertPassportUsable, AssertTokenUsable, AssertOrgUsable, CheckAttenuation, BuildToken, KeyFor;
      var usable := CheckOrg(org);
      if usable.Err? { return Err(usable.code); }
      if delegator !in passports || passports[delegator].org != org { return Err(Forbidden); }
      usable := CheckPassport(delegator, {});
      if usable.Err? { return Err(usable.code); }
      var verified := envelope.payload;
      if verified != payload { return Err(TokenMalformed); }
      if verified.v != 2 || verified.org != org || verified.sub == "" || verified.jti == "" { return Err(BadRequest); }
      var key := CheckKey(passports[delegator], verified.kid);
      if key.Err? { return Err(key.code); }
      if envelope.signer != key.value.pub { return Err(SigInvalid); }
      var subject := verified.sub;
      if subject !in passports || passports[subject].org != org { return Err(BadRequest); }
      usable := CheckPassport(subject, {});
      if usable.Err? { return Err(usable.code); }
      var parent: Option<Token> := None;
      if verified.parent.Some? {
        var q := verified.parent.value;
        if q !in tokens || tokens[q].org != org { return Err(Forbidden); }
        if tokens[q].sub != delegator { return Err(DelegationNotAuthorized); }
        usable := CheckToken(q, {});
        if usable.Err? { return Err(usable.code); }
        parent := Some(tokens[q]);
        var narrower := CheckAttenuation(tokens[q], verified);
        if narrower.Err? { return Err(narrower.code); }
      } else if !admin && subject != delegator {
        return Err(DelegationNotAuthorized);
      }
      if verified.jti in tokens { return Err(BadRequest); }
      return BuildToken(parent, verified, delegator, now);
    }

    method RegisterDelegation(org: Id, delegator: Id, payload: Payload, envelope: Envelope, admin: bool)
      returns (r: Result<Token>)
      modifies this`tokens, this`log
      ensures View() == DelegateStep(old(View()), org, delegator, payload, envelope, admin)
      ensures r == DelegateChecks(old(View()), org, delegator, payload, envelope, admin)
    {
      hide DelegateChecks;
      r := CheckDelegation(org, delegator, payload, envelope, admin);
      if r.Err? { return; }
      log := log + Note(View(), Allow, org, delegator);
      tokens := tokens[r.value.jti := r.value];
    }

    // ----- authorize -----

    /** The part that leaves no receipt when it throws. */
    method CheckCaller(r: AuthorizeRequest) returns (pass: Result<Passport>)
      ensures pass == Authenticate(cfg, View(), r)
    {
      hide CheckIntentShape, KeyFor;
      var i := r.intent;
      var ok := CheckIntent(i);
      if ok.Err? { return Err(ok.code); }
      ok := CheckOrg(i.org);
      if ok.Err? { return Err(ok.code); }
      if i.passport !in passports || passports[i.passport].org != i.org { return Err(PassportUnknown); }
      var p := passports[i.passport];
      if r.signature.Some? {
        var key := CheckKey(p, r.kid);
        if key.Err? { return Err(key.code); }
        if r.signature.value.pub != key.value.pub || r.signature.value.message != i { return Err(SigInvalid); }
      } else if !r.serviceKey {
        return Err(Unauthorized);
      }
      return Ok(p);
    }

    /** The `try` around the delegation token. */
    method CheckNamedToken(i: Intent, token: Option<Id>) returns (r: Result<()>)
      ensures r == TokenChecks(View(), i, token)
    {
      hide AssertTokenUsable, TokenCovers, WithinBudget;
      if token.None? { return Ok(()); }
      var jti := token.value;
      if jti !in tokens || tokens[jti].org != i.org { return Err(TokenUnknown); }
      r := CheckToken(jti, {});
      if r.Err? { return; }
      var t := tokens[jti];
      if t.sub != i.passport { return Err(TokenMismatch); }
      if !TokenCovers(t, i.action, i.resource, i.destination) { return Err(ScopeInsufficient); }
      var room := CheckBudget(t, i.amount);
      if !room { return Err(BudgetExceeded); }
      return Ok(());
    }

    /** From the usability of the passport to the decision. */
    method Judge(r: AuthorizeRequest, pass: Passport) returns (out: Result<Decision>)
      requires Authenticate(cfg, View(), r) == Ok(pass)
      ensures out == AuthorizeOutcome(cfg, View(), r)
    {
      hide AssertPassportUsable, TokenChecks, Authenticate, VerdictOf, RiskOf;
      var usable := CheckPassport(r.intent.passport, {});
      if usable.Err? {
        if RecordedRefusal(usable.code) { return Ok(Deny); }
        return Err(usable.code);
      }
      var token := CheckNamedToken(r.intent, r.token);
      if token.Err? { return Ok(Deny); }
      var verdict := VerdictOf(View(), r, pass);
      var risk := RiskOf(View(), r);
      if r.dryRun { return Ok(DryRun); }
      if verdict.effect == Policy.Denies || risk >= r.ceiling { return Ok(Deny); }
      if verdict.effect == Policy.NeedsApproval || (risk >= r.stepup && risk < 70) { return Ok(StepUp); }
      return Ok(Allow);
    }

    method Authorize(r: AuthorizeRequest) returns (out: Result<Decision>)
      modifies this`approvals, this`sealed, this`log
      ensures View() == AuthorizeStep(cfg, old(View()), r)
      ensures out == AuthorizeOutcome(cfg, old(View()), r)
    {
      var caller := CheckCaller(r);
      if caller.Err? { return Err(caller.code); }
      CallerIsStored(r);
      hide Authenticate, VerdictOf, TokenChecks, AssertPassportUsable, RiskOf;
      var pass := caller.value;
      out := Judge(r, pass);
      hide AuthorizeOutcome, AuthorizeEffect;
      if out.Ok? { Record(r, out.value, pass); }
    }

    /** What the decision leaves: an approval to wait for, or a credential, and the receipt. */
    method Record(r: AuthorizeRequest, d: Decision, pass: Passport)
      modifies this`approvals, this`sealed, this`log
      ensures View() == AuthorizeEffect(cfg, old(View()), r, d, pass)
    {
      hide VerdictOf, NewApproval;
      if d == StepUp {
        var ap := NewApproval(View(), r, pass);
        approvals := approvals[r.freshApproval := ap];
        log := log + Logged(View(), StepUp, r.intent, r.token, None, Some(r.freshApproval));
      } else if d == Allow {
        var att := ActionFor(cfg, View(), r, pass.current.kid);
        sealed := sealed + {att};
        log := log + Logged(View(), Allow, r.intent, r.token, Some(r.freshJti), None);
      } else {
        log := log + Logged(View(), d, r.intent, r.token, None, None);
      }
    }

    lemma CallerIsStored(r: AuthorizeRequest)
      requires Authenticate(cfg, View(), r).Ok?
      ensures r.intent.passport in passports && Authenticate(cfg, View(), r).value == passports[r.intent.passport]
    {
    }

    /** `POST /v1/approvals/:id`: the record is changed field by field and stored after each
        group of changes. */
    method Decide(id: Id, approver: Id, approve: bool, jti: Id) returns (out: Result<ApprovalStatus>)
      modifies this`approvals, this`sealed, this`log
      ensures View() == DecideStep(cfg, old(View()), id, approver, approve, jti)
      ensures out == DecideOutcome(old(View()), id, approver, approve)
    {
      hide DecideStep;
      DecisionStep(cfg, View(), id, approver, approve, jti);
      if id !in approvals { return Err(NotFound); }
      var ap := approvals[id];
      if ap.status != ApPending && ap.status != ApPartial { return Err(ApprovalResolved); }
      if now > ap.expiresAt {
        approvals := approvals[id := ap.(status := ApExpired)];
        return Err(ApprovalExpired);
      }
      if approver in ap.approvers { return Err(ApprovalResolved); }
      if !approve {
        approvals := approvals[id := ap.(status := ApDenied)];
        log := log + Logged(View(), Denied, ap.intent, None, None, Some(id));
        return Ok(ApDenied);
      }
      var full := Count(id, approver, jti);
      return Ok(if full then ApApproved else ApPartial);
    }

    /** One more approval: the record waits for others, or the quorum is reached. */
    method Count(id: Id, approver: Id, jti: Id) returns (full: bool)
      requires DecideOutcome(View(), id, approver, true).Ok?
      modifies this`approvals, this`sealed, this`log
      ensures View() == DecideStep(cfg, old(View()), id, approver, true, jti)
      ensures DecideOutcome(old(View()), id, approver, true) == Ok(if full then ApApproved else ApPartial)
    {
      var ap := approvals[id];
      ap := ap.(approvers := ap.approvers + [approver]);
      full := |ap.approvers| >= ap.quorum;
      if !full {
        approvals := approvals[id := ap.(status := ApPartial)];
        log := log + Logged(View(), StepUp, ap.intent, None, None, Some(id));
        return;
      }
      Complete(id, ap, jti);
    }

    /** The quorum is reached: one action credential and one approval credential are minted. */
    method Complete(id: Id, partial: Approval, jti: Id)
      modifies this`approvals, this`sealed, this`log
      ensures var ap := partial.(status := ApApproved, actionJti := Some(jti));
              View() == old(View()).(approvals := old(approvals)[id := ap],
                                     sealed := old(sealed) + Minted(cfg, old(View()), id, ap, jti),
                                     log := old(log) + Logged(old(View()), Approved, ap.intent, None, None, Some(id)))
    {
      var ap := partial.(status := ApApproved);
      approvals := approvals[id := ap];
      var action := MintAction(cfg, now, jti, ap.intent, ap.kid, ap.token, true);
      sealed := sealed + {action};
      ap := ap.(actionJti := Some(jti));
      approvals := approvals[id := ap];
      var approval := MintApproval(cfg, now, id, ap, jti);
      sealed := sealed + {approval};
      assert sealed == old(sealed) + {action, approval};
      log := log + Logged(View(), Approved, ap.intent, None, None, Some(id));
    }

    // ----- execute -----

    /** `debitBudget`: the budget is tested again before the amount is added. */
    method DebitBudget(jti: Id, amount: nat) returns (ok: bool)
      requires jti in tokens
      modifies this`tokens
      ensures ok == WithinBudget(old(tokens)[jti], amount)
      ensures tokens == if ok then Debited(old(tokens), Some(jti), amount) else old(tokens)
    {
      var t := tokens[jti];
      ok := CheckBudget(t, amount);
      if !ok { return; }
      t := t.(spent := t.spent + amount);
      tokens := tokens[jti := t];
    }

    method AppendDeny(i: Intent)
      modifies this`log
      ensures log == old(log) + Logged(old(View()), Deny, i, None, None, None)
    {
      log := log + Logged(View(), Deny, i, None, None, None);
    }

    method CheckApproval(att: Credential, i: Intent, approval: Option<Credential>) returns (r: Result<Option<Id>>)
      requires att.ActionCredential?
      ensures r == ApprovalChecks(View(), att, i, approval)
    {
      if !att.requiresApproval { return Ok(None); }
      if approval.None? { return Err(ApprovalRequired); }
      var apc := approval.value;
      if apc !in sealed { return Err(SigInvalid); }
      if !apc.ApprovalCredential? { return Err(ApprovalRequired); }
      if apc.intent != i { return Err(IntentMismatch); }
      if apc.aud != i.aud { return Err(TokenMismatch); }
      if apc.actionJti.Some? && apc.actionJti.value != att.jti { return Err(IntentMismatch); }
      if now > apc.exp { return Err(ApprovalExpired); }
      return Ok(Some(apc.approvalId));
    }

    /** The credential itself, before the approval and the records behind it. */
    method CheckCredential(att: Credential, i: Intent) returns (r: Result<()>)
      ensures r == CredentialChecks(View(), att, i)
    {
      if att !in sealed { return Err(SigInvalid); }
      if !att.ActionCredential? { return Err(TokenMalformed); }
      if att.jti == "" || att.sub == "" || att.iat == 0 || att.exp == 0 { return Err(TokenMalformed); }
      if att.org != i.org || att.sub != i.passport { return Err(TokenMismatch); }
      if att.aud != i.aud { return Err(TokenMismatch); }
      if att.intent != i { return Err(IntentMismatch); }
      if att.action != i.action || att.resource != i.resource || att.amount != i.amount { return Err(IntentMismatch); }
      if now > att.exp { return Err(TokenExpired); }
      if now < att.iat - ACTION_SKEW_MS { return Err(TokenMalformed); }
      if ActionRevocation(att.jti) in revocations { return Err(TokenRevoked); }
      if att.token.Some? && TokenRevocation(att.token.value) in revocations { return Err(TokenRevoked); }
      return Ok(());
    }

    method CheckExecution(att: Credential, i: Intent, approval: Option<Credential>) returns (r: Result<Option<Id>>)
      ensures r == ExecuteChecks(View(), att, i, approval)
    {
      hide AssertPassportUsable, AssertTokenUsable, AssertOrgUsable, CredentialChecks, ApprovalChecks, KeyFor,
        TokenCovers, WithinBudget;
      var ok := CheckOrg(i.org);
      if ok.Err? { return Err(ok.code); }
      ok := CheckCredential(att, i);
      if ok.Err? { return Err(ok.code); }
      CredentialIsAction(View(), att, i);
      var approvalId := CheckApproval(att, i, approval);
      if approvalId.Err? { return approvalId; }
      ok := CheckPassport(i.passport, {});
      if ok.Err? { return Err(ok.code); }
      UsableIsStored(View(), i.passport);
      var key := CheckKey(passports[i.passport], att.kid);
      if key.Err? { return Err(key.code); }
      if att.token.Some? {
        var jti := att.token.value;
        if jti !in tokens || tokens[jti].org != i.org { return Err(TokenUnknown); }
        ok := CheckToken(jti, {});
        if ok.Err? { return Err(ok.code); }
        if !TokenCovers(tokens[jti], i.action, i.resource, i.destination) { return Err(ScopeInsufficient); }
        var room := CheckBudget(tokens[jti], i.amount);
        if !room { return Err(BudgetExceeded); }
      }
      return approvalId;
    }

    /** `execute`: check, consume the nonce, consume the credential, debit, append. */
    method Execute(att: Credential, i: Intent, approval: Option<Credential>) returns (out: Result<Option<Id>>)
      modifies this`tokens, this`log, nonces
      ensures View() == ExecuteStep(cfg, old(View()), att, i, approval)
      ensures out == match ExecuteOutcome(cfg, old(View()), att, i, approval)
                     case Malformed(code) => Err(code)
                     case Refused(code) => Err(code)
                     case Replayed => Err(Replay)
                     case Done(approvalId) => Ok(approvalId)
    {
      hide ExecuteChecks, CheckIntentShape, Consume, WithinBudget;
      var shape := CheckIntent(i);
      if shape.Err? { return Err(shape.code); }
      out := CheckExecution(att, i, approval);
      if out.Err? {
        AppendDeny(i);
        return;
      }
      CheckedIsReady(View(), att, i, approval);
      var free := nonces.ConsumeOnce(IntentKey(i.org, i.nonce), now, REPLAY_TTL_MS);
      if !free {
        AppendDeny(i);
        return Err(Replay);
      }
      free := nonces.ConsumeActionJTI(att.jti, now, REPLAY_TTL_MS);
      if !free {
        AppendDeny(i);
        return Err(Replay);
      }
      if att.token.Some? {
        var debited := DebitBudget(att.token.value, i.amount);
        assert debited;
      }
      log := log + Logged(View(), Executed, i, att.token, Some(att.jti), out.value);
    }
  }

  /** The step by its outcome, unless an approval counts. */
  lemma DecisionStep(cfg: Config, s: State, id: Id, approver: Id, approve: bool, jti: Id)
    ensures var out, t := DecideOutcome(s, id, approver, approve), DecideStep(cfg, s, id, approver, approve, jti);
      && (out.Err? && out.code != ApprovalExpired ==> t == s)
      && (out == Err(ApprovalExpired) ==>
            t == s.(approvals := s.approvals[id := s.approvals[id].(status := ApExpired)]))
      && (out == Ok(ApDenied) ==>
            t == s.(approvals := s.approvals[id := s.approvals[id].(status := ApDenied)],
                    log := s.log + Logged(s, Denied, s.approvals[id].intent, None, None, Some(id))))
  {
    hide Minted;
    if id in s.approvals { assert s.approvals[id := s.approvals[id]] == s.approvals; }
  }

  /** `i` is the first archived key of that number, or there is none. */
  lemma KeyRevokedAt(p: Passport, kid: nat, now: int, i: nat)
    requires i <= |p.history| && (forall j :: 0 <= j < i ==> p.history[j].kid != kid)
    requires i < |p.history| ==> p.history[i].kid == kid
    ensures WithKeyRevoked(p, kid, now)
         == if i < |p.history| then Ok(p.(history := p.history[i := p.history[i].(revoked := true, until := now)]))
            else if p.current.kid == kid then Ok(p.(current := p.current.(revoked := true)))
            else Err(BadRequest)
  {
    MarkedAt(p.history, kid, now, i);
  }

  lemma {:induction false} MarkedAt(history: seq<Key>, kid: nat, now: int, i: nat)
    requires i <= |history| && (forall j :: 0 <= j < i ==> history[j].kid != kid) &&
             (i < |history| ==> history[i].kid == kid)
    ensures FindKey(history, kid).Some? <==> i < |history|
    ensures i < |history| ==>
            RevokedInHistory(history, kid, now) == history[i := history[i].(revoked := true, until := now)]
  {
    if i > 0 {
      MarkedAt(history[1..], kid, now, i - 1);
      assert history == [history[0]] + history[1..];
    }
  }

  lemma CredentialIsAction(s: State, att: Credential, i: Intent)
    ensures CredentialChecks(s, att, i).Ok? ==> att.ActionCredential?
  {
  }

  lemma UsableIsStored(s: State, id: Id)
    ensures AssertPassportUsable(s, id, {}).Ok? ==> id in s.passports
  {
  }

  /** After the checks the debit cannot fail. */
  lemma CheckedIsReady(s: State, att: Credential, i: Intent, approval: Option<Credential>)
    requires ExecuteChecks(s, att, i, approval).Ok?
    ensures att.ActionCredential?
    ensures att.token.Some? ==> att.token.value in s.tokens && WithinBudget(s.tokens[att.token.value], i.amount)
  {
    hide AssertPassportUsable, AssertTokenUsable, ApprovalChecks, KeyFor, TokenCovers, WithinBudget;
  }
}
