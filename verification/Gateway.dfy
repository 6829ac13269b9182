/** The gateway as a step system: the authority-bearing handlers of src/server.js over the
    records of src/tokens.js, src/intent.js, src/nonce.js and src/audit.js, on the
    single-instance (file) store.

    Ideal cryptography: a signature is the pair of key and message it was made for, a hash is
    the intent it was taken of, and a credential opens exactly when the gateway sealed it.
    Every step reads the clock once. */
module Gateway {
  import opened Prelude
  import opened Doubles
  import opened Delegation
  import opened Replay
  import JsonStrings
  import Policy
  import Risk

  // ----- Records -----

  datatype Status = Draft | PendingApproval | Active | Suspended | Quarantined | Rotating | Expired | Revoked

  datatype Key = Key(kid: nat, pub: Id, revoked: bool, until: int)

  /** `server`: the gateway holds the private key. */
  datatype Passport = Passport(
    id: Id, org: Id, parent: Option<Id>, blueprint: Option<Id>, environment: string, server: bool, grace: nat,
    status: Status, exp: int, current: Key, history: seq<Key>)

  /** The public key a request offers; a bad one is no Ed25519 key. */
  datatype KeyField = NoKey | BadKey | Offered(pub: Id)

  /** Whether the gateway may hold private keys, and the public key of the pair it would draw. */
  datatype Keeper = Keeper(allowed: bool, made: Id)

  /** The body of a request for a passport; `grace` is in seconds. */
  datatype NewPassport = NewPassport(
    name: string, org: Id, subagent: bool, parent: Option<Id>, blueprint: Option<Id>, environment: string,
    server: bool, keeper: Keeper, key: KeyField, grace: int, exp: int)

  datatype Org = Org(locked: bool)

  datatype Blueprint = Blueprint(org: Id, revoked: bool)

  /** A canonical intent, its parameters as their canonical text. */
  datatype Intent = Intent(
    passport: Id, org: Id, action: string, resource: string, params: JsonStrings.Text, amount: nat,
    destination: string, tool: string, nonce: string, iat: int, exp: int, aud: string)

  datatype Signature = Signature(pub: Id, message: Intent)

  datatype Envelope = Envelope(payload: Payload, signer: Id)

  datatype Credential =
    | ActionCredential(
        jti: Id, kid: Option<nat>, org: Id, sub: Id, intent: Intent, action: string, resource: string,
        amount: nat, requiresApproval: bool, token: Option<Id>, aud: string, iat: int, exp: int)
    | ApprovalCredential(
        approvalId: Id, org: Id, sub: Id, intent: Intent, actionJti: Option<Id>, approvedBy: seq<Id>, exp: int,
          aud: string)

  datatype ApprovalStatus = ApPending | ApPartial | ApApproved | ApDenied | ApExpired

  datatype Approval = Approval(
    org: Id, passport: Id, token: Option<Id>, intent: Intent, kid: Option<nat>, status: ApprovalStatus,
    quorum: nat, approvers: seq<Id>, expiresAt: int, actionJti: Option<Id>)

  datatype Revocation =
    | PassportRevocation(id: Id)
    | TokenRevocation(id: Id)
    | ActionRevocation(jti: Id)
    | KeyRevocation(id: Id, kid: nat)
    | BlueprintRevocation(id: Id)
    | OrgRevocation(id: Id)

  datatype Decision = Allow | Deny | StepUp | DryRun | Approved | Denied | RevokedEntry | Executed

  /** The audit receipt, with the fields the decisions rest on. Administrative receipts
      carry no intent. */
  datatype Receipt = Receipt(
    decision: Decision, org: Id, actor: Id, intent: Option<Intent>, amount: nat, token: Option<Id>,
    actionJti: Option<Id>, approvalId: Option<Id>, at: int)

  /** Seconds, as in the environment variables. */
  datatype Config = Config(intentTtl: nat, actionTtl: nat, approvalTtl: nat, skew: nat)

  datatype State = State(
    now: int,
    orgs: map<Id, Org>,
    blueprints: map<Id, Blueprint>,
    passports: map<Id, Passport>,
    tokens: map<Id, Token>,
    revocations: set<Revocation>,
    approvals: map<Id, Approval>,
    used: map<string, int>,
    sealed: set<Credential>,
    log: seq<Receipt>)

  function Start(now: int): State {
    State(now, map[], map[], map[], map[], {}, map[], map[], {}, [])
  }

  // ----- Requests -----

  /** A request for authorisation, with the organisation's policies and risk thresholds, the time
      of day in minutes and what the recency cache says of the resource. */
  datatype AuthorizeRequest = AuthorizeRequest(
    intent: Intent, signature: Option<Signature>, kid: Option<nat>, serviceKey: bool, token: Option<Id>,
    dryRun: bool, policies: seq<Policy.Rule>, minute: nat, seen: bool, ceiling: int, stepup: int,
    freshJti: Id, freshApproval: Id)

  datatype Event =
    | Tick(ms: nat)
    | CreateOrg(org: Id)
    | SetLock(org: Id, locked: bool)
    | CreateBlueprint(id: Id, org: Id)
    | IssuePassport(id: Id, passport: NewPassport)
    | SetStatus(id: Id, status: Status)
    | RotateKey(id: Id, key: KeyField, keeper: Keeper)
    | Revoke(target: Revocation, kid: Id, org: Id)
    | Delegate(org: Id, delegator: Id, payload: Payload, envelope: Envelope, admin: bool)
    | Authorize(request: AuthorizeRequest)
    | Decide(id: Id, approver: Id, approve: bool, freshJti: Id)
    | Execute(credential: Credential, intent: Intent, approval: Option<Credential>)

  /** The random identifiers a step draws have not been drawn before. */
  ghost predicate Fresh(s: State, e: Event) {
    match e
    case CreateOrg(org) => org !in s.orgs
    case CreateBlueprint(id, _) => id !in s.blueprints
    case IssuePassport(id, _) => id !in s.passports
    case Authorize(r) => FreshJti(s, r.freshJti) && r.freshApproval !in s.approvals
    case Decide(_, _, _, jti) => FreshJti(s, jti)
    case _ => true
  }

  ghost predicate FreshJti(s: State, jti: Id) {
    jti != "" && forall c :: c in s.sealed && c.ActionCredential? ==> c.jti != jti
  }

  // ----- Usability of organisations, passports, keys and tokens -----

  function AssertOrgUsable(s: State, org: Id): Result<()> {
    if org !in s.orgs then Err(OrgUnknown) else if s.orgs[org].locked then Err(OrgLocked) else Ok(())
  }

  /** `assertPassportUsable`: the passport, then its parents, with the trail of visited ids. */
  function AssertPassportUsable(s: State, id: Id, trail: set<Id>): Result<()>
    decreases s.passports.Keys - trail
  {
    if id !in s.passports then Err(PassportUnknown) else
    var p := s.passports[id];
    :- Need(id !in trail, PassportInvalid);
    :- Need(!(p.org in s.orgs && s.orgs[p.org].locked), OrgLocked);
    :- Need(p.status != Revoked && PassportRevocation(id) !in s.revocations, PassportRevoked);
    :- Need(s.now <= p.exp && p.status != Expired, PassportExpired);
    :- Need(p.status != Suspended, PassportSuspended);
    :- Need(p.status != Quarantined, PassportQuarantined);
    :- Need(p.blueprint.Some? ==>
              && p.blueprint.value in s.blueprints && !s.blueprints[p.blueprint.value].revoked
              && BlueprintRevocation(p.blueprint.value) !in s.revocations, BlueprintRevoked);
    match p.parent
    case None => Ok(())
    case Some(q) =>
      :- Need(q in s.passports && s.passports[q].org == p.org, PassportParentInvalid);
      assert s.passports.Keys - (trail + {id}) < s.passports.Keys - trail by {
        assert id in s.passports.Keys - trail;
      }
      AssertPassportUsable(s, q, trail + {id})
  }

  function FindKey(history: seq<Key>, kid: nat): Option<Key> {
    if history == [] then None
    else if history[0].kid == kid then Some(history[0])
    else FindKey(history[1..], kid)
  }

  function KeyFor(p: Passport, kid: Option<nat>, now: int): Result<Key> {
    if p.current.revoked then Err(KeyRevoked)
    else if kid.None? || kid.value == p.current.kid then Ok(p.current)
    else
      match FindKey(p.history, kid.value)
      case None => Err(UnknownKid)
      case Some(h) =>
        :- Need(!h.revoked, KeyRevoked);
        :- Need(now <= h.until, KeyExpired);
        Ok(h)
  }

  /** `assertTokenUsable`: the token, its ancestors, then the subject of each. */
  function AssertTokenUsable(s: State, jti: Id, trail: set<Id>): Result<()>
    decreases s.tokens.Keys - trail
  {
    if jti !in s.tokens then Err(TokenUnknown) else
    var t := s.tokens[jti];
    :- Need(jti !in trail, TokenMalformed);
    :- Need(TokenRevocation(jti) !in s.revocations, TokenRevoked);
    :- Need(t.constraints.notAfter.Some? && t.constraints.notAfter.value != 0 ==> s.now <= t.constraints.notAfter.value,
            TokenExpired);
    match t.parent
    case None => AssertPassportUsable(s, t.sub, {})
    case Some(q) =>
      :- Need(q in s.tokens && s.tokens[q].org == t.org, TokenRevoked);
      :- Need(s.tokens[q].sub == t.issuer, TokenRevoked);
      assert s.tokens.Keys - (trail + {jti}) < s.tokens.Keys - trail by {
        assert jti in s.tokens.Keys - trail;
      }
      :- Succeeds(AssertTokenUsable(s, q, trail + {jti}));
      AssertPassportUsable(s, t.sub, {})
  }

  // ----- Receipts -----

  const ADMIN: Id := "admin"

  /** The receipt of an administrative request. */
  function Note(s: State, d: Decision, org: Id, actor: Id): seq<Receipt> {
    [Receipt(d, org, actor, None, 0, None, None, None, s.now)]
  }

  /** The receipt of a decision about an intent. */
  function Logged(s: State, d: Decision, i: Intent, token: Option<Id>, jti: Option<Id>, ap: Option<Id>): seq<Receipt> {
    [Receipt(d, i.org, i.passport, Some(i), i.amount, token, jti, ap, s.now)]
  }

  // ----- Administration -----

  const DEFAULT_GRACE_S: nat := 300

  /** `Math.max(0, Number(grace) || DEFAULT_GRACE_S)` */
  function GraceOf(seconds: int): nat {
    if seconds == 0 then DEFAULT_GRACE_S else if seconds < 0 then 0 else seconds
  }

  /** The key of a new passport: the one offered, or one the gateway draws and keeps. */
  function FirstKey(n: NewPassport): Result<Id> {
    if n.server && !n.keeper.allowed then Err(CustodyForbidden)
    else if n.key.BadKey? || (n.key.NoKey? && !n.server) then Err(BadRequest)
    else Ok(if n.server then n.keeper.made else n.key.pub)
  }

  function IssueChecks(s: State, id: Id, n: NewPassport): Result<Passport> {
    var _ :- AssertOrgUsable(s, n.org);
    :- Need(NotBlank(n.name) && Utf16Length(n.name) <= 256, BadRequest);
    var pub :- FirstKey(n);
    :- Need(n.parent.Some? ==> n.parent.value in s.passports && s.passports[n.parent.value].org == n.org, BadRequest);
    :- Succeeds(if n.parent.Some? then AssertPassportUsable(s, n.parent.value, {}) else Ok(()));
    :- Need(n.subagent ==> n.parent.Some?, BadRequest);
    :- Need(n.blueprint.Some? ==>
              && n.blueprint.value in s.blueprints && s.blueprints[n.blueprint.value].org == n.org
              && !s.blueprints[n.blueprint.value].revoked, BadRequest);
    :- Need(n.exp > s.now, BadRequest);
    var limit := if n.parent.Some? then s.passports[n.parent.value].exp else 0;
    Ok(Passport(id, n.org, n.parent, n.blueprint, n.environment, n.server, GraceOf(n.grace), Active,
                if limit > 0 && limit < n.exp then limit else n.exp, Key(1, pub, false, 0), []))
  }

  function IssueStep(s: State, id: Id, n: NewPassport): State {
    match IssueChecks(s, id, n)
    case Err(_) => s
    case Ok(p) => s.(passports := s.passports[id := p], log := s.log + Note(s, Allow, n.org, id))
  }

  function SetStatusStep(s: State, id: Id, status: Status): State {
    if id !in s.passports then s
    else
      s.(passports := s.passports[id := s.passports[id].(status := status)],
         revocations := s.revocations + (if status == Revoked then {PassportRevocation(id)} else {}),
         log := s.log + Note(s, Allow, s.passports[id].org, id))
  }

  /** `(Number(grace_period_s) || DEFAULT_GRACE_S) * 1000` */
  function GraceMs(p: Passport): nat { (if p.grace == 0 then DEFAULT_GRACE_S else p.grace) * 1000 }

  function Rotated(p: Passport, pub: Id, now: int): Passport {
    p.(current := Key(p.current.kid + 1, pub, false, 0),
       history := p.history + [Key(p.current.kid, p.current.pub, false, now + GraceMs(p))])
  }

  /** The next key: the one offered, or one drawn for a passport whose key the gateway holds. */
  function NextKey(p: Passport, key: KeyField, keeper: Keeper): Result<Id> {
    match key
    case Offered(pub) => Ok(pub)
    case BadKey => Err(BadRequest)
    case NoKey => if p.server && keeper.allowed then Ok(keeper.made) else Err(BadRequest)
  }

  function RotateChecks(s: State, id: Id, key: KeyField, keeper: Keeper): Result<Passport> {
    if id !in s.passports then Err(PassportUnknown) else
    :- Succeeds(AssertPassportUsable(s, id, {}));
    var pub :- NextKey(s.passports[id], key, keeper);
    Ok(Rotated(s.passports[id], pub, s.now))
  }

  function RotateStep(s: State, id: Id, key: KeyField, keeper: Keeper): State {
    match RotateChecks(s, id, key, keeper)
    case Err(_) => s
    case Ok(p) => s.(passports := s.passports[id := p], log := s.log + Note(s, Allow, p.org, id))
  }

  function RevokedInHistory(history: seq<Key>, kid: nat, now: int): seq<Key> {
    if history == [] then []
    else if history[0].kid == kid then [history[0].(revoked := true, until := now)] + history[1..]
    else [history[0]] + RevokedInHistory(history[1..], kid, now)
  }

  function WithKeyRevoked(p: Passport, kid: nat, now: int): Result<Passport> {
    if FindKey(p.history, kid).Some? then Ok(p.(history := RevokedInHistory(p.history, kid, now)))
    else if p.current.kid == kid then Ok(p.(current := p.current.(revoked := true)))
    else Err(BadRequest)
  }

  /** The organisation of what is revoked; None when there is no such thing. An action credential
      is not on record, so its organisation is the one the request names. */
  function RevocationOrg(s: State, r: Revocation, named: Id): Option<Id> {
    match r
    case PassportRevocation(id) => if id in s.passports then Some(s.passports[id].org) else None
    case TokenRevocation(id) => if id in s.tokens then Some(s.tokens[id].org) else None
    case ActionRevocation(_) => if named != "" then Some(named) else None
    case KeyRevocation(id, kid) =>
      if id in s.passports && WithKeyRevoked(s.passports[id], kid, s.now).Ok? then Some(s.passports[id].org) else None
    case BlueprintRevocation(id) => if id in s.blueprints then Some(s.blueprints[id].org) else None
    case OrgRevocation(id) => if id in s.orgs then Some(id) else None
  }

  /** The mark a revocation leaves on a passport record, besides the revocation itself. */
  function MarkedPassports(s: State, r: Revocation): map<Id, Passport> {
    match r
    case PassportRevocation(id) =>
      if id in s.passports then s.passports[id := s.passports[id].(status := Revoked)] else s.passports
    case KeyRevocation(id, kid) =>
      if id in s.passports && WithKeyRevoked(s.passports[id], kid, s.now).Ok? then
        s.passports[id := WithKeyRevoked(s.passports[id], kid, s.now).value]
      else s.passports
    case _ => s.passports
  }

  /** The id a revocation is recorded under: a key number in the request is joined to the id of
      whatever it names. */
  function Joined(id: Id, kid: Id): Id { if kid == "" then id else id + ":" + kid }

  function Recorded(r: Revocation, kid: Id): Revocation {
    match r
    case PassportRevocation(id) => PassportRevocation(Joined(id, kid))
    case TokenRevocation(id) => TokenRevocation(Joined(id, kid))
    case ActionRevocation(jti) => ActionRevocation(Joined(jti, kid))
    case BlueprintRevocation(id) => BlueprintRevocation(Joined(id, kid))
    case OrgRevocation(id) => OrgRevocation(Joined(id, kid))
    case KeyRevocation(_, _) => r
  }

  /** `POST /v1/revoke`, with the key number the request carries, if any. */
  function RevokeStep(s: State, r: Revocation, kid: Id, named: Id): State {
    match RevocationOrg(s, r, named)
    case None => s
    case Some(org) =>
      s.(passports := MarkedPassports(s, r),
         blueprints := if r.BlueprintRevocation? && r.id in s.blueprints
                       then s.blueprints[r.id := s.blueprints[r.id].(revoked := true)] else s.blueprints,
         orgs := if r.OrgRevocation? then s.orgs[r.id := Org(true)] else s.orgs,
         revocations := s.revocations + {Recorded(r, kid)},
         log := s.log + Note(s, RevokedEntry, org, ADMIN))
  }

  // ----- registerDelegation -----

  function DelegateChecks(s: State, org: Id, delegator: Id, payload: Payload, envelope: Envelope,
      admin: bool): Result<Token> {
    var _ :- AssertOrgUsable(s, org);
    :- Need(delegator in s.passports && s.passports[delegator].org == org, Forbidden);
    :- Succeeds(AssertPassportUsable(s, delegator, {}));
    var verified := envelope.payload;
    :- Need(verified == payload, TokenMalformed);
    :- Need(verified.v == 2 && verified.org == org && verified.sub != "" && verified.jti != "", BadRequest);
    var key :- KeyFor(s.passports[delegator], verified.kid, s.now);
    :- Need(envelope.signer == key.pub, SigInvalid);
    var subject := verified.sub;
    :- Need(subject in s.passports && s.passports[subject].org == org, BadRequest);
    :- Succeeds(AssertPassportUsable(s, subject, {}));
    match verified.parent
    case None =>
      :- Need(admin || subject == delegator, DelegationNotAuthorized);
      :- Need(verified.jti !in s.tokens, BadRequest);
      BuildToken(None, verified, delegator, s.now)
    case Some(pj) =>
      :- Need(pj in s.tokens && s.tokens[pj].org == org, Forbidden);
      var parent := s.tokens[pj];
      :- Need(parent.sub == delegator, DelegationNotAuthorized);
      :- Succeeds(AssertTokenUsable(s, pj, {}));
      :- Succeeds(CheckAttenuation(parent, verified));
      :- Need(verified.jti !in s.tokens, BadRequest);
      BuildToken(Some(parent), verified, delegator, s.now)
  }

  function DelegateStep(s: State, org: Id, delegator: Id, payload: Payload, envelope: Envelope, admin: bool): State {
    match DelegateChecks(s, org, delegator, payload, envelope, admin)
    case Err(_) => s
    case Ok(t) => s.(tokens := s.tokens[t.jti := t], log := s.log + Note(s, Allow, org, delegator))
  }

  // ----- Intents -----

  predicate NonceChar(c: char) {
    'A' <= c <= 'Z' || 'a' <= c <= 'z' || '0' <= c <= '9' || c in ":_-./"
  }

  function CheckIntentShape(cfg: Config, now: int, i: Intent): Result<()> {
    var lifetime := i.exp - i.iat;
    :- Need(i.amount <= MAX_SAFE, BadIntent);
    :- Need(|i.nonce| >= 16 && forall k :: 0 <= k < |i.nonce| ==> NonceChar(i.nonce[k]), BadIntent);
    :- Need(i.exp > now, IntentExpired);
    :- Need(lifetime <= cfg.intentTtl * 1000, BadIntent);
    :- Need(i.iat - now <= cfg.skew * 1000, BadIntent);
    :- Need(now - i.iat <= cfg.intentTtl * 1000, BadIntent);
    :- Need("agt_" <= i.passport && "org_" <= i.org, BadIntent);
    Ok(())
  }

  // ----- authorize -----

  const ACTION_SKEW_MS: int := 30 * 1000
  const APPROVAL_WINDOW_MS: int := 15 * 60 * 1000

  function MintAction(cfg: Config, now: int, jti: Id, i: Intent, kid: Option<nat>, token: Option<Id>,
                      requiresApproval: bool): Credential {
    ActionCredential(jti, kid, i.org, i.passport, i, i.action, i.resource, i.amount, requiresApproval, token, i.aud,
                     now, now + cfg.actionTtl * 1000)
  }

  /** The checks before anything is recorded. */
  function Authenticate(cfg: Config, s: State, r: AuthorizeRequest): Result<Passport> {
    var i := r.intent;
    :- Succeeds(CheckIntentShape(cfg, s.now, i));
    :- Succeeds(AssertOrgUsable(s, i.org));
    :- Need(i.passport in s.passports && s.passports[i.passport].org == i.org, PassportUnknown);
    var pass := s.passports[i.passport];
    match r.signature
    case Some(sig) =>
      var key :- KeyFor(pass, r.kid, s.now);
      :- Need(sig.pub == key.pub && sig.message == i, SigInvalid);
      Ok(pass)
    case None =>
      :- Need(r.serviceKey, Unauthorized);
      Ok(pass)
  }

  /** Refusals of the passport that are recorded; the others leave no receipt. */
  predicate RecordedRefusal(code: Code) {
    code in {PassportRevoked, PassportExpired, PassportSuspended, PassportQuarantined, OrgLocked}
  }

  /** The delegation token, when one is named. */
  function TokenChecks(s: State, i: Intent, token: Option<Id>): Result<()> {
    match token
    case None => Ok(())
    case Some(jti) =>
      :- Need(jti in s.tokens && s.tokens[jti].org == i.org, TokenUnknown);
      :- Succeeds(AssertTokenUsable(s, jti, {}));
      var t := s.tokens[jti];
      :- Need(t.sub == i.passport, TokenMismatch);
      :- Need(TokenCovers(t, i.action, i.resource, i.destination), ScopeInsufficient);
      :- Need(WithinBudget(t, i.amount), BudgetExceeded);
      Ok(())
  }

  /** The depth that policies and the risk score are told. */
  function DepthOf(s: State, token: Option<Id>): nat {
    if token.Some? && token.value in s.tokens then s.tokens[token.value].depth else 0
  }

  function QueryOf(s: State, r: AuthorizeRequest, pass: Passport): Policy.Query {
    var i := r.intent;
    Policy.Query(i.action, i.resource, i.amount, DepthOf(s, r.token),
                 pass.environment, pass.blueprint, i.passport, i.aud, i.tool,
                 r.minute)
  }

  function VerdictOf(s: State, r: AuthorizeRequest, pass: Passport): Policy.Verdict {
    Policy.Evaluate(r.policies, QueryOf(s, r, pass))
  }

  function RiskOf(s: State, r: AuthorizeRequest): nat {
    Risk.Score(r.intent.action, r.intent.amount, DepthOf(s, r.token), r.seen, r.minute / 60)
  }

  predicate StepsUp(s: State, r: AuthorizeRequest, pass: Passport) {
    VerdictOf(s, r, pass).effect == Policy.NeedsApproval || (RiskOf(s, r) >= r.stepup && RiskOf(s, r) < 70)
  }

  /** What a dry run says would have been decided. */
  function Simulated(s: State, r: AuthorizeRequest, pass: Passport): Decision {
    if VerdictOf(s, r, pass).effect == Policy.Denies || RiskOf(s, r) >= r.ceiling then Deny
    else if StepsUp(s, r, pass) then StepUp
    else if VerdictOf(s, r, pass).effect == Policy.Allows then Allow
    else Deny
  }

  function NewApproval(s: State, r: AuthorizeRequest, pass: Passport): Approval {
    var i := r.intent;
    var kid := pass.current.kid;
    Approval(i.org, i.passport, r.token, i, Some(if r.kid.Some? then r.kid.value else kid), ApPending,
             Policy.Quorum(r.policies, VerdictOf(s, r, pass).rule), [], s.now + APPROVAL_WINDOW_MS, None)
  }

  /** What the caller is told: an error, which leaves no trace, or a recorded decision. */
  function AuthorizeOutcome(cfg: Config, s: State, r: AuthorizeRequest): Result<Decision> {
    var pass :- Authenticate(cfg, s, r);
    var usable := AssertPassportUsable(s, r.intent.passport, {});
    :- Need(usable.Err? ==> RecordedRefusal(usable.code), if usable.Err? then usable.code else BadRequest);
    Ok(if usable.Err? || TokenChecks(s, r.intent, r.token).Err? then Deny
       else if r.dryRun then DryRun
       else if VerdictOf(s, r, pass).effect == Policy.Denies || RiskOf(s, r) >= r.ceiling then Deny
       else if StepsUp(s, r, pass) then StepUp
       else Allow)
  }

  function ActionFor(cfg: Config, s: State, r: AuthorizeRequest, kid: nat): Credential {
    MintAction(cfg, s.now, r.freshJti, r.intent, Some(if r.kid.Some? then r.kid.value else kid), r.token, false)
  }

  /** What a recorded decision writes. */
  function AuthorizeEffect(cfg: Config, s: State, r: AuthorizeRequest, d: Decision, pass: Passport): State {
    s.(approvals := if d == StepUp then s.approvals[r.freshApproval := NewApproval(s, r, pass)] else s.approvals,
       sealed := s.sealed + (if d == Allow then {ActionFor(cfg, s, r, pass.current.kid)} else {}),
       log := s.log + Logged(s, d, r.intent, r.token, if d == Allow then Some(r.freshJti) else None,
                             if d == StepUp then Some(r.freshApproval) else None))
  }

  function AuthorizeStep(cfg: Config, s: State, r: AuthorizeRequest): State {
    match AuthorizeOutcome(cfg, s, r)
    case Err(_) => s
    case Ok(d) => AuthorizeEffect(cfg, s, r, d, s.passports[r.intent.passport])
  }

  // ----- An approver's decision -----

  function MintApproval(cfg: Config, now: int, id: Id, ap: Approval, jti: Id): Credential {
    ApprovalCredential(id, ap.org, ap.passport, ap.intent, Some(jti), ap.approvers, now + cfg.approvalTtl * 1000,
      ap.intent.aud)
  }

  /** The status a decision leads to. */
  function DecideOutcome(s: State, id: Id, approver: Id, approve: bool): Result<ApprovalStatus> {
    if id !in s.approvals then Err(NotFound) else
    var ap := s.approvals[id];
    :- Need(ap.status == ApPending || ap.status == ApPartial, ApprovalResolved);
    :- Need(s.now <= ap.expiresAt, ApprovalExpired);
    :- Need(approver !in ap.approvers, ApprovalResolved);
    Ok(if !approve then ApDenied else if |ap.approvers| + 1 < ap.quorum then ApPartial else ApApproved)
  }

  /** The record afterwards; a late decision marks it expired although it reports an error. */
  function DecidedRecord(s: State, ap: Approval, outcome: Result<ApprovalStatus>, approver: Id, jti: Id): Approval {
    match outcome
    case Err(code) => if code == ApprovalExpired then ap.(status := ApExpired) else ap
    case Ok(status) =>
      ap.(status := status,
          approvers := if status == ApDenied then ap.approvers else ap.approvers + [approver],
          actionJti := if status == ApApproved then Some(jti) else ap.actionJti)
  }

  /** The two credentials minted when the quorum is reached. */
  function Minted(cfg: Config, s: State, id: Id, ap: Approval, jti: Id): set<Credential> {
    {MintAction(cfg, s.now, jti, ap.intent, ap.kid, ap.token, true), MintApproval(cfg, s.now, id, ap, jti)}
  }

  function DecisionEntry(status: ApprovalStatus): Decision {
    match status case ApApproved => Approved case ApDenied => Denied case _ => StepUp
  }

  function DecideStep(cfg: Config, s: State, id: Id, approver: Id, approve: bool, jti: Id): State {
    if id !in s.approvals then s
    else
      var outcome := DecideOutcome(s, id, approver, approve);
      var ap := DecidedRecord(s, s.approvals[id], outcome, approver, jti);
      s.(approvals := s.approvals[id := ap],
         sealed := s.sealed + (if outcome == Ok(ApApproved) then Minted(cfg, s, id, ap, jti) else {}),
         log := s.log + (if outcome.Ok? then Logged(s, DecisionEntry(outcome.value), ap.intent, None, None, Some(id))
           else []))
  }

  // ----- execute -----

  /** The approval credential that a deferred action asks for: its record's id when it fits. */
  function ApprovalChecks(s: State, att: Credential, i: Intent, approval: Option<Credential>): Result<Option<Id>>
    requires att.ActionCredential?
  {
    if !att.requiresApproval then Ok(None)
    else
      :- Need(approval.Some?, ApprovalRequired);
      var apc := approval.value;
      :- Need(apc in s.sealed, SigInvalid);
      :- Need(apc.ApprovalCredential?, ApprovalRequired);
      :- Need(apc.intent == i, IntentMismatch);
      :- Need(apc.aud == i.aud, TokenMismatch);
      :- Need(apc.actionJti.Some? ==> apc.actionJti.value == att.jti, IntentMismatch);
      :- Need(s.now <= apc.exp, ApprovalExpired);
      Ok(Some(apc.approvalId))
  }

  /** No field is missing, where an empty text and a zero count as missing. The audience always
      has a default. */
  predicate Complete(att: Credential)
    requires att.ActionCredential?
  {
    att.jti != "" && att.sub != "" && att.iat != 0 && att.exp != 0
  }

  /** The credential itself, in order. */
  function CredentialChecks(s: State, att: Credential, i: Intent): Result<()> {
    if att !in s.sealed then Err(SigInvalid) else
    :- Need(att.ActionCredential?, TokenMalformed);
    :- Need(Complete(att), TokenMalformed);
    :- Need(att.org == i.org && att.sub == i.passport, TokenMismatch);
    :- Need(att.aud == i.aud, TokenMismatch);
    :- Need(att.intent == i, IntentMismatch);
    :- Need(att.action == i.action && att.resource == i.resource && att.amount == i.amount, IntentMismatch);
    :- Need(s.now <= att.exp, TokenExpired);
    :- Need(s.now >= att.iat - ACTION_SKEW_MS, TokenMalformed);
    :- Need(ActionRevocation(att.jti) !in s.revocations, TokenRevoked);
    :- Need(att.token.Some? ==> TokenRevocation(att.token.value) !in s.revocations, TokenRevoked);
    Ok(())
  }

  /** Everything `execute` checks before it reserves, in order. */
  function ExecuteChecks(s: State, att: Credential, i: Intent, approval: Option<Credential>): Result<Option<Id>> {
    var _ :- AssertOrgUsable(s, i.org);
    :- Succeeds(CredentialChecks(s, att, i));
    var approvalId :- ApprovalChecks(s, att, i, approval);
    :- Succeeds(AssertPassportUsable(s, i.passport, {}));
    :- Succeeds(KeyFor(s.passports[i.passport], att.kid, s.now));
    match att.token
    case None => Ok(approvalId)
    case Some(jti) =>
      :- Need(jti in s.tokens && s.tokens[jti].org == i.org, TokenUnknown);
      :- Succeeds(AssertTokenUsable(s, jti, {}));
      :- Need(TokenCovers(s.tokens[jti], i.action, i.resource, i.destination), ScopeInsufficient);
      :- Need(WithinBudget(s.tokens[jti], i.amount), BudgetExceeded);
      Ok(approvalId)
  }

  /** How far an execution gets: malformed intents leave no trace, refused and replayed ones
      a deny receipt. */
  datatype Execution = Malformed(code: Code) | Refused(code: Code) | Replayed | Done(approvalId: Option<Id>)

  function AfterNonce(s: State, i: Intent): (map<string, int>, bool) {
    Consume(s.used, IntentKey(i.org, i.nonce), s.now, REPLAY_TTL_MS)
  }

  function AfterCredential(s: State, att: Credential, i: Intent): (map<string, int>, bool)
    requires att.ActionCredential?
  {
    Consume(AfterNonce(s, i).0, CredentialKey(att.jti), s.now, REPLAY_TTL_MS)
  }

  function ExecuteOutcome(cfg: Config, s: State, att: Credential, i: Intent, approval: Option<Credential>): Execution {
    match CheckIntentShape(cfg, s.now, i)
    case Err(code) => Malformed(code)
    case Ok(_) =>
      match ExecuteChecks(s, att, i, approval)
      case Err(code) => Refused(code)
      case Ok(approvalId) =>
        if AfterNonce(s, i).1 && AfterCredential(s, att, i).1 then Done(approvalId) else Replayed
  }

  /** The nonce is consumed first. A credential that then turns out to be used leaves it so. */
  function UsedAfter(s: State, att: Credential, i: Intent): map<string, int>
    requires att.ActionCredential?
  {
    if AfterNonce(s, i).1 then AfterCredential(s, att, i).0 else AfterNonce(s, i).0
  }

  function Debited(tokens: map<Id, Token>, token: Option<Id>, amount: nat): map<Id, Token> {
    if token.Some? && token.value in tokens then
      tokens[token.value := tokens[token.value].(spent := tokens[token.value].spent + amount)]
    else tokens
  }

  function ExecuteEntry(s: State, att: Credential, i: Intent, x: Execution): seq<Receipt>
    requires x.Done? ==> att.ActionCredential?
  {
    match x
    case Malformed(_) => []
    case Done(approvalId) => Logged(s, Executed, i, att.token, Some(att.jti), approvalId)
    case _ => Logged(s, Deny, i, None, None, None)
  }

  function ExecuteEffect(s: State, att: Credential, i: Intent, x: Execution): State
    requires x.Done? || x.Replayed? ==> att.ActionCredential?
  {
    s.(used := if x.Done? || x.Replayed? then UsedAfter(s, att, i) else s.used,
       tokens := if x.Done? then Debited(s.tokens, att.token, i.amount) else s.tokens,
       log := s.log + ExecuteEntry(s, att, i, x))
  }

  function ExecuteStep(cfg: Config, s: State, att: Credential, i: Intent, approval: Option<Credential>): State {
    ExecuteEffect(s, att, i, ExecuteOutcome(cfg, s, att, i, approval))
  }

  // ----- The step function and runs -----

  /** The administrative requests; the other four events are not among them. */
  function AdminStep(s: State, e: Event): State {
    match e
    case Tick(ms) => s.(now := s.now + ms)
    case CreateOrg(org) => s.(orgs := s.orgs[org := Org(false)], log := s.log + Note(s, Allow, org, org))
    case SetLock(org, locked) =>
      if org !in s.orgs then s else s.(orgs := s.orgs[org := Org(locked)], log := s.log + Note(s, Allow, org, org))
    case CreateBlueprint(id, org) =>
      if AssertOrgUsable(s, org).Err? then s
      else s.(blueprints := s.blueprints[id := Blueprint(org, false)], log := s.log + Note(s, Allow, org, org))
    case IssuePassport(id, n) => IssueStep(s, id, n)
    case SetStatus(id, status) => SetStatusStep(s, id, status)
    case RotateKey(id, key, keeper) => RotateStep(s, id, key, keeper)
    case Revoke(target, kid, org) => RevokeStep(s, target, kid, org)
    case _ => s
  }

  function Step(cfg: Config, s: State, e: Event): State {
    match e
    case Delegate(org, delegator, payload, envelope, admin) => DelegateStep(s, org, delegator, payload, envelope, admin)
    case Authorize(r) => AuthorizeStep(cfg, s, r)
    case Decide(id, approver, approve, jti) => DecideStep(cfg, s, id, approver, approve, jti)
    case Execute(att, i, approval) => ExecuteStep(cfg, s, att, i, approval)
    case _ => AdminStep(s, e)
  }

  ghost predicate StepAt(cfg: Config, states: seq<State>, events: seq<Event>, k: nat)
    requires k < |events| && |states| == |events| + 1
  {
    Fresh(states[k], events[k]) && states[k + 1] == Step(cfg, states[k], events[k])
  }

  /** A run: the states it passes through, one step apart, from an empty store. */
  ghost predicate Run(cfg: Config, states: seq<State>, events: seq<Event>) {
    && |states| == |events| + 1
    && states[0] == Start(states[0].now) && states[0].now > 0
    && forall k :: 0 <= k < |events| ==> StepAt(cfg, states, events, k)
  }
}
