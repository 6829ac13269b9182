/** Where credentials come from: approvals, the credentials sealed for them, and the receipts
    that record both. */
module GatewayGrants {
  import opened Prelude
  import opened Delegation
  import opened Gateway
  import opened GatewayInvariants

  // ----- Approvals -----

  ghost predicate Distinct(ids: seq<Id>) {
    forall i, j :: 0 <= i < j < |ids| ==> ids[i] != ids[j]
  }

  predicate Terminal(status: ApprovalStatus) {
    status == ApApproved || status == ApDenied || status == ApExpired
  }

  /** The status says how the recorded approvers stand to the quorum. */
  ghost predicate ApprovalOk(ap: Approval) {
    && ap.quorum >= 1 && Distinct(ap.approvers)
    && (match ap.status
        case ApPending => |ap.approvers| == 0
        case ApPartial => 0 < |ap.approvers| < ap.quorum
        case ApApproved => |ap.approvers| == ap.quorum
        case ApDenied => |ap.approvers| < ap.quorum
        case ApExpired => |ap.approvers| < ap.quorum)
    && (ap.actionJti.Some? <==> ap.status == ApApproved)
    && ap.org == ap.intent.org && ap.passport == ap.intent.passport
  }

  ghost predicate ApprovalsOk(aps: map<Id, Approval>) {
    forall id :: id in aps ==> ApprovalOk(aps[id])
  }

  /** One step of one record: the request it is for never changes, approvers are only added,
      a resolved record is frozen, and approval happens exactly when the count reaches the
      quorum. */
  ghost predicate ApprovalStep(a: Approval, b: Approval) {
    && b.intent == a.intent && b.token == a.token && b.quorum == a.quorum && b.expiresAt == a.expiresAt
    && b.org == a.org && b.passport == a.passport && b.kid == a.kid
    && a.approvers <= b.approvers && |b.approvers| <= |a.approvers| + 1
    && (Terminal(a.status) ==> b == a)
    && (b.status == ApPending ==> a.status == ApPending)
    && (b.status == ApApproved <==> a.status == ApApproved || |a.approvers| < |b.approvers| == a.quorum)
  }

  ghost predicate ApprovalsStep(a: map<Id, Approval>, b: map<Id, Approval>) {
    forall id :: id in a ==> id in b && ApprovalStep(a[id], b[id])
  }

  lemma DecideRecord(s: State, id: Id, approver: Id, approve: bool, jti: Id)
    requires id in s.approvals && ApprovalOk(s.approvals[id])
    ensures var ap' := DecidedRecord(s, s.approvals[id], DecideOutcome(s, id, approver, approve), approver, jti);
            ApprovalOk(ap') && ApprovalStep(s.approvals[id], ap')
  {
  }

  lemma DecideKeepsApprovals(cfg: Config, s: State, id: Id, approver: Id, approve: bool, jti: Id)
    requires ApprovalsOk(s.approvals)
    ensures var aps := DecideStep(cfg, s, id, approver, approve, jti).approvals;
            ApprovalsOk(aps) && ApprovalsStep(s.approvals, aps)
  {
    if id in s.approvals { DecideRecord(s, id, approver, approve, jti); }
  }

  lemma NewApprovalKeeps(cfg: Config, s: State, r: AuthorizeRequest, d: Decision, pass: Passport)
    requires ApprovalsOk(s.approvals) && r.freshApproval !in s.approvals
    ensures var aps := AuthorizeEffect(cfg, s, r, d, pass).approvals;
            ApprovalsOk(aps) && ApprovalsStep(s.approvals, aps)
  {
  }

  lemma AuthorizeKeepsApprovals(cfg: Config, s: State, r: AuthorizeRequest)
    requires ApprovalsOk(s.approvals) && r.freshApproval !in s.approvals
    ensures var aps := AuthorizeStep(cfg, s, r).approvals; ApprovalsOk(aps) && ApprovalsStep(s.approvals, aps)
  {
    var outcome := AuthorizeOutcome(cfg, s, r);
    if outcome.Ok? {
      NewApprovalKeeps(cfg, s, r, outcome.value, s.passports[r.intent.passport]);
    }
  }

  lemma StepKeepsApprovals(cfg: Config, s: State, e: Event)
    requires Fresh(s, e) && ApprovalsOk(s.approvals)
    ensures ApprovalsOk(Step(cfg, s, e).approvals) && ApprovalsStep(s.approvals, Step(cfg, s, e).approvals)
  {
    hide DecideStep, AuthorizeStep, DelegateStep, ExecuteStep, AdminStep, ApprovalsOk, ApprovalsStep;
    match e
    case Decide(id, approver, approve, jti) => DecideKeepsApprovals(cfg, s, id, approver, approve, jti);
    case Authorize(r) => AuthorizeKeepsApprovals(cfg, s, r);
    case _ =>
      StepFrame(cfg, s, e);
      SameApprovals(s.approvals);
  }

  lemma SameApprovals(aps: map<Id, Approval>)
    ensures ApprovalsStep(aps, aps)
  {
  }

  // ----- Grants -----

  /** An allow receipt that minted the credential. */
  ghost predicate ByPolicy(log: seq<Receipt>, i: Intent, jti: Id, token: Option<Id>) {
    exists m :: 0 <= m < |log| &&
      log[m].decision == Allow && log[m].intent == Some(i) && log[m].actionJti == Some(jti) && log[m].token == token
  }

  /** An approval that reached its quorum for this intent and minted the credential, with the
      receipt of that. */
  ghost predicate ByApproval(log: seq<Receipt>, aps: map<Id, Approval>, id: Id, i: Intent, jti: Id, token: Option<Id>) {
    && id in aps && aps[id].status == ApApproved && aps[id].intent == i
    && aps[id].actionJti == Some(jti) && aps[id].token == token
    && exists m :: 0 <= m < |log| && log[m].decision == Approved && log[m].approvalId == Some(id)
  }

  lemma GrantsLast(log: seq<Receipt>, log': seq<Receipt>, aps: map<Id, Approval>, aps': map<Id, Approval>,
                   i: Intent, jti: Id, token: Option<Id>)
    requires log <= log' && ApprovalsStep(aps, aps')
    ensures ByPolicy(log, i, jti, token) ==> ByPolicy(log', i, jti, token)
    ensures forall id :: ByApproval(log, aps, id, i, jti, token) ==> ByApproval(log', aps', id, i, jti, token)
  {
    if ByPolicy(log, i, jti, token) {
      var m :| 0 <= m < |log| && log[m].decision == Allow && log[m].intent == Some(i)
               && log[m].actionJti == Some(jti) && log[m].token == token;
      assert log'[m] == log[m];
    }
    forall id | ByApproval(log, aps, id, i, jti, token) ensures ByApproval(log', aps', id, i, jti, token) {
      var m :| 0 <= m < |log| && log[m].decision == Approved && log[m].approvalId == Some(id);
      assert log'[m] == log[m];
    }
  }

  // ----- Sealed credentials -----

  /** An action credential says what its intent says, and was granted. */
  ghost predicate ActionOk(c: Credential, aps: map<Id, Approval>, log: seq<Receipt>)
    requires c.ActionCredential?
  {
    && c.org == c.intent.org && c.sub == c.intent.passport && c.aud == c.intent.aud
    && c.action == c.intent.action && c.resource == c.intent.resource && c.amount == c.intent.amount
    && if c.requiresApproval then exists id :: ByApproval(log, aps, id, c.intent, c.jti, c.token)
       else ByPolicy(log, c.intent, c.jti, c.token)
  }

  /** An approval credential is for an approved record, its approvers and its one action. */
  ghost predicate ApprovalCredentialOk(c: Credential, aps: map<Id, Approval>)
    requires c.ApprovalCredential?
  {
    && c.approvalId in aps
    && var ap := aps[c.approvalId];
       && ap.status == ApApproved && c.intent == ap.intent && c.aud == ap.intent.aud
       && c.actionJti.Some? && c.actionJti == ap.actionJti && c.approvedBy == ap.approvers
  }

  ghost predicate CredentialOk(c: Credential, aps: map<Id, Approval>, log: seq<Receipt>) {
    if c.ActionCredential? then ActionOk(c, aps, log) else ApprovalCredentialOk(c, aps)
  }

  ghost predicate UniqueJtis(sealed: set<Credential>) {
    forall c, d :: c in sealed && d in sealed && c.ActionCredential? && d.ActionCredential? && c.jti == d.jti ==> c == d
  }

  /** The action an approval minted is among the sealed credentials. */
  ghost predicate MintedOnce(sealed: set<Credential>, aps: map<Id, Approval>) {
    forall id :: id in aps && aps[id].actionJti.Some? ==>
      exists c :: c in sealed && c.ActionCredential? && c.requiresApproval && c.jti == aps[id].actionJti.value
                  && c.intent == aps[id].intent
  }

  /** Two approvals never share an action credential. */
  ghost predicate OwnAction(aps: map<Id, Approval>) {
    forall x, y :: x in aps && y in aps && aps[x].actionJti.Some? && aps[x].actionJti == aps[y].actionJti ==> x == y
  }

  ghost predicate GrantsOk(aps: map<Id, Approval>, sealed: set<Credential>, log: seq<Receipt>) {
    && ApprovalsOk(aps)
    && (forall c :: c in sealed ==> CredentialOk(c, aps, log))
    && UniqueJtis(sealed) && MintedOnce(sealed, aps) && OwnAction(aps)
  }

  lemma CredentialsLast(sealed: set<Credential>, aps: map<Id, Approval>, aps': map<Id, Approval>,
                        log: seq<Receipt>, log': seq<Receipt>)
    requires log <= log' && ApprovalsStep(aps, aps')
    requires forall c :: c in sealed ==> CredentialOk(c, aps, log)
    ensures forall c :: c in sealed ==> CredentialOk(c, aps', log')
  {
    forall c | c in sealed ensures CredentialOk(c, aps', log') {
      if c.ActionCredential? { GrantsLast(log, log', aps, aps', c.intent, c.jti, c.token); }
    }
  }

  // ----- The three ways the pieces change together -----

  /** Nothing is sealed. */
  lemma NothingSealed(aps: map<Id, Approval>, aps': map<Id, Approval>, sealed: set<Credential>,
                      log: seq<Receipt>, log': seq<Receipt>)
    requires GrantsOk(aps, sealed, log) && log <= log' && ApprovalsStep(aps, aps') && ApprovalsOk(aps')
    requires forall id :: id in aps' ==> aps'[id].actionJti == if id in aps then aps[id].actionJti else None
    ensures GrantsOk(aps', sealed, log')
  {
    hide CredentialOk, ApprovalOk;
    CredentialsLast(sealed, aps, aps', log, log');
    MintedLast(sealed, aps, aps');
    hide ApprovalStep, MintedOnce;
  }

  lemma MintedLast(sealed: set<Credential>, aps: map<Id, Approval>, aps': map<Id, Approval>)
    requires MintedOnce(sealed, aps) && ApprovalsStep(aps, aps')
    requires forall id :: id in aps' ==> aps'[id].actionJti == if id in aps then aps[id].actionJti else None
    ensures MintedOnce(sealed, aps')
  {
    forall id | id in aps' && aps'[id].actionJti.Some?
      ensures exists c :: c in sealed && c.ActionCredential? && c.requiresApproval && c.jti == aps'[id].actionJti.value
                          && c.intent == aps'[id].intent
    {
      assert id in aps && ApprovalStep(aps[id], aps'[id]);
    }
  }

  /** A credential is sealed together with its allow receipt. */
  lemma SealedByPolicy(aps: map<Id, Approval>, sealed: set<Credential>, log: seq<Receipt>, log': seq<Receipt>,
      c: Credential)
    requires GrantsOk(aps, sealed, log) && log <= log'
    requires c.ActionCredential? && !c.requiresApproval && ActionOk(c, aps, log')
    requires forall d :: d in sealed && d.ActionCredential? ==> d.jti != c.jti
    ensures GrantsOk(aps, sealed + {c}, log')
  {
    assert ApprovalsStep(aps, aps);
    CredentialsLast(sealed, aps, aps, log, log');
    assert MintedOnce(sealed + {c}, aps);
  }

  lemma CompletedOwnsAction(aps: map<Id, Approval>, aps': map<Id, Approval>, sealed: set<Credential>, id: Id,
      c: Credential)
    requires MintedOnce(sealed, aps) && OwnAction(aps)
    requires id in aps && id in aps' && aps' == aps[id := aps'[id]]
    requires c.ActionCredential? && c.requiresApproval
    requires aps'[id].actionJti == Some(c.jti) && aps'[id].intent == c.intent
    requires forall x :: x in sealed && x.ActionCredential? ==> x.jti != c.jti
    ensures MintedOnce(sealed + {c}, aps') && OwnAction(aps')
  {
    forall x | x in aps' && aps'[x].actionJti.Some?
      ensures exists e :: e in sealed + {c} && e.ActionCredential? && e.requiresApproval
                          && e.jti == aps'[x].actionJti.value && e.intent == aps'[x].intent
      ensures x != id ==> aps'[x].actionJti != Some(c.jti)
    {
      if x == id { assert c in sealed + {c}; }
    }
  }

  /** An approval is completed, and its two credentials are sealed with the receipt of it. */
  lemma SealedByApproval(aps: map<Id, Approval>, aps': map<Id, Approval>, sealed: set<Credential>,
                         log: seq<Receipt>, log': seq<Receipt>, id: Id, c: Credential, d: Credential)
    requires GrantsOk(aps, sealed, log) && log <= log' && ApprovalsStep(aps, aps') && ApprovalsOk(aps')
    requires id in aps && id in aps' && aps' == aps[id := aps'[id]]
    requires c.ActionCredential? && c.requiresApproval && ActionOk(c, aps', log')
    requires aps'[id].actionJti == Some(c.jti) && aps'[id].intent == c.intent
    requires d.ApprovalCredential? && ApprovalCredentialOk(d, aps')
    requires forall x :: x in sealed && x.ActionCredential? ==> x.jti != c.jti
    ensures GrantsOk(aps', sealed + {c, d}, log')
  {
    hide ApprovalsOk, ApprovalsStep, ActionOk, ApprovalCredentialOk;
    CredentialsLast(sealed, aps, aps', log, log');
    CompletedOwnsAction(aps, aps', sealed, id, c);
    assert MintedOnce(sealed + {c, d}, aps') by { assert sealed + {c} <= sealed + {c, d}; }
  }

  // ----- The steps -----

  lemma AuthorizeEffectKeepsGrants(cfg: Config, s: State, r: AuthorizeRequest, d: Decision, pass: Passport)
    requires FreshJti(s, r.freshJti) && r.freshApproval !in s.approvals && GrantsOk(s.approvals, s.sealed, s.log)
    ensures var s' := AuthorizeEffect(cfg, s, r, d, pass); GrantsOk(s'.approvals, s'.sealed, s'.log)
  {
    var s' := AuthorizeEffect(cfg, s, r, d, pass);
    GrantsHaveApprovals(s.approvals, s.sealed, s.log);
    NewApprovalKeeps(cfg, s, r, d, pass);
    hide VerdictOf, GrantsOk, ApprovalsOk, ApprovalsStep;
    if d == Allow {
      assert s'.log[|s.log|].decision == Allow;
      SealedByPolicy(s.approvals, s.sealed, s.log, s'.log, ActionFor(cfg, s, r, pass.current.kid));
    } else {
      NothingSealed(s.approvals, s'.approvals, s.sealed, s.log, s'.log);
      assert s'.sealed == s.sealed;
    }
  }

  lemma AuthorizeKeepsGrants(cfg: Config, s: State, r: AuthorizeRequest)
    requires FreshJti(s, r.freshJti) && r.freshApproval !in s.approvals && GrantsOk(s.approvals, s.sealed, s.log)
    ensures var s' := AuthorizeStep(cfg, s, r); GrantsOk(s'.approvals, s'.sealed, s'.log)
  {
    var outcome := AuthorizeOutcome(cfg, s, r);
    if outcome.Ok? {
      AuthorizeEffectKeepsGrants(cfg, s, r, outcome.value, s.passports[r.intent.passport]);
    }
  }

  lemma DecideKeepsGrants(cfg: Config, s: State, id: Id, approver: Id, approve: bool, jti: Id)
    requires FreshJti(s, jti) && GrantsOk(s.approvals, s.sealed, s.log)
    ensures var s' := DecideStep(cfg, s, id, approver, approve, jti); GrantsOk(s'.approvals, s'.sealed, s'.log)
  {
    hide GrantsOk, ApprovalsOk, ApprovalsStep, DecideOutcome;
    if id in s.approvals {
      GrantsHaveApprovals(s.approvals, s.sealed, s.log);
      DecideKeepsApprovals(cfg, s, id, approver, approve, jti);
      if DecideOutcome(s, id, approver, approve) == Ok(ApApproved) {
        ApprovedKeepsGrants(cfg, s, id, approver, approve, jti);
      } else {
        var s' := DecideStep(cfg, s, id, approver, approve, jti);
        NothingSealed(s.approvals, s'.approvals, s.sealed, s.log, s'.log);
        assert s'.sealed == s.sealed;
      }
    }
  }

  lemma GrantsHaveApprovals(aps: map<Id, Approval>, sealed: set<Credential>, log: seq<Receipt>)
    requires GrantsOk(aps, sealed, log)
    ensures ApprovalsOk(aps)
  {
  }

  lemma ApprovedKeepsGrants(cfg: Config, s: State, id: Id, approver: Id, approve: bool, jti: Id)
    requires FreshJti(s, jti) && GrantsOk(s.approvals, s.sealed, s.log)
    requires id in s.approvals && DecideOutcome(s, id, approver, approve) == Ok(ApApproved)
    requires var aps := DecideStep(cfg, s, id, approver, approve, jti).approvals;
             ApprovalsOk(aps) && ApprovalsStep(s.approvals, aps)
    ensures var s' := DecideStep(cfg, s, id, approver, approve, jti); GrantsOk(s'.approvals, s'.sealed, s'.log)
  {
    hide GrantsOk, ApprovalsOk, ApprovalsStep, DecideOutcome;
    var s' := DecideStep(cfg, s, id, approver, approve, jti);
    var ap' := s'.approvals[id];
    var c, d := MintAction(cfg, s.now, jti, ap'.intent, ap'.kid, ap'.token, true),
      MintApproval(cfg, s.now, id, ap', jti);
    assert s'.log[|s.log|].decision == Approved && s'.log[|s.log|].approvalId == Some(id);
    assert ByApproval(s'.log, s'.approvals, id, ap'.intent, jti, ap'.token);
    SealedByApproval(s.approvals, s'.approvals, s.sealed, s.log, s'.log, id, c, d);
    assert s'.sealed == s.sealed + {c, d};
  }

  lemma StepKeepsGrants(cfg: Config, s: State, e: Event)
    requires Fresh(s, e) && GrantsOk(s.approvals, s.sealed, s.log)
    ensures var s' := Step(cfg, s, e); GrantsOk(s'.approvals, s'.sealed, s'.log)
  {
    hide AuthorizeStep, DecideStep, DelegateStep, ExecuteStep, AdminStep, GrantsOk, ApprovalsOk, ApprovalsStep;
    GrantsHaveApprovals(s.approvals, s.sealed, s.log);
    match e
    case Authorize(r) => AuthorizeKeepsGrants(cfg, s, r);
    case Decide(id, approver, approve, jti) => DecideKeepsGrants(cfg, s, id, approver, approve, jti);
    case _ =>
      StepFrame(cfg, s, e);
      StepAppends(cfg, s, e);
      SameApprovals(s.approvals);
      NothingSealed(s.approvals, s.approvals, s.sealed, s.log, Step(cfg, s, e).log);
  }
}
