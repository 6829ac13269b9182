/** Every execution is timely: inside its intent's window, within the lifetimes of the
    credentials it uses, and approved within a quarter of an hour of the request. */
module GatewayDeadlines {
  import opened Prelude
  import opened Delegation
  import opened Gateway
  import opened GatewayInvariants
  import opened GatewayGrants
  import opened GatewayTheorems

  // ----- Receipts that set a deadline -----

  ghost predicate AllowedAt(log: seq<Receipt>, g: int, jti: Id) {
    0 <= g < |log| && log[g].decision == Allow && log[g].actionJti == Some(jti)
  }

  ghost predicate ApprovedAt(log: seq<Receipt>, g: int, id: Id) {
    0 <= g < |log| && log[g].decision == Approved && log[g].approvalId == Some(id)
  }

  ghost predicate RequestedAt(log: seq<Receipt>, m: int, id: Id) {
    0 <= m < |log| && log[m].decision == StepUp && log[m].approvalId == Some(id)
  }

  /** The step-up that created the record; partial decisions leave the same kind of receipt. */
  ghost predicate FirstRequestAt(log: seq<Receipt>, m: int, id: Id) {
    RequestedAt(log, m, id) && forall x :: 0 <= x < m ==> !RequestedAt(log, x, id)
  }

  ghost predicate RequestsKnown(log: seq<Receipt>, aps: map<Id, Approval>) {
    forall m, id :: RequestedAt(log, m, id) ==> id in aps
  }

  /** An approval record expires a quarter of an hour after its step-up receipt. */
  ghost predicate RecordTimed(log: seq<Receipt>, ap: Approval, id: Id) {
    exists m :: FirstRequestAt(log, m, id) && ap.expiresAt == log[m].at + APPROVAL_WINDOW_MS
  }

  /** An action credential expires its lifetime after the receipt of its grant, which came
      before the record expired. */
  ghost predicate ActionTimed(cfg: Config, aps: map<Id, Approval>, log: seq<Receipt>, c: Credential)
    requires c.ActionCredential?
  {
    if c.requiresApproval then
      forall id :: id in aps && aps[id].actionJti == Some(c.jti) ==>
        exists g :: ApprovedAt(log, g, id) && log[g].at <= aps[id].expiresAt &&
          c.exp == log[g].at + cfg.actionTtl * 1000
    else
      exists g :: AllowedAt(log, g, c.jti) && c.exp == log[g].at + cfg.actionTtl * 1000
  }

  ghost predicate ApprovalTimed(cfg: Config, log: seq<Receipt>, c: Credential)
    requires c.ApprovalCredential?
  {
    exists g :: ApprovedAt(log, g, c.approvalId) && c.exp == log[g].at + cfg.approvalTtl * 1000
  }

  ghost predicate CredentialTimed(cfg: Config, aps: map<Id, Approval>, log: seq<Receipt>, c: Credential) {
    if c.ActionCredential? then ActionTimed(cfg, aps, log, c) else ApprovalTimed(cfg, log, c)
  }

  ghost predicate Timed(cfg: Config, aps: map<Id, Approval>, sealed: set<Credential>, log: seq<Receipt>) {
    && (forall id :: id in aps ==> RecordTimed(log, aps[id], id))
    && (forall c :: c in sealed ==> CredentialTimed(cfg, aps, log, c))
    && RequestsKnown(log, aps)
  }

  // ----- They only grow -----

  lemma RecordLasts(log: seq<Receipt>, log': seq<Receipt>, a: Approval, b: Approval, id: Id)
    requires RecordTimed(log, a, id) && log <= log' && b.expiresAt == a.expiresAt
    ensures RecordTimed(log', b, id)
  {
    var m :| FirstRequestAt(log, m, id) && a.expiresAt == log[m].at + APPROVAL_WINDOW_MS;
    assert forall x :: 0 <= x < m && RequestedAt(log', x, id) ==> RequestedAt(log, x, id);
    assert FirstRequestAt(log', m, id);
  }

  /** A new completion of another record does not touch this credential's. */
  lemma CredentialLasts(cfg: Config, aps: map<Id, Approval>, aps': map<Id, Approval>, log: seq<Receipt>,
      log': seq<Receipt>, c: Credential)
    requires CredentialTimed(cfg, aps, log, c) && log <= log'
    requires forall id :: id in aps ==> id in aps' && aps'[id].expiresAt == aps[id].expiresAt
    requires c.ActionCredential? ==>
               forall id :: id in aps' && aps'[id].actionJti == Some(c.jti) ==>
                 id in aps && aps[id].actionJti == Some(c.jti)
    ensures CredentialTimed(cfg, aps', log', c)
  {
    if c.ApprovalCredential? {
      var g :| ApprovedAt(log, g, c.approvalId) && c.exp == log[g].at + cfg.approvalTtl * 1000;
      assert ApprovedAt(log', g, c.approvalId);
    } else if !c.requiresApproval {
      var g :| AllowedAt(log, g, c.jti) && c.exp == log[g].at + cfg.actionTtl * 1000;
      assert AllowedAt(log', g, c.jti);
    } else {
      forall id | id in aps' && aps'[id].actionJti == Some(c.jti)
        ensures exists g :: ApprovedAt(log', g, id) && log'[g].at <= aps'[id].expiresAt &&
                            c.exp == log'[g].at + cfg.actionTtl * 1000
      {
        var g :| ApprovedAt(log, g, id) && log[g].at <= aps[id].expiresAt && c.exp == log[g].at + cfg.actionTtl * 1000;
        assert ApprovedAt(log', g, id);
      }
    }
  }

  lemma RequestsLast(log: seq<Receipt>, log': seq<Receipt>, aps: map<Id, Approval>, aps': map<Id, Approval>)
    requires RequestsKnown(log, aps) && log <= log' && |log'| <= |log| + 1 && aps.Keys <= aps'.Keys
    requires |log'| > |log| && log'[|log|].decision == StepUp && log'[|log|].approvalId.Some? ==>
             log'[|log|].approvalId.value in aps'
    ensures RequestsKnown(log', aps')
  {
    forall m, id | RequestedAt(log', m, id) ensures id in aps' {
      if m < |log| { assert RequestedAt(log, m, id); }
    }
  }

  /** Nothing sealed, no record added: the deadlines stand. */
  lemma NothingNew(cfg: Config, s: State, s': State)
    requires Timed(cfg, s.approvals, s.sealed, s.log) && s.log <= s'.log && s'.sealed == s.sealed
    requires s'.approvals.Keys == s.approvals.Keys && |s'.log| <= |s.log| + 1
    requires |s'.log| > |s.log| && s'.log[|s.log|].decision == StepUp && s'.log[|s.log|].approvalId.Some? ==>
               s'.log[|s.log|].approvalId.value in s.approvals
    requires forall id :: id in s.approvals ==>
               s'.approvals[id].expiresAt == s.approvals[id].expiresAt &&
                 s'.approvals[id].actionJti == s.approvals[id].actionJti
    ensures Timed(cfg, s'.approvals, s'.sealed, s'.log)
  {
    RequestsLast(s.log, s'.log, s.approvals, s'.approvals);
    forall id | id in s'.approvals ensures RecordTimed(s'.log, s'.approvals[id], id) {
      RecordLasts(s.log, s'.log, s.approvals[id], s'.approvals[id], id);
    }
    forall c | c in s'.sealed ensures CredentialTimed(cfg, s'.approvals, s'.log, c) {
      CredentialLasts(cfg, s.approvals, s'.approvals, s.log, s'.log, c);
    }
  }

  // ----- The steps -----

  lemma AuthorizeKeepsTimes(cfg: Config, s: State, r: AuthorizeRequest, d: Decision, pass: Passport)
    requires Timed(cfg, s.approvals, s.sealed, s.log) && r.freshApproval !in s.approvals
    ensures var s' := AuthorizeEffect(cfg, s, r, d, pass); Timed(cfg, s'.approvals, s'.sealed, s'.log)
  {
    hide RecordTimed, CredentialTimed;
    var s' := AuthorizeEffect(cfg, s, r, d, pass);
    var n := |s.log|;
    RequestsLast(s.log, s'.log, s.approvals, s'.approvals);
    forall id | id in s'.approvals ensures RecordTimed(s'.log, s'.approvals[id], id) {
      if id in s.approvals {
        RecordLasts(s.log, s'.log, s.approvals[id], s'.approvals[id], id);
      } else {
        assert RequestedAt(s'.log, n, id);
        NewRecord(s.log, s'.log, s.approvals, s'.approvals[id], id);
      }
    }
    forall c | c in s'.sealed ensures CredentialTimed(cfg, s'.approvals, s'.log, c) {
      if c in s.sealed {
        CredentialLasts(cfg, s.approvals, s'.approvals, s.log, s'.log, c);
      } else {
        assert AllowedAt(s'.log, n, c.jti);
        NewAction(cfg, s'.approvals, s'.log, n, c);
      }
    }
  }

  lemma NewRecord(log: seq<Receipt>, log': seq<Receipt>, aps: map<Id, Approval>, ap: Approval, id: Id)
    requires RequestsKnown(log, aps) && id !in aps && log <= log'
    requires RequestedAt(log', |log|, id) && ap.expiresAt == log'[|log|].at + APPROVAL_WINDOW_MS
    ensures RecordTimed(log', ap, id)
  {
    assert forall x :: 0 <= x < |log| && RequestedAt(log', x, id) ==> RequestedAt(log, x, id);
    assert FirstRequestAt(log', |log|, id);
  }

  lemma NewAction(cfg: Config, aps: map<Id, Approval>, log: seq<Receipt>, g: int, c: Credential)
    requires c.ActionCredential? && !c.requiresApproval && AllowedAt(log, g, c.jti) &&
             c.exp == log[g].at + cfg.actionTtl * 1000
    ensures CredentialTimed(cfg, aps, log, c)
  {
  }

  /** The quorum is reached in time, and both credentials date from that receipt. */
  lemma CompletionKeepsTimes(cfg: Config, s: State, id: Id, approver: Id, approve: bool, jti: Id)
    requires Timed(cfg, s.approvals, s.sealed, s.log) && ApprovalsOk(s.approvals) && FreshJti(s, jti)
    requires MintedOnce(s.sealed, s.approvals)
    requires id in s.approvals && DecideOutcome(s, id, approver, approve) == Ok(ApApproved)
    ensures var s' := DecideStep(cfg, s, id, approver, approve, jti); Timed(cfg, s'.approvals, s'.sealed, s'.log)
  {
    DecidedInTime(s, id, approver, approve);
    Completion(cfg, s, id, approver, approve, jti);
    NotMintedYet(s, jti);
    hide RecordTimed, CredentialTimed, DecideOutcome, ApprovalsOk, MintedOnce, DecideStep, FreshJti, RequestsKnown;
    var s' := DecideStep(cfg, s, id, approver, approve, jti);
    var n := |s.log|;
    assert ApprovedAt(s'.log, n, id);
    RequestsLast(s.log, s'.log, s.approvals, s'.approvals);
    forall x | x in s'.approvals ensures RecordTimed(s'.log, s'.approvals[x], x) {
      RecordLasts(s.log, s'.log, s.approvals[x], s'.approvals[x], x);
    }
    forall c | c in s'.sealed ensures CredentialTimed(cfg, s'.approvals, s'.log, c) {
      if c in s.sealed {
        CredentialLasts(cfg, s.approvals, s'.approvals, s.log, s'.log, c);
      } else {
        NewCompletion(cfg, s'.approvals, s'.log, n, id, c, jti);
      }
    }
  }

  /** What the step that fills the quorum writes. */
  lemma Completion(cfg: Config, s: State, id: Id, approver: Id, approve: bool, jti: Id)
    requires id in s.approvals && DecideOutcome(s, id, approver, approve) == Ok(ApApproved)
    ensures var s' := DecideStep(cfg, s, id, approver, approve, jti);
      && id in s'.approvals && s'.approvals == s.approvals[id := s'.approvals[id]]
      && s'.approvals[id].expiresAt == s.approvals[id].expiresAt && s'.approvals[id].actionJti == Some(jti)
      && |s'.log| == |s.log| + 1 && s.log <= s'.log && s'.log[|s.log|].at == s.now
      && s'.log[|s.log|].decision == Approved && s'.log[|s.log|].approvalId == Some(id)
      && forall c :: c in s'.sealed && c !in s.sealed ==>
           && (c.ActionCredential? ==> c.jti == jti && c.requiresApproval && c.exp == s.now + cfg.actionTtl * 1000)
           && (c.ApprovalCredential? ==> c.approvalId == id && c.exp == s.now + cfg.approvalTtl * 1000)
    ensures s.sealed <= DecideStep(cfg, s, id, approver, approve, jti).sealed
  {
    hide DecideOutcome;
  }

  lemma DecidedInTime(s: State, id: Id, approver: Id, approve: bool)
    requires DecideOutcome(s, id, approver, approve).Ok?
    ensures id in s.approvals && s.now <= s.approvals[id].expiresAt
  {
  }

  /** No record names a credential that is yet to be drawn. */
  lemma NotMintedYet(s: State, jti: Id)
    requires MintedOnce(s.sealed, s.approvals) && FreshJti(s, jti)
    ensures forall id :: id in s.approvals ==> s.approvals[id].actionJti != Some(jti)
  {
  }

  lemma NewCompletion(cfg: Config, aps: map<Id, Approval>, log: seq<Receipt>, g: int, id: Id, c: Credential, jti: Id)
    requires ApprovedAt(log, g, id) && id in aps && log[g].at <= aps[id].expiresAt
    requires forall x :: x in aps && aps[x].actionJti == Some(jti) ==> x == id
    requires c.ActionCredential? ==> c.jti == jti && c.requiresApproval && c.exp == log[g].at + cfg.actionTtl * 1000
    requires c.ApprovalCredential? ==> c.approvalId == id && c.exp == log[g].at + cfg.approvalTtl * 1000
    ensures CredentialTimed(cfg, aps, log, c)
  {
  }

  lemma DecideKeepsTimes(cfg: Config, s: State, id: Id, approver: Id, approve: bool, jti: Id)
    requires Timed(cfg, s.approvals, s.sealed, s.log) && GrantsOk(s.approvals, s.sealed, s.log) && FreshJti(s, jti)
    ensures var s' := DecideStep(cfg, s, id, approver, approve, jti); Timed(cfg, s'.approvals, s'.sealed, s'.log)
  {
    hide Timed, CredentialOk, ApprovalsOk, OwnAction, UniqueJtis, MintedOnce;
    if id in s.approvals && DecideOutcome(s, id, approver, approve) == Ok(ApApproved) {
      CompletionKeepsTimes(cfg, s, id, approver, approve, jti);
    } else {
      NothingNew(cfg, s, DecideStep(cfg, s, id, approver, approve, jti));
    }
  }

  lemma PassportKnown(cfg: Config, s: State, r: AuthorizeRequest)
    ensures AuthorizeOutcome(cfg, s, r).Ok? ==> r.intent.passport in s.passports
  {
    hide CheckIntentShape, AssertPassportUsable, TokenChecks;
  }

  lemma NoRequest(cfg: Config, s: State, e: Event)
    requires !e.Authorize? && !e.Decide?
    ensures var log' := Step(cfg, s, e).log; |log'| > |s.log| ==> log'[|s.log|].decision != StepUp
  {
    AdminAppends(s, e);
    hide AdminStep, ExecuteOutcome, DelegateChecks, UsedAfter, Debited;
  }

  lemma StepKeepsTimes(cfg: Config, s: State, e: Event)
    requires Timed(cfg, s.approvals, s.sealed, s.log) && GrantsOk(s.approvals, s.sealed, s.log) && Fresh(s, e)
    ensures var s' := Step(cfg, s, e); Timed(cfg, s'.approvals, s'.sealed, s'.log)
  {
    hide Timed, GrantsOk, DecideStep, AuthorizeOutcome, AuthorizeEffect, DelegateStep, ExecuteStep, AdminStep;
    match e
    case Decide(id, approver, approve, jti) => DecideKeepsTimes(cfg, s, id, approver, approve, jti);
    case Authorize(r) =>
      PassportKnown(cfg, s, r);
      if AuthorizeOutcome(cfg, s, r).Ok? {
        AuthorizeKeepsTimes(cfg, s, r, AuthorizeOutcome(cfg, s, r).value, s.passports[r.intent.passport]);
      }
    case _ =>
      StepFrame(cfg, s, e);
      StepAppends(cfg, s, e);
      NoRequest(cfg, s, e);
      NothingNew(cfg, s, Step(cfg, s, e));
  }

  lemma RunStepTimed(cfg: Config, states: seq<State>, events: seq<Event>, k: nat)
    requires Run(cfg, states, events) && 0 < k < |states|
    requires Timed(cfg, states[k - 1].approvals, states[k - 1].sealed, states[k - 1].log)
    ensures Timed(cfg, states[k].approvals, states[k].sealed, states[k].log)
  {
    hide Step, Timed, PassportsOk, TokensOk, GrantsOk, Fresh;
    RunInv(cfg, states, events, k - 1);
    assert StepAt(cfg, states, events, k - 1);
    StepKeepsTimes(cfg, states[k - 1], events[k - 1]);
  }

  lemma RunStartTimed(cfg: Config, states: seq<State>, events: seq<Event>)
    requires Run(cfg, states, events)
    ensures Timed(cfg, states[0].approvals, states[0].sealed, states[0].log)
  {
    hide StepAt;
  }

  lemma {:induction false} RunTimed(cfg: Config, states: seq<State>, events: seq<Event>, k: nat)
    requires Run(cfg, states, events) && k < |states|
    ensures Timed(cfg, states[k].approvals, states[k].sealed, states[k].log)
  {
    hide Run, Timed;
    if k == 0 {
      RunStartTimed(cfg, states, events);
    } else {
      RunTimed(cfg, states, events, k - 1);
      RunStepTimed(cfg, states, events, k);
    }
  }

  // ----- Executions -----

  /** The approval came within a quarter of an hour of the request for it, and both the action
      and the approval credential that date from it are alive. */
  ghost predicate ApprovalInTime(cfg: Config, log: seq<Receipt>, id: Id, now: int) {
    && (exists g, m :: ApprovedAt(log, g, id) && FirstRequestAt(log, m, id)
          && log[g].at <= log[m].at + 15 * 60 * 1000 && now <= log[g].at + cfg.actionTtl * 1000)
    && (exists g :: ApprovedAt(log, g, id) && now <= log[g].at + cfg.approvalTtl * 1000)
  }

  /** At every step of every run: an execution happens inside the intent's window and no later
      than the credential's lifetime after its grant, and its approval, if it needs one, came
      in time. */
  lemma ExecutionsAreTimely(cfg: Config, states: seq<State>, events: seq<Event>, j: nat)
    requires Run(cfg, states, events) && j < |events| && ExecutesAt(cfg, states, events, j)
    ensures events[j].credential.ActionCredential?
    ensures var s, att, i := states[j], events[j].credential, events[j].intent;
      && i.iat - cfg.skew * 1000 <= s.now < i.exp
      && (!att.requiresApproval ==>
            exists g :: AllowedAt(s.log, g, att.jti) && s.now <= s.log[g].at + cfg.actionTtl * 1000)
      && (att.requiresApproval ==> exists id :: ApprovalInTime(cfg, s.log, id, s.now))
  {
    RunTimed(cfg, states, events, j);
    RunInv(cfg, states, events, j);
    hide Run, GrantsOk, Timed, ExecuteOutcome, PassportsOk, TokensOk;
    DoneIsTimely(cfg, states[j], events[j].credential, events[j].intent, events[j].approval);
  }

  lemma DoneIsTimely(cfg: Config, s: State, att: Credential, i: Intent, approval: Option<Credential>)
    requires Timed(cfg, s.approvals, s.sealed, s.log) && GrantsOk(s.approvals, s.sealed, s.log)
    requires ExecuteOutcome(cfg, s, att, i, approval).Done?
    ensures i.iat - cfg.skew * 1000 <= s.now < i.exp && att.ActionCredential?
    ensures !att.requiresApproval ==>
            exists g :: AllowedAt(s.log, g, att.jti) && s.now <= s.log[g].at + cfg.actionTtl * 1000
    ensures att.requiresApproval ==> exists id :: ApprovalInTime(cfg, s.log, id, s.now)
  {
    hide ExecuteOutcome, GrantsOk;
    DoneInTime(cfg, s, att, i, approval);
    assert CredentialTimed(cfg, s.approvals, s.log, att);
    if att.requiresApproval { DeferredInTime(cfg, s, att, approval.value); }
  }

  lemma DoneInTime(cfg: Config, s: State, att: Credential, i: Intent, approval: Option<Credential>)
    requires ExecuteOutcome(cfg, s, att, i, approval).Done?
    ensures i.iat - cfg.skew * 1000 <= s.now < i.exp && att in s.sealed && att.ActionCredential? && s.now <= att.exp
    ensures att.requiresApproval ==>
              && approval.Some? && approval.value in s.sealed && approval.value.ApprovalCredential? &&
                 s.now <= approval.value.exp
              && (approval.value.actionJti.Some? ==> approval.value.actionJti.value == att.jti)
  {
  }

  lemma SealedIsOk(aps: map<Id, Approval>, sealed: set<Credential>, log: seq<Receipt>, c: Credential)
    requires GrantsOk(aps, sealed, log) && c in sealed
    ensures CredentialOk(c, aps, log)
  {
    hide CredentialOk, ApprovalsOk, UniqueJtis, MintedOnce, OwnAction;
  }

  lemma DeferredInTime(cfg: Config, s: State, att: Credential, apc: Credential)
    requires Timed(cfg, s.approvals, s.sealed, s.log) && GrantsOk(s.approvals, s.sealed, s.log)
    requires att in s.sealed && att.ActionCredential? && att.requiresApproval && s.now <= att.exp
    requires apc in s.sealed && apc.ApprovalCredential? && s.now <= apc.exp
    requires apc.actionJti.Some? ==> apc.actionJti.value == att.jti
    ensures ApprovalInTime(cfg, s.log, apc.approvalId, s.now)
  {
    hide GrantsOk;
    var id := apc.approvalId;
    SealedIsOk(s.approvals, s.sealed, s.log, apc);
    assert CredentialTimed(cfg, s.approvals, s.log, apc) && CredentialTimed(cfg, s.approvals, s.log, att);
    assert RecordTimed(s.log, s.approvals[id], id);
    hide Timed, FirstRequestAt, RequestsKnown;
    var m :| FirstRequestAt(s.log, m, id) && s.approvals[id].expiresAt == s.log[m].at + APPROVAL_WINDOW_MS;
    var g :| ApprovedAt(s.log, g, id) && s.log[g].at <= s.approvals[id].expiresAt &&
      att.exp == s.log[g].at + cfg.actionTtl * 1000;
    var h :| ApprovedAt(s.log, h, id) && apc.exp == s.log[h].at + cfg.approvalTtl * 1000;
  }

  // ----- No field is ever missing -----

  /** Every action credential carries an id and times after the start of the clock. */
  ghost predicate AllComplete(s: State) {
    s.now > 0 && forall c :: c in s.sealed && c.ActionCredential? ==> c.jti != "" && c.iat > 0 && c.exp > 0
  }

  lemma StepKeepsComplete(cfg: Config, s: State, e: Event)
    requires AllComplete(s) && Fresh(s, e)
    ensures AllComplete(Step(cfg, s, e))
  {
    hide AuthorizeOutcome, DecideOutcome, DelegateStep, ExecuteStep, AdminStep, NewApproval, DecidedRecord;
    StepGrows(cfg, s, e);
    StepFrame(cfg, s, e);
  }

  lemma RunStepComplete(cfg: Config, states: seq<State>, events: seq<Event>, k: nat)
    requires Run(cfg, states, events) && 0 < k < |states| && AllComplete(states[k - 1])
    ensures AllComplete(states[k])
  {
    hide Step, AllComplete;
    assert StepAt(cfg, states, events, k - 1);
    StepKeepsComplete(cfg, states[k - 1], events[k - 1]);
  }

  lemma RunStartComplete(cfg: Config, states: seq<State>, events: seq<Event>)
    requires Run(cfg, states, events)
    ensures AllComplete(states[0])
  {
    hide StepAt;
  }

  lemma {:induction false} RunAllComplete(cfg: Config, states: seq<State>, events: seq<Event>, k: nat)
    requires Run(cfg, states, events) && k < |states|
    ensures AllComplete(states[k])
  {
    hide Run, AllComplete;
    if k == 0 {
      RunStartComplete(cfg, states, events);
    } else {
      RunAllComplete(cfg, states, events, k - 1);
      RunStepComplete(cfg, states, events, k);
    }
  }

  /** In every state of every run: the test for missing fields never refuses a sealed credential
      for an agent. */
  lemma RunComplete(cfg: Config, states: seq<State>, events: seq<Event>, k: nat)
    requires Run(cfg, states, events) && k < |states|
    ensures forall c :: c in states[k].sealed && c.ActionCredential? && "agt_" <= c.intent.passport ==> Complete(c)
  {
    RunAllComplete(cfg, states, events, k);
    RunInv(cfg, states, events, k);
    hide Run;
    forall c | c in states[k].sealed && c.ActionCredential? && "agt_" <= c.intent.passport ensures Complete(c) {
      assert CredentialOk(c, states[k].approvals, states[k].log);
    }
  }
}
