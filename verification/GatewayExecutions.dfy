/** What the receipts of executions say: each was granted, each happened once, and what they
    add up to is what the tokens were charged. */
module GatewayExecutions {
  import opened Prelude
  import opened Delegation
  import opened Replay
  import opened Gateway
  import opened GatewayInvariants
  import opened GatewayGrants

  // ----- Justification -----

  /** The receipt names a grant, recorded before it, for its own intent and credential. */
  ghost predicate Justified(before: seq<Receipt>, aps: map<Id, Approval>, r: Receipt) {
    && r.intent.Some? && r.actionJti.Some? && r.amount == r.intent.value.amount
    && (match r.approvalId
        case None => ByPolicy(before, r.intent.value, r.actionJti.value, r.token)
        case Some(id) => ByApproval(before, aps, id, r.intent.value, r.actionJti.value, r.token))
  }

  ghost predicate AllJustified(log: seq<Receipt>, aps: map<Id, Approval>) {
    forall n :: 0 <= n < |log| && log[n].decision == Executed ==> Justified(log[..n], aps, log[n])
  }

  lemma JustifiedExtends(log: seq<Receipt>, log': seq<Receipt>, aps: map<Id, Approval>, aps': map<Id, Approval>)
    requires AllJustified(log, aps) && ApprovalsStep(aps, aps')
    requires log <= log' && |log'| <= |log| + 1
    requires |log'| > |log| && log'[|log|].decision == Executed ==> Justified(log, aps', log'[|log|])
    ensures AllJustified(log', aps')
  {
    forall n | 0 <= n < |log'| && log'[n].decision == Executed ensures Justified(log'[..n], aps', log'[n]) {
      if n < |log| {
        assert log'[..n] == log[..n] && log'[n] == log[n];
        var r := log[n];
        GrantsLast(log[..n], log[..n], aps, aps', r.intent.value, r.actionJti.value, r.token);
      } else {
        assert log'[..n] == log;
      }
    }
  }

  lemma ExecutionIsJustified(cfg: Config, s: State, att: Credential, i: Intent, approval: Option<Credential>)
    requires GrantsOk(s.approvals, s.sealed, s.log)
    requires ExecuteOutcome(cfg, s, att, i, approval).Done?
    ensures att.ActionCredential?
    ensures Justified(s.log, s.approvals, ExecuteEntry(s, att, i, ExecuteOutcome(cfg, s, att, i, approval))[0])
  {
    DonePassed(cfg, s, att, i, approval);
    assert ActionOk(att, s.approvals, s.log);
    if att.requiresApproval {
      var apc := DoneApproved(cfg, s, att, i, approval);
      assert ApprovalCredentialOk(apc, s.approvals);
      var id :| ByApproval(s.log, s.approvals, id, att.intent, att.jti, att.token);
      assert id == apc.approvalId;
    }
  }

  lemma ExecuteKeepsJustified(cfg: Config, s: State, att: Credential, i: Intent, approval: Option<Credential>)
    requires GrantsOk(s.approvals, s.sealed, s.log) && AllJustified(s.log, s.approvals)
    ensures AllJustified(ExecuteStep(cfg, s, att, i, approval).log, s.approvals)
  {
    var x := ExecuteOutcome(cfg, s, att, i, approval);
    if x.Done? { ExecutionIsJustified(cfg, s, att, i, approval); }
    hide ExecuteOutcome, GrantsOk, Justified;
    SameApprovals(s.approvals);
    var entry := ExecuteEntry(s, att, i, x);
    JustifiedExtends(s.log, s.log + entry, s.approvals, s.approvals);
  }

  lemma StepKeepsJustified(cfg: Config, s: State, e: Event)
    requires Fresh(s, e) && GrantsOk(s.approvals, s.sealed, s.log) && AllJustified(s.log, s.approvals)
    ensures AllJustified(Step(cfg, s, e).log, Step(cfg, s, e).approvals)
  {
    StepFrame(cfg, s, e);
    if e.Execute? {
      ExecuteKeepsJustified(cfg, s, e.credential, e.intent, e.approval);
    } else {
      StepAppends(cfg, s, e);
      StepKeepsApprovals(cfg, s, e);
      OnlyExecuteExecutes(cfg, s, e);
      JustifiedExtends(s.log, Step(cfg, s, e).log, s.approvals, Step(cfg, s, e).approvals);
    }
  }

  // ----- Budgets -----

  /** What the executions in the log charge to a token. */
  function SpentOn(log: seq<Receipt>, jti: Id): nat {
    if log == [] then 0
    else
      var r := log[|log| - 1];
      SpentOn(log[..|log| - 1], jti) + (if r.decision == Executed && r.token == Some(jti) then r.amount else 0)
  }

  /** The stored balance of every token is the sum of its executions. */
  ghost predicate Balanced(tokens: map<Id, Token>, log: seq<Receipt>) {
    && (forall jti :: jti in tokens ==> tokens[jti].spent == SpentOn(log, jti))
    && (forall n :: 0 <= n < |log| && log[n].decision == Executed && log[n].token.Some? ==>
          log[n].token.value in tokens)
  }

  lemma SpentOnAppend(log: seq<Receipt>, r: Receipt, jti: Id)
    ensures SpentOn(log + [r], jti)
         == SpentOn(log, jti) + (if r.decision == Executed && r.token == Some(jti) then r.amount else 0)
  {
    assert (log + [r])[..|log|] == log;
  }

  lemma {:induction false} UnknownTokenUncharged(log: seq<Receipt>, jti: Id)
    requires forall n :: 0 <= n < |log| && log[n].decision == Executed ==> log[n].token != Some(jti)
    ensures SpentOn(log, jti) == 0
  {
    if log != [] { UnknownTokenUncharged(log[..|log| - 1], jti); }
  }

  lemma BalanceKept(tokens: map<Id, Token>, log: seq<Receipt>, log': seq<Receipt>)
    requires Balanced(tokens, log) && log <= log' && |log'| <= |log| + 1
    requires |log'| > |log| ==> log'[|log|].decision != Executed
    ensures Balanced(tokens, log')
  {
    if |log'| > |log| {
      assert log' == log + [log'[|log|]];
      forall jti | jti in tokens ensures tokens[jti].spent == SpentOn(log', jti) {
        SpentOnAppend(log, log'[|log|], jti);
      }
    } else {
      assert log' == log;
    }
  }

  lemma NewTokenBalanced(tokens: map<Id, Token>, log: seq<Receipt>, t: Token)
    requires Balanced(tokens, log) && t.jti !in tokens && t.spent == 0
    ensures Balanced(tokens[t.jti := t], log)
  {
    UnknownTokenUncharged(log, t.jti);
  }

  lemma DebitBalanced(tokens: map<Id, Token>, log: seq<Receipt>, r: Receipt)
    requires Balanced(tokens, log) && r.decision == Executed
    requires r.token.Some? ==> r.token.value in tokens
    ensures Balanced(Debited(tokens, r.token, r.amount), log + [r])
  {
    var tokens' := Debited(tokens, r.token, r.amount);
    forall jti | jti in tokens' ensures tokens'[jti].spent == SpentOn(log + [r], jti) {
      SpentOnAppend(log, r, jti);
    }
  }

  lemma ExecuteKeepsBalance(cfg: Config, s: State, att: Credential, i: Intent, approval: Option<Credential>)
    requires Balanced(s.tokens, s.log)
    ensures var s' := ExecuteStep(cfg, s, att, i, approval); Balanced(s'.tokens, s'.log)
  {
    var x := ExecuteOutcome(cfg, s, att, i, approval);
    if x.Done? {
      DonePassed(cfg, s, att, i, approval);
      DebitBalanced(s.tokens, s.log, ExecuteEntry(s, att, i, x)[0]);
    } else {
      BalanceKept(s.tokens, s.log, s.log + ExecuteEntry(s, att, i, x));
    }
  }

  lemma DelegateKeepsBalance(s: State, e: Event)
    requires e.Delegate? && Balanced(s.tokens, s.log)
    requires PassportsOk(s.passports) && TokensOk(s.passports, s.tokens) && s.now >= 0
    ensures var s' := DelegateStep(s, e.org, e.delegator, e.payload, e.envelope, e.admin); Balanced(s'.tokens, s'.log)
  {
    var checks := DelegateChecks(s, e.org, e.delegator, e.payload, e.envelope, e.admin);
    if checks.Ok? {
      DelegateStored(s, e);
      NewTokenBalanced(s.tokens, s.log, checks.value);
      BalanceKept(s.tokens[checks.value.jti := checks.value], s.log, s.log + Note(s, Allow, e.org, e.delegator));
    }
  }

  lemma StepKeepsBalance(cfg: Config, s: State, e: Event)
    requires Fresh(s, e) && Balanced(s.tokens, s.log)
    requires PassportsOk(s.passports) && TokensOk(s.passports, s.tokens) && s.now >= 0
    ensures Balanced(Step(cfg, s, e).tokens, Step(cfg, s, e).log)
  {
    if e.Execute? {
      ExecuteKeepsBalance(cfg, s, e.credential, e.intent, e.approval);
    } else if e.Delegate? {
      DelegateKeepsBalance(s, e);
    } else {
      StepFrame(cfg, s, e);
      StepAppends(cfg, s, e);
      OnlyExecuteExecutes(cfg, s, e);
      BalanceKept(s.tokens, s.log, Step(cfg, s, e).log);
    }
  }

  // ----- Replay -----

  /** The entry for `key` outlives the time `until`, unless that has come. */
  ghost predicate Held(used: map<string, int>, now: int, key: string, until: int) {
    now >= until || (key in used && used[key] >= until)
  }

  /** The intent of an execution was inside its window then, and both its replay entries are
      held for ten minutes. */
  ghost predicate Guarded(cfg: Config, now: int, used: map<string, int>, r: Receipt) {
    && r.intent.Some? && r.actionJti.Some? && r.at <= now
    && r.intent.value.iat <= r.at + cfg.skew * 1000
    && r.intent.value.exp <= r.intent.value.iat + cfg.intentTtl * 1000
    && Held(used, now, IntentKey(r.intent.value.org, r.intent.value.nonce), r.at + 600_000)
    && Held(used, now, CredentialKey(r.actionJti.value), r.at + 600_000)
  }

  ghost predicate AllGuarded(cfg: Config, now: int, used: map<string, int>, log: seq<Receipt>) {
    forall n :: 0 <= n < |log| && log[n].decision == Executed ==> Guarded(cfg, now, used, log[n])
  }

  /** Consuming a value, or time passing, releases nothing early. */
  lemma ConsumeHolds(used: map<string, int>, value: string, now: int, key: string, until: int)
    requires Held(used, now, key, until)
    ensures Held(Consume(used, value, now, REPLAY_TTL_MS).0, now, key, until)
  {
  }

  lemma GuardsLast(cfg: Config, s: State, att: Credential, i: Intent)
    requires att.ActionCredential? && AllGuarded(cfg, s.now, s.used, s.log)
    ensures AllGuarded(cfg, s.now, UsedAfter(s, att, i), s.log)
  {
    forall n | 0 <= n < |s.log| && s.log[n].decision == Executed
      ensures Guarded(cfg, s.now, UsedAfter(s, att, i), s.log[n])
    {
      var r := s.log[n];
      BothHold(s, att, i, IntentKey(r.intent.value.org, r.intent.value.nonce), r.at + 600_000);
      BothHold(s, att, i, CredentialKey(r.actionJti.value), r.at + 600_000);
    }
  }

  lemma BothHold(s: State, att: Credential, i: Intent, key: string, until: int)
    requires att.ActionCredential? && Held(s.used, s.now, key, until)
    ensures Held(UsedAfter(s, att, i), s.now, key, until)
  {
    ConsumeHolds(s.used, IntentKey(i.org, i.nonce), s.now, key, until);
    ConsumeHolds(AfterNonce(s, i).0, CredentialKey(att.jti), s.now, key, until);
  }

  lemma EffectKeepsGuards(cfg: Config, s: State, att: Credential, i: Intent, x: Execution)
    requires AllGuarded(cfg, s.now, s.used, s.log)
    requires x.Done? || x.Replayed? ==> att.ActionCredential?
    requires x.Done? ==> CheckIntentShape(cfg, s.now, i).Ok? && AfterNonce(s, i).1 && AfterCredential(s, att, i).1
    ensures var s' := ExecuteEffect(s, att, i, x); AllGuarded(cfg, s.now, s'.used, s'.log)
  {
    if x.Done? || x.Replayed? { GuardsLast(cfg, s, att, i); }
  }

  lemma ExecuteKeepsGuards(cfg: Config, s: State, att: Credential, i: Intent, approval: Option<Credential>)
    requires AllGuarded(cfg, s.now, s.used, s.log)
    ensures var s' := ExecuteStep(cfg, s, att, i, approval); AllGuarded(cfg, s.now, s'.used, s'.log)
  {
    hide AllGuarded, ExecuteEffect;
    var x := ExecuteOutcome(cfg, s, att, i, approval);
    if x.Done? { DonePassed(cfg, s, att, i, approval); }
    EffectKeepsGuards(cfg, s, att, i, x);
  }

  lemma StepKeepsGuards(cfg: Config, s: State, e: Event)
    requires AllGuarded(cfg, s.now, s.used, s.log)
    ensures AllGuarded(cfg, Step(cfg, s, e).now, Step(cfg, s, e).used, Step(cfg, s, e).log)
  {
    StepFrame(cfg, s, e);
    if e.Execute? {
      ExecuteKeepsGuards(cfg, s, e.credential, e.intent, e.approval);
    } else {
      StepGrows(cfg, s, e);
      StepAppends(cfg, s, e);
      OnlyExecuteExecutes(cfg, s, e);
      hide Step;
      TimeKeepsGuards(cfg, s.now, Step(cfg, s, e).now, s.used, s.log, Step(cfg, s, e).log);
    }
  }

  lemma TimeKeepsGuards(cfg: Config, now: int, later: int, used: map<string, int>, log: seq<Receipt>,
      log': seq<Receipt>)
    requires AllGuarded(cfg, now, used, log) && now <= later
    requires log <= log' && |log'| <= |log| + 1 && (|log'| > |log| ==> log'[|log|].decision != Executed)
    ensures AllGuarded(cfg, later, used, log')
  {
  }

  // ----- Single use -----

  /** The replay entries outlast every window in which the same intent is acceptable. */
  predicate WindowCloses(cfg: Config) {
    cfg.intentTtl + cfg.skew <= 600
  }

  /** No two executions share an intent, nor a credential. */
  ghost predicate ExecutedOnce(log: seq<Receipt>) {
    forall m, n :: 0 <= m < n < |log| && log[m].decision == Executed && log[n].decision == Executed ==>
      log[m].intent != log[n].intent && log[m].actionJti != log[n].actionJti
  }

  /** Every executed receipt carries the intent its credential was sealed for. */
  ghost predicate Traceable(sealed: set<Credential>, log: seq<Receipt>) {
    forall n :: 0 <= n < |log| && log[n].decision == Executed ==>
      exists c :: c in sealed && c.ActionCredential? && log[n].actionJti == Some(c.jti) &&
        log[n].intent == Some(c.intent)
  }

  /** An intent that was executed before is refused: while it is acceptable its nonce is held. */
  lemma ExecutedIntentIsRefused(cfg: Config, s: State, att: Credential, i: Intent, approval: Option<Credential>, n: nat)
    requires AllGuarded(cfg, s.now, s.used, s.log) && WindowCloses(cfg)
    requires n < |s.log| && s.log[n].decision == Executed && s.log[n].intent == Some(i)
    ensures !ExecuteOutcome(cfg, s, att, i, approval).Done?
  {
    assert Guarded(cfg, s.now, s.used, s.log[n]);
    if ExecuteOutcome(cfg, s, att, i, approval).Done? {
      DonePassed(cfg, s, att, i, approval);
    }
  }

  lemma ExecuteKeepsOnce(cfg: Config, s: State, att: Credential, i: Intent, approval: Option<Credential>)
    requires AllGuarded(cfg, s.now, s.used, s.log) && WindowCloses(cfg)
    requires UniqueJtis(s.sealed) && Traceable(s.sealed, s.log) && ExecutedOnce(s.log)
    ensures var s' := ExecuteStep(cfg, s, att, i, approval); Traceable(s.sealed, s'.log) && ExecutedOnce(s'.log)
  {
    var x := ExecuteOutcome(cfg, s, att, i, approval);
    if x.Done? {
      DonePassed(cfg, s, att, i, approval);
      hide ExecuteOutcome, AllGuarded, CheckIntentShape, UsedAfter, Debited, TokenCovers, WithinBudget;
      forall m | 0 <= m < |s.log| && s.log[m].decision == Executed
        ensures s.log[m].intent != Some(i)
      {
        if s.log[m].intent == Some(i) { ExecutedIntentIsRefused(cfg, s, att, i, approval, m); }
      }
      OnceMore(s.sealed, s.log, ExecuteEntry(s, att, i, x)[0], att);
    } else {
      hide ExecuteOutcome;
      NothingExecuted(s.sealed, s.sealed, s.log, ExecuteStep(cfg, s, att, i, approval).log);
    }
  }

  /** A credential is used for its own intent only, so a new intent means a new credential. */
  lemma OnceMore(sealed: set<Credential>, log: seq<Receipt>, r: Receipt, att: Credential)
    requires UniqueJtis(sealed) && Traceable(sealed, log) && ExecutedOnce(log)
    requires att in sealed && att.ActionCredential? && r.actionJti == Some(att.jti) && r.intent == Some(att.intent)
    requires forall m :: 0 <= m < |log| && log[m].decision == Executed ==> log[m].intent != r.intent
    ensures Traceable(sealed, log + [r]) && ExecutedOnce(log + [r])
  {
    forall m | 0 <= m < |log| && log[m].decision == Executed ensures log[m].actionJti != r.actionJti {
      var c :| c in sealed && c.ActionCredential? && log[m].actionJti == Some(c.jti) && log[m].intent == Some(c.intent);
    }
  }

  lemma NothingExecuted(sealed: set<Credential>, sealed': set<Credential>, log: seq<Receipt>, log': seq<Receipt>)
    requires Traceable(sealed, log) && ExecutedOnce(log) && sealed <= sealed' && log <= log' && |log'| <= |log| + 1
    requires |log'| > |log| ==> log'[|log|].decision != Executed
    ensures Traceable(sealed', log') && ExecutedOnce(log')
  {
    forall n | 0 <= n < |log'| && log'[n].decision == Executed
      ensures exists c :: c in sealed' && c.ActionCredential? && log'[n].actionJti == Some(c.jti) &&
                          log'[n].intent == Some(c.intent)
    {
      assert log'[n] == log[n];
    }
  }

  lemma StepKeepsOnce(cfg: Config, s: State, e: Event)
    requires AllGuarded(cfg, s.now, s.used, s.log) && WindowCloses(cfg)
    requires UniqueJtis(s.sealed) && Traceable(s.sealed, s.log) && ExecutedOnce(s.log)
    ensures Traceable(Step(cfg, s, e).sealed, Step(cfg, s, e).log) && ExecutedOnce(Step(cfg, s, e).log)
  {
    if e.Execute? {
      ExecuteKeepsOnce(cfg, s, e.credential, e.intent, e.approval);
    } else {
      StepGrows(cfg, s, e);
      StepAppends(cfg, s, e);
      OnlyExecuteExecutes(cfg, s, e);
      NothingExecuted(s.sealed, Step(cfg, s, e).sealed, s.log, Step(cfg, s, e).log);
    }
  }
}
