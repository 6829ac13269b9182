/** Single use holds exactly when the intent window closes before the replay entries expire. */
module GatewayWindow {
  import opened Prelude
  import opened Delegation
  import opened Replay
  import Policy
  import Risk
  import opened Gateway
  import opened GatewayExecutions
  import opened GatewayTheorems

  // ----- A store in which one agent may act freely -----

  /** An intent to read data, free of charge. */
  predicate Harmless(i: Intent) { i.action == "data.read" && i.amount == 0 }

  predicate Ready(s: State, i: Intent) {
    && Harmless(i) && s.now > 0 && i.org in s.orgs && !s.orgs[i.org].locked
    && i.passport in s.passports && s.revocations == {}
    && var p := s.passports[i.passport];
       && p == Passport(i.passport, i.org, None, None, "", false, DEFAULT_GRACE_S, Active, p.exp,
                        Key(1, "key", false, 0), [])
       && s.now <= p.exp
  }

  function Request(i: Intent, jti: Id, ap: Id): AuthorizeRequest {
    AuthorizeRequest(i, None, None, true, None, false, [AnyAction()], 720, false, 85, 30, jti, ap)
  }

  /** Far below the threshold of thirty for a second opinion. */
  lemma RiskIsLow(s: State, i: Intent, jti: Id, ap: Id)
    requires Harmless(i)
    ensures RiskOf(s, Request(i, jti, ap)) <= 15
  {
    hide Risk.Novel, Risk.Sensitive;
    Unlike("admin.", i.action, 0);
    Unlike("payments.", i.action, 0);
    Unlike("code.exec", i.action, 0);
    Unlike("external.send", i.action, 0);
    Unlike("data.write", i.action, 5);
    Unlike("browser.", i.action, 0);
  }

  lemma Unlike(prefix: string, s: string, k: nat)
    requires k < |prefix| && k < |s| && prefix[k] != s[k]
    ensures !(prefix <= s)
  {
  }

  /** A policy that allows everything. */
  function AnyAction(): Policy.Rule { Policy.Rule("pol_1", Policy.Allows, ["*"], ["*"], 0, None) }

  lemma AnyActionAllows(q: Policy.Query)
    ensures Policy.Evaluate([AnyAction()], q).effect == Policy.Allows
  {
    var p := AnyAction();
    assert p.actions[0] == "*" && p.resources[0] == "*";
    assert Policy.Matches(p, q) && p in [p];
    Policy.EvaluatesExactly([p], q);
    assert forall x :: x in [p] ==> x == p;
  }

  lemma AuthorizeGoes(cfg: Config, s: State, i: Intent, jti: Id, ap: Id)
    requires Ready(s, i) && CheckIntentShape(cfg, s.now, i).Ok?
    ensures AuthorizeStep(cfg, s, Request(i, jti, ap)) ==
            AuthorizeEffect(cfg, s, Request(i, jti, ap), Allow, s.passports[i.passport])
  {
    hide CheckIntentShape;
    var r := Request(i, jti, ap);
    assert Authenticate(cfg, s, r) == Ok(s.passports[i.passport]);
    RiskIsLow(s, i, jti, ap);
    hide RiskOf, AuthorizeEffect;
    AnyActionAllows(QueryOf(s, r, s.passports[i.passport]));
    assert AssertPassportUsable(s, i.passport, {}) == Ok(());
    assert TokenChecks(s, i, None) == Ok(());
  }

  lemma ExecuteGoes(cfg: Config, s: State, i: Intent, jti: Id)
    requires Ready(s, i) && CheckIntentShape(cfg, s.now, i).Ok? && jti != ""
    requires var att := MintAction(cfg, s.now, jti, i, Some(1), None, false);
             att in s.sealed && AfterNonce(s, i).1 && AfterCredential(s, att, i).1
    ensures var att := MintAction(cfg, s.now, jti, i, Some(1), None, false);
            ExecuteOutcome(cfg, s, att, i, None) == Done(None)
  {
    assert "agt_" <= i.passport;
    hide CheckIntentShape, AfterNonce, AfterCredential;
    var att := MintAction(cfg, s.now, jti, i, Some(1), None, false);
    assert CredentialChecks(s, att, i) == Ok(());
    assert AssertPassportUsable(s, i.passport, {}) == Ok(());
    assert KeyFor(s.passports[i.passport], att.kid, s.now).Ok?;
    assert ExecuteChecks(s, att, i, None) == Ok(None);
  }

  /** Every entry of the replay map has expired. */
  predicate Stale(s: State) {
    forall k :: k in s.used ==> s.used[k] <= s.now
  }

  /** Authorise and execute: from a ready store with a stale replay map this goes through and
      leaves a ready store. */
  lemma Round(cfg: Config, s: State, i: Intent, jti: Id, ap: Id) returns (s1: State, s2: State)
    requires Ready(s, i) && Stale(s) && CheckIntentShape(cfg, s.now, i).Ok? && jti != ""
    ensures s1 == AuthorizeStep(cfg, s, Request(i, jti, ap))
    ensures s2 == ExecuteStep(cfg, s1, MintAction(cfg, s.now, jti, i, Some(1), None, false), i, None)
    ensures Ready(s2, i) && s2.now == s.now && s2.approvals == s.approvals && s2.passports == s.passports
    ensures s2.sealed == s.sealed + {MintAction(cfg, s.now, jti, i, Some(1), None, false)}
    ensures s.log <= s2.log && |s2.log| == |s.log| + 2
    ensures s2.log[|s.log| + 1].decision == Executed && s2.log[|s.log| + 1].intent == Some(i)
    ensures forall k :: k in s2.used ==> s2.used[k] == s.now + REPLAY_TTL_MS
  {
    var att := MintAction(cfg, s.now, jti, i, Some(1), None, false);
    AuthorizeGoes(cfg, s, i, jti, ap);
    s1 := AuthorizeEffect(cfg, s, Request(i, jti, ap), Allow, s.passports[i.passport]);
    assert Ready(s1, i);
    FreeWhenStale(cfg, s1, i, att);
    ExecuteGoes(cfg, s1, i, jti);
    hide CheckIntentShape, ExecuteOutcome, AuthorizeStep;
    s2 := ExecuteEffect(s1, att, i, Done(None));
    assert Ready(s2, i);
  }

  lemma FreeWhenStale(cfg: Config, s: State, i: Intent, att: Credential)
    requires Stale(s) && att.ActionCredential? && CheckIntentShape(cfg, s.now, i).Ok?
    ensures AfterNonce(s, i).1 && AfterCredential(s, att, i).1
    ensures forall k :: k in UsedAfter(s, att, i) ==> UsedAfter(s, att, i)[k] == s.now + REPLAY_TTL_MS
  {
    var n, c := IntentKey(i.org, i.nonce), CredentialKey(att.jti);
    assert n[0] == 'o' && c[0] == 'a';
  }

  // ----- The run -----

  /** As early as the skew allows, and lasting as long as the window allows. */
  function LongIntent(cfg: Config, now: int): Intent {
    Intent("agt_1", "org_1", "data.read", "r", [], 0, "", "", "----------------", now + cfg.skew * 1000,
           now + cfg.skew * 1000 + cfg.intentTtl * 1000, "authragen")
  }

  lemma LongIntentIsAccepted(cfg: Config, now: int, later: int)
    requires cfg.intentTtl >= 1
    requires now <= later < now + cfg.skew * 1000 + cfg.intentTtl * 1000
    ensures CheckIntentShape(cfg, later, LongIntent(cfg, now)).Ok?
  {
  }

  function Agent(i: Intent, exp: int): NewPassport {
    NewPassport("agent", i.org, false, None, None, "", false, Keeper(false, ""), Offered("key"), 0, exp)
  }

  lemma Setup(cfg: Config, i: Intent, now: int, exp: int) returns (s1: State, s2: State)
    requires exp > now > 0 && Harmless(i)
    ensures s1 == AdminStep(Start(now), CreateOrg(i.org))
    ensures s2 == AdminStep(s1, IssuePassport(i.passport, Agent(i, exp)))
    ensures Ready(s2, i) && s2.now == now && s2.used == map[] && s2.sealed == {} && s2.approvals == map[]
    ensures s1.passports == map[] && s2.passports[i.passport].exp == exp
  {
    s1 := AdminStep(Start(now), CreateOrg(i.org));
    s2 := AdminStep(s1, IssuePassport(i.passport, Agent(i, exp)));
    AgentIsNamed(i, exp);
    hide NotBlank, Utf16Length;
    assert IssueChecks(s1, i.passport, Agent(i, exp))
        == Ok(Passport(i.passport, i.org, None, None, "", false, DEFAULT_GRACE_S, Active, exp,
                       Key(1, "key", false, 0), []));
  }

  lemma AgentIsNamed(i: Intent, exp: int)
    ensures NotBlank(Agent(i, exp).name) && Utf16Length(Agent(i, exp).name) <= 256
  {
    assert !IsJsSpace(Agent(i, exp).name[0]);
    assert Utf16Length("agent") == 5;
  }

  /** A run with its last state `s`. */
  ghost predicate RunTo(cfg: Config, states: seq<State>, events: seq<Event>, s: State) {
    Run(cfg, states, events) && states[|events|] == s
  }

  lemma RunExtends(cfg: Config, states: seq<State>, events: seq<Event>, s: State, e: Event, s': State)
    requires RunTo(cfg, states, events, s) && Fresh(s, e) && s' == Step(cfg, s, e)
    ensures RunTo(cfg, states + [s'], events + [e], s')
  {
    var states', events' := states + [s'], events + [e];
    forall k | 0 <= k < |events'| ensures StepAt(cfg, states', events', k) {
      if k < |events| {
        assert StepAt(cfg, states, events, k);
        assert states'[k] == states[k] && states'[k + 1] == states[k + 1] && events'[k] == events[k];
      }
    }
  }

  lemma SetupRun(cfg: Config, i: Intent, exp: int) returns (states: seq<State>, events: seq<Event>, s: State)
    requires exp > 1 && Harmless(i)
    ensures RunTo(cfg, states, events, s)
    ensures Ready(s, i) && s.now == 1 && s.used == map[] && s.sealed == {} && s.approvals == map[]
    ensures s.passports[i.passport].exp == exp
  {
    hide Ready, AdminStep;
    var s1, s2 := Setup(cfg, i, 1, exp);
    var issue := IssuePassport(i.passport, Agent(i, exp));
    assert RunTo(cfg, [Start(1)], [], Start(1));
    RunExtends(cfg, [Start(1)], [], Start(1), CreateOrg(i.org), s1);
    RunExtends(cfg, [Start(1)] + [s1], [CreateOrg(i.org)], s1, issue, s2);
    assert [] + [CreateOrg(i.org)] == [CreateOrg(i.org)];
    states, events, s := [Start(1)] + [s1] + [s2], [CreateOrg(i.org)] + [issue], s2;
  }

  lemma RoundRun(cfg: Config, states: seq<State>, events: seq<Event>, s: State, i: Intent, jti: Id, ap: Id)
    returns (states': seq<State>, events': seq<Event>, s': State)
    requires RunTo(cfg, states, events, s)
    requires Ready(s, i) && Stale(s) && CheckIntentShape(cfg, s.now, i).Ok?
    requires FreshJti(s, jti) && ap !in s.approvals
    ensures RunTo(cfg, states', events', s')
    ensures Ready(s', i) && s'.now == s.now && s'.approvals == s.approvals && s'.passports == s.passports
    ensures s'.sealed == s.sealed + {MintAction(cfg, s.now, jti, i, Some(1), None, false)}
    ensures s.log <= s'.log && |s'.log| == |s.log| + 2
    ensures s'.log[|s.log| + 1].decision == Executed && s'.log[|s.log| + 1].intent == Some(i)
    ensures forall k :: k in s'.used ==> s'.used[k] == s.now + REPLAY_TTL_MS
  {
    hide AuthorizeStep, ExecuteStep, CheckIntentShape, Ready, RunTo;
    var att := MintAction(cfg, s.now, jti, i, Some(1), None, false);
    var s1, s2 := Round(cfg, s, i, jti, ap);
    RunExtends(cfg, states, events, s, Authorize(Request(i, jti, ap)), s1);
    RunExtends(cfg, states + [s1], events + [Authorize(Request(i, jti, ap))], s1, Execute(att, i, None), s2);
    states', events', s' := states + [s1] + [s2], events + [Authorize(Request(i, jti, ap))] + [Execute(att, i, None)],
      s2;
  }

  /** The same intent, executed once before its replay entries expire and once after. */
  lemma TwiceInOneRun(cfg: Config) returns (states: seq<State>, events: seq<Event>)
    requires cfg.intentTtl >= 1 && !WindowCloses(cfg)
    ensures Run(cfg, states, events) && !ExecutedOnce(states[|events|].log)
  {
    hide AdminStep, CheckIntentShape, Ready, Run, StepAt;
    var i := LongIntent(cfg, 1);
    var s: State;
    states, events, s := SetupRun(cfg, i, 1 + REPLAY_TTL_MS);
    LongIntentIsAccepted(cfg, 1, 1);
    var first := |s.log| + 1;
    states, events, s := RoundRun(cfg, states, events, s, i, "x", "");
    var entry := s.log[first];
    var later := AfterTenMinutes(cfg, s, i);
    RunExtends(cfg, states, events, s, Tick(REPLAY_TTL_MS), later);
    states, events := states + [later], events + [Tick(REPLAY_TTL_MS)];
    LongIntentIsAccepted(cfg, 1, 1 + REPLAY_TTL_MS);
    var second := |later.log| + 1;
    states, events, s := RoundRun(cfg, states, events, later, i, "y", "");
    assert s.log[first] == entry && first < second;
  }

  lemma AfterTenMinutes(cfg: Config, s: State, i: Intent) returns (s': State)
    requires Ready(s, i) && s.now == 1 && s.passports[i.passport].exp == 1 + REPLAY_TTL_MS
    requires forall k :: k in s.used ==> s.used[k] == 1 + REPLAY_TTL_MS
    ensures s' == Step(cfg, s, Tick(REPLAY_TTL_MS)) && Ready(s', i) && Stale(s')
    ensures s'.now == 1 + REPLAY_TTL_MS && s'.log == s.log && s'.sealed == s.sealed && s'.approvals == s.approvals
  {
    s' := s.(now := s.now + REPLAY_TTL_MS);
  }

  /** No run executes an intent twice exactly when the intent window plus the skew is at most
      ten minutes. */
  lemma SingleUseExactly(cfg: Config)
    requires cfg.intentTtl >= 1
    ensures (forall states: seq<State>, events: seq<Event> :: Run(cfg, states, events) ==>
            ExecutedOnce(states[|events|].log)) <==> WindowCloses(cfg)
  {
    if WindowCloses(cfg) {
      forall states: seq<State>, events: seq<Event> | Run(cfg, states, events)
        ensures ExecutedOnce(states[|events|].log) {
        RunOnce(cfg, states, events, |events|);
      }
    } else {
      var states, events := TwiceInOneRun(cfg);
    }
  }
}
