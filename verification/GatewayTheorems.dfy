/** The promises of the gateway over whole runs. */
module GatewayTheorems {
  import opened Prelude
  import opened Delegation
  import opened Gateway
  import opened GatewayInvariants
  import opened GatewayGrants
  import opened GatewayExecutions

  // ----- Every reachable state -----

  ghost predicate Inv(cfg: Config, s: State) {
    && s.now >= 0
    && PassportsOk(s.passports) && TokensOk(s.passports, s.tokens)
    && GrantsOk(s.approvals, s.sealed, s.log) && AllJustified(s.log, s.approvals)
    && Balanced(s.tokens, s.log) && AllGuarded(cfg, s.now, s.used, s.log)
  }

  lemma StartInv(cfg: Config, now: int)
    requires now >= 0
    ensures Inv(cfg, Start(now))
  {
    assert Ranked(Start(now).passports, map[]);
  }

  lemma StepInv(cfg: Config, s: State, e: Event)
    requires Inv(cfg, s) && Fresh(s, e)
    ensures Inv(cfg, Step(cfg, s, e))
  {
    StepGrows(cfg, s, e);
    StepKeepsPassports(cfg, s, e);
    StepKeepsTokens(cfg, s, e);
    StepKeepsGrants(cfg, s, e);
    StepKeepsJustified(cfg, s, e);
    StepKeepsBalance(cfg, s, e);
    StepKeepsGuards(cfg, s, e);
  }

  lemma RunStepInv(cfg: Config, states: seq<State>, events: seq<Event>, k: nat)
    requires Run(cfg, states, events) && 0 < k < |states| && Inv(cfg, states[k - 1])
    ensures Inv(cfg, states[k])
  {
    assert StepAt(cfg, states, events, k - 1);
    hide Inv, Run, Step, Fresh;
    StepInv(cfg, states[k - 1], events[k - 1]);
  }

  lemma RunStartInv(cfg: Config, states: seq<State>, events: seq<Event>)
    requires Run(cfg, states, events)
    ensures Inv(cfg, states[0])
  {
    StartInv(cfg, states[0].now);
  }

  lemma {:induction false} RunInv(cfg: Config, states: seq<State>, events: seq<Event>, k: nat)
    requires Run(cfg, states, events) && k < |states|
    ensures Inv(cfg, states[k])
  {
    hide Inv, Run;
    if k == 0 {
      RunStartInv(cfg, states, events);
    } else {
      RunInv(cfg, states, events, k - 1);
      RunStepInv(cfg, states, events, k);
    }
  }

  /** What a later state keeps of an earlier one: nothing is withdrawn. */
  ghost predicate Later(s: State, t: State) {
    && s.revocations <= t.revocations && s.log <= t.log
    && SameLineage(s.passports, t.passports) && SameTokens(s.tokens, t.tokens)
  }

  lemma StepIsLater(cfg: Config, s: State, e: Event)
    requires Inv(cfg, s) && Fresh(s, e)
    ensures Later(s, Step(cfg, s, e))
  {
    StepGrows(cfg, s, e);
    StepAppends(cfg, s, e);
    StepKeepsLineage(cfg, s, e);
    StepKeepsTokenRecords(cfg, s, e);
  }

  lemma LaterIsTransitive(s: State, t: State, u: State)
    requires Later(s, t) && Later(t, u)
    ensures Later(s, u)
  {
  }

  lemma RunStepLater(cfg: Config, states: seq<State>, events: seq<Event>, k: nat)
    requires Run(cfg, states, events) && k < |events|
    ensures Later(states[k], states[k + 1])
  {
    RunInv(cfg, states, events, k);
    assert StepAt(cfg, states, events, k);
    StepIsLater(cfg, states[k], events[k]);
  }

  lemma {:induction false} RunGrows(cfg: Config, states: seq<State>, events: seq<Event>, i: nat, j: nat)
    requires Run(cfg, states, events) && i <= j < |states|
    ensures Later(states[i], states[j])
    decreases j - i
  {
    if i < j {
      RunGrows(cfg, states, events, i, j - 1);
      RunStepLater(cfg, states, events, j - 1);
      LaterIsTransitive(states[i], states[j - 1], states[j]);
    }
  }

  // ----- Justified execution -----

  /** Every executed receipt of a run names an earlier grant: an allow receipt that minted its
      credential, or an approval with a quorum of distinct approvers that did. */
  lemma ExecutionsAreJustified(cfg: Config, states: seq<State>, events: seq<Event>, k: nat, n: nat)
    requires Run(cfg, states, events) && k < |states|
    requires n < |states[k].log| && states[k].log[n].decision == Executed
    ensures Justified(states[k].log[..n], states[k].approvals, states[k].log[n])
    ensures var r := states[k].log[n];
            r.approvalId.Some? ==>
              && r.approvalId.value in states[k].approvals
              && var ap := states[k].approvals[r.approvalId.value];
                 Distinct(ap.approvers) && |ap.approvers| == ap.quorum >= 1
  {
    RunInv(cfg, states, events, k);
    var r := states[k].log[n];
    assert Justified(states[k].log[..n], states[k].approvals, r);
    if r.approvalId.Some? { assert ApprovalOk(states[k].approvals[r.approvalId.value]); }
  }

  /** And only a step that executes writes one. */
  lemma ExecutedReceiptsComeFromExecute(cfg: Config, states: seq<State>, events: seq<Event>, k: nat)
    requires Run(cfg, states, events) && k < |events|
    requires |states[k + 1].log| > |states[k].log| && states[k + 1].log[|states[k].log|].decision == Executed
    ensures events[k].Execute?
  {
    assert StepAt(cfg, states, events, k);
    if !events[k].Execute? { OnlyExecuteExecutes(cfg, states[k], events[k]); }
  }

  // ----- Single use -----

  lemma RunStepOnce(cfg: Config, states: seq<State>, events: seq<Event>, k: nat)
    requires Run(cfg, states, events) && k < |events| && WindowCloses(cfg)
    requires Traceable(states[k].sealed, states[k].log) && ExecutedOnce(states[k].log)
    ensures Traceable(states[k + 1].sealed, states[k + 1].log) && ExecutedOnce(states[k + 1].log)
  {
    RunInv(cfg, states, events, k);
    assert StepAt(cfg, states, events, k);
    StepKeepsOnce(cfg, states[k], events[k]);
  }

  /** With the intent window and the skew inside ten minutes, no run executes an intent or a
      credential twice, although the replay map forgets. */
  lemma {:induction false} RunOnce(cfg: Config, states: seq<State>, events: seq<Event>, k: nat)
    requires Run(cfg, states, events) && k < |states| && WindowCloses(cfg)
    ensures Traceable(states[k].sealed, states[k].log) && ExecutedOnce(states[k].log)
  {
    if k > 0 {
      RunOnce(cfg, states, events, k - 1);
      RunStepOnce(cfg, states, events, k - 1);
    }
  }

  // ----- Budgets -----

  /** In every state of a run, what is stored as spent on a token is the sum of its executions
      and stays within its cap. */
  lemma BudgetsAreConserved(cfg: Config, states: seq<State>, events: seq<Event>, k: nat, jti: Id)
    requires Run(cfg, states, events) && k < |states| && jti in states[k].tokens
    ensures var t := states[k].tokens[jti]; t.spent == SpentOn(states[k].log, jti) <= t.constraints.maxSpend
  {
    RunInv(cfg, states, events, k);
    assert TokenOk(states[k].passports, states[k].tokens, jti);
  }

  // ----- Chains -----

  /** A token, its parent, the parent's parent, as far as the path goes. */
  ghost predicate TokenPath(tokens: map<Id, Token>, path: seq<Id>) {
    && |path| > 0
    && (forall n :: 0 <= n < |path| ==> path[n] in tokens)
    && forall n :: 0 <= n < |path| - 1 ==> tokens[path[n]].parent == Some(path[n + 1])
  }

  ghost predicate PassportPath(ps: map<Id, Passport>, path: seq<Id>) {
    && |path| > 0
    && (forall n :: 0 <= n < |path| ==> path[n] in ps)
    && forall n :: 0 <= n < |path| - 1 ==> ps[path[n]].parent == Some(path[n + 1])
  }

  /** The limits of a token against those of an ancestor `steps` links up. */
  ghost predicate Within(t: Token, ancestor: Token, steps: nat) {
    var c, a := t.constraints, ancestor.constraints;
    && c.maxSpend <= a.maxSpend && c.maxDepth <= a.maxDepth
    && (a.notAfter.Some? ==> c.notAfter.Some? && c.notAfter.value <= a.notAfter.value)
    && (a.requireApproval ==> c.requireApproval)
    && t.depth == ancestor.depth + steps
  }

  lemma {:induction false} ChainNarrows(ps: map<Id, Passport>, tokens: map<Id, Token>, path: seq<Id>)
    requires TokensOk(ps, tokens) && TokenPath(tokens, path)
    ensures Within(tokens[path[0]], tokens[path[|path| - 1]], |path| - 1)
  {
    if |path| > 1 {
      assert TokenPath(tokens, path[1..]);
      ChainNarrows(ps, tokens, path[1..]);
      assert TokenOk(ps, tokens, path[0]);
    }
  }

  lemma {:induction false} ChainCovers(ps: map<Id, Passport>, tokens: map<Id, Token>, path: seq<Id>,
                                       action: string, resource: string, destination: string)
    requires TokensOk(ps, tokens) && TokenPath(tokens, path)
    requires TokenCovers(tokens[path[0]], action, resource, destination)
    requires forall n :: 0 <= n < |path| - 1 ==>
             CarriesAll(tokens[path[n]], tokens[path[n + 1]], action, resource, destination)
    ensures TokenCovers(tokens[path[|path| - 1]], action, resource, destination)
  {
    if |path| > 1 {
      assert TokenOk(ps, tokens, path[0]);
      assert Narrows(tokens[path[0]], tokens[path[1]]);
      NarrowerCoversLess(tokens[path[0]], tokens[path[1]], action, resource, destination);
      assert TokenPath(tokens, path[1..]);
      ChainCovers(ps, tokens, path[1..], action, resource, destination);
    }
  }

  /** In every reachable store, along every chain of parents: no limit is wider than the
      ancestor's, the depth counts the links, and no chain has more than five tokens. */
  lemma AuthorityOnlyNarrows(cfg: Config, states: seq<State>, events: seq<Event>, k: nat, path: seq<Id>)
    requires Run(cfg, states, events) && k < |states| && TokenPath(states[k].tokens, path)
    ensures var tokens := states[k].tokens;
            && Within(tokens[path[0]], tokens[path[|path| - 1]], |path| - 1)
            && |path| <= MAX_DEPTH + 1
            && (tokens[path[|path| - 1]].parent.None? ==> tokens[path[0]].depth == |path| - 1)
  {
    var s := states[k];
    RunInv(cfg, states, events, k);
    ChainNarrows(s.passports, s.tokens, path);
    assert TokenOk(s.passports, s.tokens, path[0]);
    assert TokenOk(s.passports, s.tokens, path[|path| - 1]);
  }

  /** Whatever a token covers, each of its ancestors covers: operations without line terminators,
      and all of them where the patterns along the chain agree in theirs. */
  lemma AncestorsCoverToo(cfg: Config, states: seq<State>, events: seq<Event>, k: nat, path: seq<Id>,
                          action: string, resource: string, destination: string)
    requires Run(cfg, states, events) && k < |states| && TokenPath(states[k].tokens, path)
    requires TokenCovers(states[k].tokens[path[0]], action, resource, destination)
    requires var ts := states[k].tokens;
             forall n :: 0 <= n < |path| - 1 ==> CarriesAll(ts[path[n]], ts[path[n + 1]], action, resource, destination)
    ensures TokenCovers(states[k].tokens[path[|path| - 1]], action, resource, destination)
  {
    RunInv(cfg, states, events, k);
    ChainCovers(states[k].passports, states[k].tokens, path, action, resource, destination);
  }

  // ----- The cycle checks never fire -----

  lemma {:induction false} NoPassportCycle(s: State, id: Id, trail: set<Id>, rank: map<Id, nat>)
    requires Ranked(s.passports, rank) && id in s.passports
    requires forall x :: x in trail ==> x in s.passports && rank[x] > rank[id]
    ensures AssertPassportUsable(s, id, trail) != Err(PassportInvalid)
    decreases rank[id]
  {
    var p := s.passports[id];
    if p.parent.Some? && id !in trail {
      NoPassportCycle(s, p.parent.value, trail + {id}, rank);
    }
  }

  lemma {:induction false} NoTokenCycle(s: State, jti: Id, trail: set<Id>)
    requires TokensOk(s.passports, s.tokens) && jti in s.tokens
    requires forall x :: x in trail ==> x in s.tokens && s.tokens[x].depth > s.tokens[jti].depth
    ensures AssertTokenUsable(s, jti, trail) != Err(TokenMalformed)
    decreases s.tokens[jti].depth
  {
    var t := s.tokens[jti];
    assert TokenOk(s.passports, s.tokens, jti);
    PassportNeverMalformed(s, t.sub, {});
    if t.parent.Some? && jti !in trail {
      NoTokenCycle(s, t.parent.value, trail + {jti});
    }
  }

  lemma {:induction false} PassportNeverMalformed(s: State, id: Id, trail: set<Id>)
    ensures AssertPassportUsable(s, id, trail) != Err(TokenMalformed)
    decreases s.passports.Keys - trail
  {
    if id in s.passports && id !in trail {
      assert id in s.passports.Keys - trail;
      var p := s.passports[id];
      if p.parent.Some? { PassportNeverMalformed(s, p.parent.value, trail + {id}); }
    }
  }

  /** In a reachable store neither hierarchy has a cycle: the two checks for one are dead. */
  lemma CycleChecksNeverFire(cfg: Config, states: seq<State>, events: seq<Event>, k: nat)
    requires Run(cfg, states, events) && k < |states|
    ensures forall id :: id in states[k].passports ==> AssertPassportUsable(states[k], id, {}) != Err(PassportInvalid)
    ensures forall jti :: jti in states[k].tokens ==> AssertTokenUsable(states[k], jti, {}) != Err(TokenMalformed)
  {
    RunInv(cfg, states, events, k);
    var s := states[k];
    var rank :| Ranked(s.passports, rank);
    forall id | id in s.passports ensures AssertPassportUsable(s, id, {}) != Err(PassportInvalid) {
      NoPassportCycle(s, id, {}, rank);
    }
    forall jti | jti in s.tokens ensures AssertTokenUsable(s, jti, {}) != Err(TokenMalformed) {
      NoTokenCycle(s, jti, {});
    }
  }

  // ----- Revocation -----

  ghost predicate PassportUnrevoked(s: State, revocations: set<Revocation>, id: Id)
    requires id in s.passports
  {
    && PassportRevocation(id) !in revocations
    && (s.passports[id].blueprint.Some? ==> BlueprintRevocation(s.passports[id].blueprint.value) !in revocations)
  }

  lemma {:induction false} UsableLineage(s: State, path: seq<Id>, trail: set<Id>)
    requires PassportPath(s.passports, path) && AssertPassportUsable(s, path[0], trail).Ok?
    ensures forall n :: 0 <= n < |path| ==> PassportUnrevoked(s, s.revocations, path[n])
    decreases |path|
  {
    if |path| > 1 {
      assert PassportPath(s.passports, path[1..]);
      assert s.passports[path[0]].parent == Some(path[1]);
      UsableLineage(s, path[1..], trail + {path[0]});
      forall n | 0 <= n < |path| ensures PassportUnrevoked(s, s.revocations, path[n]) {
        if n > 0 { assert path[n] == path[1..][n - 1]; }
      }
    }
  }

  lemma {:induction false} UsableChain(s: State, path: seq<Id>, trail: set<Id>)
    requires TokenPath(s.tokens, path) && AssertTokenUsable(s, path[0], trail).Ok?
    ensures forall n :: 0 <= n < |path| ==>
              TokenRevocation(path[n]) !in s.revocations && AssertPassportUsable(s, s.tokens[path[n]].sub, {}).Ok?
    decreases |path|
  {
    if |path| > 1 {
      assert TokenPath(s.tokens, path[1..]);
      assert s.tokens[path[0]].parent == Some(path[1]);
      UsableChain(s, path[1..], trail + {path[0]});
      forall n | 0 <= n < |path|
        ensures TokenRevocation(path[n]) !in s.revocations && AssertPassportUsable(s, s.tokens[path[n]].sub, {}).Ok?
      {
        if n > 0 { assert path[n] == path[1..][n - 1]; }
      }
    }
  }

  /** Step `j` executes a credential. */
  ghost predicate ExecutesAt(cfg: Config, states: seq<State>, events: seq<Event>, j: nat)
    requires j < |events| && |states| == |events| + 1
  {
    && events[j].Execute?
    && ExecuteOutcome(cfg, states[j], events[j].credential, events[j].intent, events[j].approval).Done?
  }

  /** Revocation of a token is permanent and cascades: an execution at step `j` proves that no
      token of its chain had been revoked at any step up to `j`. */
  lemma RevokedTokensNeverExecute(cfg: Config, states: seq<State>, events: seq<Event>, i: nat, j: nat, path: seq<Id>)
    requires Run(cfg, states, events) && i <= j < |events| && ExecutesAt(cfg, states, events, j)
    requires TokenPath(states[j].tokens, path) && events[j].credential.ActionCredential?
    requires events[j].credential.token == Some(path[0])
    ensures forall n :: 0 <= n < |path| ==> TokenRevocation(path[n]) !in states[i].revocations
  {
    RunGrows(cfg, states, events, i, j);
    DonePassed(cfg, states[j], events[j].credential, events[j].intent, events[j].approval);
    UsableChain(states[j], path, {});
  }

  /** Revocation of a passport, or of a blueprint, is permanent and cascades: to the subject of
      the credential, to the subject of every token of its chain, and from every ancestor of
      these, whatever the status fields were set to in between. */
  lemma RevokedPassportsNeverExecute(cfg: Config, states: seq<State>, events: seq<Event>, i: nat, j: nat,
                                     chain: seq<Id>, lineage: seq<Id>)
    requires Run(cfg, states, events) && i <= j < |events| && ExecutesAt(cfg, states, events, j)
    requires events[j].credential.ActionCredential? && PassportPath(states[j].passports, lineage)
    requires || lineage[0] == events[j].intent.passport
             || (&& TokenPath(states[j].tokens, chain) && events[j].credential.token == Some(chain[0])
                 && exists n :: 0 <= n < |chain| && states[j].tokens[chain[n]].sub == lineage[0])
    ensures forall m :: 0 <= m < |lineage| ==> PassportUnrevoked(states[j], states[i].revocations, lineage[m])
  {
    var s := states[j];
    RunGrows(cfg, states, events, i, j);
    DonePassed(cfg, s, events[j].credential, events[j].intent, events[j].approval);
    if lineage[0] != events[j].intent.passport {
      UsableChain(s, chain, {});
      var n :| 0 <= n < |chain| && s.tokens[chain[n]].sub == lineage[0];
    }
    UsableLineage(s, lineage, {});
    forall m | 0 <= m < |lineage| ensures PassportUnrevoked(s, states[i].revocations, lineage[m]) {
      assert PassportUnrevoked(s, s.revocations, lineage[m]);
    }
  }

  /** Chains do not change once they exist, so the chain at the time of revocation is the one
      at the time of execution. */
  lemma ChainsAreStable(cfg: Config, states: seq<State>, events: seq<Event>, i: nat, j: nat, path: seq<Id>)
    requires Run(cfg, states, events) && i <= j < |states|
    ensures TokenPath(states[i].tokens, path) ==> TokenPath(states[j].tokens, path)
    ensures PassportPath(states[i].passports, path) ==> PassportPath(states[j].passports, path)
  {
    RunGrows(cfg, states, events, i, j);
  }

  // ----- Approvals -----

  /** A record against a later version of itself: the same request, more approvers, and frozen
      once it is resolved. */
  ghost predicate ApprovalLater(a: Approval, b: Approval) {
    && b.intent == a.intent && b.token == a.token && b.quorum == a.quorum
    && a.approvers <= b.approvers
    && (Terminal(a.status) ==> b == a)
    && (b.status == ApPending ==> a.status == ApPending)
  }

  /** Between any two states of a run the record only moves forward, and in each it is in
      order: approvers distinct, status in step with their number. */
  lemma {:induction false} ApprovalHistory(cfg: Config, states: seq<State>, events: seq<Event>, i: nat, j: nat, id: Id)
    requires Run(cfg, states, events) && i <= j < |states| && id in states[i].approvals
    ensures id in states[j].approvals && ApprovalOk(states[j].approvals[id])
    ensures ApprovalLater(states[i].approvals[id], states[j].approvals[id])
    decreases j - i
  {
    hide Run, ApprovalOk;
    if i < j {
      ApprovalHistory(cfg, states, events, i, j - 1, id);
      ApprovalMoves(cfg, states, events, j - 1, id);
      ApprovalForward(states[i].approvals[id], states[j - 1].approvals[id], states[j].approvals[id]);
    }
    RecordsInOrder(cfg, states, events, j, id);
  }

  lemma RecordsInOrder(cfg: Config, states: seq<State>, events: seq<Event>, k: nat, id: Id)
    requires Run(cfg, states, events) && k < |states| && id in states[k].approvals
    ensures ApprovalOk(states[k].approvals[id])
  {
    RunInv(cfg, states, events, k);
  }

  lemma ApprovalForward(a: Approval, b: Approval, c: Approval)
    requires ApprovalLater(a, b) && ApprovalStep(b, c)
    ensures ApprovalLater(a, c)
  {
  }

  lemma ApprovalMoves(cfg: Config, states: seq<State>, events: seq<Event>, k: nat, id: Id)
    requires Run(cfg, states, events) && k + 1 < |states| && id in states[k].approvals
    ensures id in states[k + 1].approvals && ApprovalStep(states[k].approvals[id], states[k + 1].approvals[id])
  {
    RunInv(cfg, states, events, k);
    assert StepAt(cfg, states, events, k);
    StepKeepsApprovals(cfg, states[k], events[k]);
  }

  /** A record becomes approved exactly in the step in which its approvers first reach the
      quorum. */
  lemma ApprovedExactlyAtQuorum(cfg: Config, states: seq<State>, events: seq<Event>, k: nat, id: Id)
    requires Run(cfg, states, events) && k < |events| && id in states[k].approvals
    requires states[k].approvals[id].status != ApApproved
    ensures id in states[k + 1].approvals
    ensures states[k + 1].approvals[id].status == ApApproved
       <==> |states[k].approvals[id].approvers|
            < |states[k + 1].approvals[id].approvers| == states[k].approvals[id].quorum
  {
    ApprovalMoves(cfg, states, events, k, id);
  }

  /** At most one action credential per approval, and one approval per action credential. */
  lemma OneCredentialPerApproval(cfg: Config, states: seq<State>, events: seq<Event>, k: nat, c: Credential,
      d: Credential)
    requires Run(cfg, states, events) && k < |states|
    requires c in states[k].sealed && c.ActionCredential? && c.requiresApproval
    requires d in states[k].sealed && d.ActionCredential? && d.requiresApproval
    ensures exists id :: ByApproval(states[k].log, states[k].approvals, id, c.intent, c.jti, c.token)
    ensures forall x, y ::
              && ByApproval(states[k].log, states[k].approvals, x, c.intent, c.jti, c.token)
              && ByApproval(states[k].log, states[k].approvals, y, d.intent, d.jti, d.token)
              ==> (x == y <==> c == d)
  {
    RunInv(cfg, states, events, k);
    assert ActionOk(c, states[k].approvals, states[k].log);
  }
}
