/** Which revocations last. A revocation lasts if in no continuation of the run what it names is
    accepted again. */
module GatewayRevocations {
  import opened Prelude
  import opened Delegation
  import opened Gateway
  import opened GatewayInvariants
  import opened GatewayTheorems
  import opened GatewayExact

  // ----- Continuations -----

  /** Where a sequence of events leads. */
  function Play(cfg: Config, s: State, events: seq<Event>): State
    decreases |events|
  {
    if events == [] then s else Play(cfg, Step(cfg, s, events[0]), events[1..])
  }

  ghost predicate Possible(cfg: Config, s: State, events: seq<Event>)
    decreases |events|
  {
    events == [] || (Fresh(s, events[0]) && Possible(cfg, Step(cfg, s, events[0]), events[1..]))
  }

  ghost predicate EndsIn(cfg: Config, states: seq<State>, events: seq<Event>, s: State) {
    Run(cfg, states, events) && states[|events|] == s
  }

  ghost predicate Reachable(cfg: Config, s: State) {
    exists states, events :: EndsIn(cfg, states, events, s)
  }

  lemma ReachableInv(cfg: Config, s: State)
    requires Reachable(cfg, s)
    ensures Inv(cfg, s) && AllInOrder(s.passports)
  {
    hide Inv, AllInOrder, StepAt;
    var states, events :| EndsIn(cfg, states, events, s);
    RunInOrder(cfg, states, events, |events|);
    RunInv(cfg, states, events, |events|);
  }

  lemma {:induction false} PlayGrows(cfg: Config, s: State, events: seq<Event>)
    requires Inv(cfg, s) && Possible(cfg, s, events)
    ensures Later(s, Play(cfg, s, events))
    decreases |events|
  {
    hide Step, Fresh, Inv, Later;
    if events == [] {
      LaterIsReflexive(s);
    } else {
      var t := Step(cfg, s, events[0]);
      StepInv(cfg, s, events[0]);
      StepIsLater(cfg, s, events[0]);
      PlayGrows(cfg, t, events[1..]);
      LaterIsTransitive(s, t, Play(cfg, t, events[1..]));
    }
  }

  lemma LaterIsReflexive(s: State)
    ensures Later(s, s)
  {
  }

  /** One event, played. */
  lemma PlayOne(cfg: Config, s: State, e: Event)
    requires Fresh(s, e)
    ensures Possible(cfg, s, [e]) && Play(cfg, s, [e]) == Step(cfg, s, e)
  {
    hide Step, Fresh;
    assert [e][1..] == [];
    assert Possible(cfg, Step(cfg, s, e), []);
    assert Play(cfg, Step(cfg, s, e), []) == Step(cfg, s, e);
  }

  lemma JoinedIsOther(id: Id, kid: Id)
    ensures Joined(id, kid) == id <==> kid == ""
  {
    if kid != "" { assert |Joined(id, kid)| > |id|; }
  }

  lemma PlayNone(cfg: Config, s: State)
    ensures Possible(cfg, s, []) && Play(cfg, s, []) == s
  {
  }

  lemma StoreInOrder(cfg: Config, s: State)
    requires Inv(cfg, s)
    ensures PassportsOk(s.passports) && TokensOk(s.passports, s.tokens)
  {
    hide PassportsOk, TokensOk;
  }

  lemma AsRevoke(cfg: Config, s: State, r: Revocation, kid: Id, org: Id)
    ensures Step(cfg, s, Revoke(r, kid, org)) == RevokeStep(s, r, kid, org) && Fresh(s, Revoke(r, kid, org))
  {
    hide RevokeStep;
  }

  // ----- Delegation tokens -----

  /** A token of the chain is called as the revocation is recorded. */
  ghost predicate OnChain(s: State, jti: Id, name: Id) {
    exists path :: TokenPath(s.tokens, path) && path[0] == jti && path[|path| - 1] == name
  }

  /** Whatever happens, the token stays unusable. */
  ghost predicate TokenGone(cfg: Config, s: State, jti: Id) {
    forall events | Possible(cfg, s, events) :: AssertTokenUsable(Play(cfg, s, events), jti, {}).Err?
  }

  /** The revocation of a usable token lasts exactly if the request carries no key number, or the
      joined name is by chance that of a token of the chain. */
  lemma TokenRevocationLasts(cfg: Config, s: State, jti: Id, kid: Id, org: Id)
    requires Reachable(cfg, s) && jti in s.tokens && AssertTokenUsable(s, jti, {}).Ok?
    ensures TokenGone(cfg, Step(cfg, s, Revoke(TokenRevocation(jti), kid, org)), jti) <==>
            OnChain(s, jti, Joined(jti, kid))
    ensures kid == "" ==> OnChain(s, jti, Joined(jti, kid))
  {
    hide Reachable, AssertTokenUsable, Step, Inv, TokenPath, AllInOrder, Play, Possible;
    ReachableInv(cfg, s);
    TokenRevoked(cfg, s, jti, kid, org);
    OwnChain(s.tokens, jti);
    var t := Step(cfg, s, Revoke(TokenRevocation(jti), kid, org));
    if OnChain(s, jti, Joined(jti, kid)) {
      forall events | Possible(cfg, t, events) ensures AssertTokenUsable(Play(cfg, t, events), jti, {}).Err? {
        RevokedTokenStays(cfg, s, jti, kid, org, events);
      }
    } else {
      OthersStayFit(cfg, s, jti, kid, org);
      PlayNone(cfg, t);
    }
  }

  lemma OwnChain(tokens: map<Id, Token>, jti: Id)
    requires jti in tokens
    ensures TokenPath(tokens, [jti]) && [jti][0] == jti && [jti][|[jti]| - 1] == jti
  {
  }

  lemma TokenRevoked(cfg: Config, s: State, jti: Id, kid: Id, org: Id)
    requires jti in s.tokens
    ensures var t := Step(cfg, s, Revoke(TokenRevocation(jti), kid, org));
            t == s.(revocations := s.revocations + {TokenRevocation(Joined(jti, kid))}, log := t.log)
  {
    AsRevoke(cfg, s, TokenRevocation(jti), kid, org);
    hide Step, Joined;
  }

  lemma RevokedTokenStays(cfg: Config, s: State, jti: Id, kid: Id, org: Id, events: seq<Event>)
    requires Inv(cfg, s) && jti in s.tokens && OnChain(s, jti, Joined(jti, kid))
    requires Possible(cfg, Step(cfg, s, Revoke(TokenRevocation(jti), kid, org)), events)
    ensures AssertTokenUsable(Play(cfg, Step(cfg, s, Revoke(TokenRevocation(jti), kid, org)), events), jti, {}).Err?
  {
    var e := Revoke(TokenRevocation(jti), kid, org);
    AsRevoke(cfg, s, TokenRevocation(jti), kid, org);
    hide Step, Inv, Fresh;
    StepInv(cfg, s, e);
    TokenRevoked(cfg, s, jti, kid, org);
    hide AssertTokenUsable, Step, Inv, Play, Possible, AssertPassportUsable, Fresh;
    var t := Play(cfg, Step(cfg, s, e), events);
    PlayGrows(cfg, Step(cfg, s, e), events);
    var path :| TokenPath(s.tokens, path) && path[0] == jti && path[|path| - 1] == Joined(jti, kid);
    assert TokenPath(t.tokens, path);
    if AssertTokenUsable(t, jti, {}).Ok? { UsableChain(t, path, {}); }
  }

  lemma OthersStayFit(cfg: Config, s: State, jti: Id, kid: Id, org: Id)
    requires Inv(cfg, s) && jti in s.tokens && AssertTokenUsable(s, jti, {}).Ok? && !OnChain(s, jti, Joined(jti, kid))
    ensures AssertTokenUsable(Step(cfg, s, Revoke(TokenRevocation(jti), kid, org)), jti, {}).Ok?
  {
    StoreInOrder(cfg, s);
    hide Step, Inv, PassportsOk, TokensOk, AssertTokenUsable, ChainFit, OnChain, Joined;
    var t := Step(cfg, s, Revoke(TokenRevocation(jti), kid, org));
    TokenRevoked(cfg, s, jti, kid, org);
    UsableTokenExactly(s, jti);
    UsableTokenExactly(t, jti);
    ChainStaysFit(s, t, jti, Joined(jti, kid));
  }

  lemma ChainStaysFit(s: State, t: State, jti: Id, name: Id)
    requires t == s.(revocations := s.revocations + {TokenRevocation(name)}, log := t.log)
    requires ChainFit(s, jti) && !OnChain(s, jti, name)
    ensures ChainFit(t, jti)
  {
    hide LineageHealthy;
    forall path | TokenPath(t.tokens, path) && path[0] == jti ensures Fit(t, path[|path| - 1]) {
      assert TokenPath(s.tokens, path) && Fit(s, path[|path| - 1]);
      SameHealth(s, t, s.tokens[path[|path| - 1]].sub);
    }
  }

  lemma SameHealth(s: State, t: State, id: Id)
    requires t.passports == s.passports && t.orgs == s.orgs && t.blueprints == s.blueprints && t.now == s.now
    requires forall x :: PassportRevocation(x) in t.revocations <==> PassportRevocation(x) in s.revocations
    requires forall x :: BlueprintRevocation(x) in t.revocations <==> BlueprintRevocation(x) in s.revocations
    ensures LineageHealthy(t, id) <==> LineageHealthy(s, id)
  {
    forall x ensures Healthy(t, x) <==> Healthy(s, x) {}
  }

  // ----- Passports -----

  ghost predicate OnLineage(s: State, id: Id, name: Id) {
    exists path :: PassportPath(s.passports, path) && path[0] == id && path[|path| - 1] == name
  }

  ghost predicate PassportGone(cfg: Config, s: State, id: Id) {
    forall events | Possible(cfg, s, events) :: AssertPassportUsable(Play(cfg, s, events), id, {}).Err?
  }

  /** The same for a usable passport: otherwise a status change makes it usable again. */
  lemma PassportRevocationLasts(cfg: Config, s: State, id: Id, kid: Id, org: Id)
    requires Reachable(cfg, s) && AssertPassportUsable(s, id, {}).Ok?
    ensures PassportGone(cfg, Step(cfg, s, Revoke(PassportRevocation(id), kid, org)), id) <==>
            OnLineage(s, id, Joined(id, kid))
    ensures kid == "" ==> OnLineage(s, id, Joined(id, kid))
  {
    hide Reachable, AssertPassportUsable, Step, Inv, OnLineage, Play, Possible, AllInOrder;
    UsableActive(s, id);
    ReachableInv(cfg, s);
    OwnLineage(s, id);
    var t := Step(cfg, s, Revoke(PassportRevocation(id), kid, org));
    if OnLineage(s, id, Joined(id, kid)) {
      forall events | Possible(cfg, t, events) ensures AssertPassportUsable(Play(cfg, t, events), id, {}).Err? {
        RevokedPassportStays(cfg, s, id, kid, org, events);
      }
    } else {
      var back := SetStatus(id, s.passports[id].status);
      assert Fresh(t, back);
      PlayOne(cfg, t, back);
      hide Fresh;
      StatusComesBack(cfg, s, id, kid, org);
      assert AssertPassportUsable(Play(cfg, t, [back]), id, {}).Ok?;
    }
  }

  lemma OwnLineage(s: State, id: Id)
    requires id in s.passports
    ensures OnLineage(s, id, Joined(id, ""))
  {
    OwnPath(s.passports, id);
    assert [id][|[id]| - 1] == id;
  }

  lemma PassportRevoked(cfg: Config, s: State, id: Id, kid: Id, org: Id)
    requires id in s.passports
    ensures var t := Step(cfg, s, Revoke(PassportRevocation(id), kid, org));
            t == s.(passports := s.passports[id := s.passports[id].(status := Status.Revoked)],
                    revocations := s.revocations + {PassportRevocation(Joined(id, kid))}, log := t.log)
  {
    AsRevoke(cfg, s, PassportRevocation(id), kid, org);
    hide Step, Joined;
  }

  lemma RevokedPassportStays(cfg: Config, s: State, id: Id, kid: Id, org: Id, events: seq<Event>)
    requires Inv(cfg, s) && id in s.passports && OnLineage(s, id, Joined(id, kid))
    requires Possible(cfg, Step(cfg, s, Revoke(PassportRevocation(id), kid, org)), events)
    ensures AssertPassportUsable(Play(cfg, Step(cfg, s, Revoke(PassportRevocation(id), kid, org)), events), id, {}).Err?
  {
    var e := Revoke(PassportRevocation(id), kid, org);
    AsRevoke(cfg, s, PassportRevocation(id), kid, org);
    hide Step, Inv, Fresh;
    StepInv(cfg, s, e);
    StepIsLater(cfg, s, e);
    PassportRevoked(cfg, s, id, kid, org);
    hide AssertPassportUsable, Step, Inv, Play, Possible, Fresh;
    var t := Play(cfg, Step(cfg, s, e), events);
    PlayGrows(cfg, Step(cfg, s, e), events);
    var path :| PassportPath(s.passports, path) && path[0] == id && path[|path| - 1] == Joined(id, kid);
    assert PassportPath(t.passports, path);
    assert !PassportUnrevoked(t, t.revocations, path[|path| - 1]);
    if AssertPassportUsable(t, id, {}).Ok? { UsableLineage(t, path, {}); }
  }

  lemma StatusComesBack(cfg: Config, s: State, id: Id, kid: Id, org: Id)
    requires Inv(cfg, s) && id in s.passports && AssertPassportUsable(s, id, {}).Ok? &&
             !OnLineage(s, id, Joined(id, kid))
    ensures var t := Step(cfg, s, Revoke(PassportRevocation(id), kid, org));
            AssertPassportUsable(Step(cfg, t, SetStatus(id, s.passports[id].status)), id, {}).Ok?
  {
    StoreInOrder(cfg, s);
    UsableActive(s, id);
    hide Step, Inv, PassportsOk, AssertPassportUsable, LineageHealthy, OnLineage, Joined;
    var t := Step(cfg, s, Revoke(PassportRevocation(id), kid, org));
    var u := Step(cfg, t, SetStatus(id, s.passports[id].status));
    PassportRevoked(cfg, s, id, kid, org);
    StatusSet(cfg, t, id, s.passports[id].status);
    PutBack(s, t, u, id, Joined(id, kid));
    UsablePassportExactly(s, id);
    UsablePassportExactly(u, id);
    LineageStaysHealthy(s, u, id, Joined(id, kid));
  }

  lemma LineageStaysHealthy(s: State, u: State, id: Id, name: Id)
    requires u == s.(revocations := s.revocations + {PassportRevocation(name)}, log := u.log)
    requires LineageHealthy(s, id) && !OnLineage(s, id, name)
    ensures LineageHealthy(u, id)
  {
    forall path | PassportPath(u.passports, path) && path[0] == id ensures Healthy(u, path[|path| - 1]) {
      assert PassportPath(s.passports, path) && Healthy(s, path[|path| - 1]);
    }
  }

  lemma PutBack(s: State, t: State, u: State, id: Id, name: Id)
    requires id in s.passports
    requires t == s.(passports := s.passports[id := s.passports[id].(status := Status.Revoked)],
                     revocations := s.revocations + {PassportRevocation(name)}, log := t.log)
    requires u == t.(passports := t.passports[id := t.passports[id].(status := s.passports[id].status)], log := u.log)
    ensures u == s.(revocations := s.revocations + {PassportRevocation(name)}, log := u.log)
  {
    assert u.passports == s.passports;
  }

  lemma UsableActive(s: State, id: Id)
    requires AssertPassportUsable(s, id, {}).Ok?
    ensures id in s.passports && s.passports[id].status != Status.Revoked
  {
  }

  lemma StatusSet(cfg: Config, s: State, id: Id, status: Status)
    requires id in s.passports && status != Status.Revoked
    ensures var t := Step(cfg, s, SetStatus(id, status));
            t == s.(passports := s.passports[id := s.passports[id].(status := status)], log := t.log)
  {
  }

  // ----- Action credentials -----

  lemma ActionRevoked(cfg: Config, s: State, jti: Id, kid: Id, org: Id)
    requires org != ""
    ensures var e := Revoke(ActionRevocation(jti), kid, org);
            var t := Step(cfg, s, e);
            Fresh(s, e) && t == s.(revocations := s.revocations + {ActionRevocation(Joined(jti, kid))}, log := t.log)
  {
    AsRevoke(cfg, s, ActionRevocation(jti), kid, org);
    hide Step, Joined;
  }

  ghost predicate CredentialGone(cfg: Config, s: State, att: Credential)
    requires att.ActionCredential?
  {
    forall events | Possible(cfg, s, events) :: CredentialChecks(Play(cfg, s, events), att, att.intent).Err?
  }

  /** The same for an acceptable action credential. */
  lemma ActionRevocationLasts(cfg: Config, s: State, att: Credential, kid: Id, org: Id)
    requires Reachable(cfg, s) && att.ActionCredential? && CredentialChecks(s, att, att.intent).Ok? && org != ""
    ensures CredentialGone(cfg, Step(cfg, s, Revoke(ActionRevocation(att.jti), kid, org)), att) <==> kid == ""
  {
    hide Step, Reachable, Inv, AllInOrder, Joined, CredentialChecks, Play, Possible;
    var t := Step(cfg, s, Revoke(ActionRevocation(att.jti), kid, org));
    if kid == "" {
      ReachableInv(cfg, s);
      forall events | Possible(cfg, t, events) ensures CredentialChecks(Play(cfg, t, events), att, att.intent).Err? {
        RevokedActionStays(cfg, s, att, org, events);
      }
    } else {
      OtherActionPasses(cfg, s, att, kid, org);
      PlayNone(cfg, t);
    }
  }

  lemma RevokedActionStays(cfg: Config, s: State, att: Credential, org: Id, events: seq<Event>)
    requires Inv(cfg, s) && att.ActionCredential? && org != ""
    requires Possible(cfg, Step(cfg, s, Revoke(ActionRevocation(att.jti), "", org)), events)
    ensures var t := Step(cfg, s, Revoke(ActionRevocation(att.jti), "", org));
            CredentialChecks(Play(cfg, t, events), att, att.intent).Err?
  {
    hide Step, Inv, Fresh, Play, Possible;
    ActionRevoked(cfg, s, att.jti, "", org);
    StepInv(cfg, s, Revoke(ActionRevocation(att.jti), "", org));
    PlayGrows(cfg, Step(cfg, s, Revoke(ActionRevocation(att.jti), "", org)), events);
  }

  lemma OtherActionPasses(cfg: Config, s: State, att: Credential, kid: Id, org: Id)
    requires att.ActionCredential? && CredentialChecks(s, att, att.intent).Ok? && org != "" && kid != ""
    ensures CredentialChecks(Step(cfg, s, Revoke(ActionRevocation(att.jti), kid, org)), att, att.intent).Ok?
  {
    hide Step, Fresh, Joined;
    ActionRevoked(cfg, s, att.jti, kid, org);
    JoinedIsOther(att.jti, kid);
  }

  // ----- Blueprints -----

  lemma StepKeepsBlueprint(cfg: Config, s: State, e: Event, b: Id)
    requires Fresh(s, e) && b in s.blueprints && s.blueprints[b].revoked
    ensures var t := Step(cfg, s, e); b in t.blueprints && t.blueprints[b].revoked
  {
    hide AdminStep;
    if e.Authorize? || e.Decide? || e.Delegate? || e.Execute? {
      RequestsKeepBlueprints(cfg, s, e);
    } else {
      AdminKeepsBlueprint(s, e, b);
    }
  }

  lemma RequestsKeepBlueprints(cfg: Config, s: State, e: Event)
    requires e.Authorize? || e.Decide? || e.Delegate? || e.Execute?
    ensures Step(cfg, s, e).blueprints == s.blueprints
  {
    hide AdminStep, AuthorizeOutcome, DecideOutcome, DelegateChecks, ExecuteOutcome, DecidedRecord, NewApproval,
      Minted, ExecuteEntry, UsedAfter, Debited;
  }

  lemma AdminKeepsBlueprint(s: State, e: Event, b: Id)
    requires Fresh(s, e) && b in s.blueprints && s.blueprints[b].revoked
    ensures var t := AdminStep(s, e); b in t.blueprints && t.blueprints[b].revoked
  {
    hide IssueChecks, RotateChecks, RevocationOrg, AssertOrgUsable, MarkedPassports, Recorded;
  }

  lemma {:induction false} PlayKeepsBlueprint(cfg: Config, s: State, events: seq<Event>, b: Id)
    requires Possible(cfg, s, events) && b in s.blueprints && s.blueprints[b].revoked
    ensures var t := Play(cfg, s, events); b in t.blueprints && t.blueprints[b].revoked
    decreases |events|
  {
    hide Step, Fresh;
    if events != [] {
      StepKeepsBlueprint(cfg, s, events[0], b);
      PlayKeepsBlueprint(cfg, Step(cfg, s, events[0]), events[1..], b);
    }
  }

  /** The revocation of a blueprint marks its record, which nothing unmarks: with or without a key
      number no passport of the blueprint, old or new, is ever usable again. */
  lemma BlueprintRevocationLasts(cfg: Config, s: State, b: Id, kid: Id, org: Id, events: seq<Event>, id: Id)
    requires b in s.blueprints && Possible(cfg, Step(cfg, s, Revoke(BlueprintRevocation(b), kid, org)), events)
    ensures var t := Play(cfg, Step(cfg, s, Revoke(BlueprintRevocation(b), kid, org)), events);
            id in t.passports && t.passports[id].blueprint == Some(b) ==> AssertPassportUsable(t, id, {}).Err?
  {
    var t := Step(cfg, s, Revoke(BlueprintRevocation(b), kid, org));
    AsRevoke(cfg, s, BlueprintRevocation(b), kid, org);
    hide Step, Play, Possible;
    assert t.blueprints[b].revoked;
    hide RevokeStep;
    PlayKeepsBlueprint(cfg, t, events, b);
  }

  // ----- Organisations -----

  /** The revocation of an organisation locks it, and the lock can be lifted. */
  lemma OrgRevocationLifts(cfg: Config, s: State, o: Id, kid: Id, org: Id)
    requires o in s.orgs
    ensures AssertOrgUsable(Step(cfg, s, Revoke(OrgRevocation(o), kid, org)), o) == Err(OrgLocked)
    ensures AssertOrgUsable(Step(cfg, Step(cfg, s, Revoke(OrgRevocation(o), kid, org)), SetLock(o, false)), o).Ok?
  {
  }

  // ----- Keys -----

  /** Archived keys have lower numbers than the current one. */
  ghost predicate KeysInOrder(p: Passport) {
    forall k :: 0 <= k < |p.history| ==> p.history[k].kid < p.current.kid
  }

  ghost predicate AllInOrder(ps: map<Id, Passport>) {
    forall id :: id in ps ==> KeysInOrder(ps[id])
  }

  /** An archived key that is revoked. */
  ghost predicate Dead(p: Passport, n: nat) {
    && KeysInOrder(p) && n < p.current.kid
    && FindKey(p.history, n).Some? && FindKey(p.history, n).value.revoked
  }

  lemma {:induction false} FindAppended(history: seq<Key>, k: Key, n: nat)
    ensures FindKey(history + [k], n) == if FindKey(history, n).Some? then FindKey(history, n)
            else if k.kid == n then Some(k) else None
  {
    if history == [] {
      assert [] + [k] == [k];
    } else {
      assert (history + [k])[1..] == history[1..] + [k];
      FindAppended(history[1..], k, n);
    }
  }

  lemma {:induction false} MarkedKeys(history: seq<Key>, m: nat, now: int, n: nat)
    ensures var marked := RevokedInHistory(history, m, now);
      && |marked| == |history| && (forall k :: 0 <= k < |history| ==> marked[k].kid == history[k].kid)
      && (FindKey(marked, n).Some? <==> FindKey(history, n).Some?)
      && (FindKey(history, n).Some? && (n == m || FindKey(history, n).value.revoked) ==>
            FindKey(marked, n).value.revoked)
  {
    if history != [] && history[0].kid != m { MarkedKeys(history[1..], m, now, n); }
  }

  lemma {:induction false} NotArchived(history: seq<Key>, n: nat)
    requires forall k :: 0 <= k < |history| ==> history[k].kid != n
    ensures FindKey(history, n).None?
  {
    if history != [] { NotArchived(history[1..], n); }
  }

  lemma {:induction false} Archived(history: seq<Key>, n: nat)
    requires FindKey(history, n).Some?
    ensures exists k :: 0 <= k < |history| && history[k].kid == n
  {
    if history[0].kid == n {
    } else {
      Archived(history[1..], n);
      var k :| 0 <= k < |history[1..]| && history[1..][k].kid == n;
      assert history[k + 1].kid == n;
    }
  }

  /** How a record's keys may change: not at all, by rotation, or by a mark. */
  ghost predicate KeysChange(p: Passport, q: Passport) {
    || (q.current == p.current && q.history == p.history)
    || (exists pub, now :: q == Rotated(p, pub, now))
    || (exists m, now :: WithKeyRevoked(p, m, now) == Ok(q))
  }

  lemma ChangeKeepsOrder(p: Passport, q: Passport, n: nat)
    requires KeysInOrder(p) && KeysChange(p, q)
    ensures KeysInOrder(q) && (Dead(p, n) ==> Dead(q, n))
  {
    if pub, now :| q == Rotated(p, pub, now) {
      FindAppended(p.history, Key(p.current.kid, p.current.pub, false, now + GraceMs(p)), n);
    } else if m, now :| WithKeyRevoked(p, m, now) == Ok(q) {
      MarkedKeys(p.history, m, now, n);
    }
  }

  lemma StepChangesKeys(cfg: Config, s: State, e: Event, id: Id)
    requires Fresh(s, e) && id in s.passports
    ensures var ps := Step(cfg, s, e).passports; id in ps && KeysChange(s.passports[id], ps[id])
  {
    hide Step, RevokeStep, RotateStep, IssueStep, KeysChange;
    StepFrame(cfg, s, e);
    NoChange(s.passports[id]);
    match e
    case RotateKey(x, key, keeper) => RotateChangesKeys(cfg, s, x, key, keeper, id);
    case Revoke(r, kid, org) => RevokeChangesKeys(cfg, s, r, kid, org, id);
    case SetStatus(x, status) => StatusChangesNoKeys(cfg, s, x, status, id);
    case IssuePassport(x, n) => IssueChangesNoKeys(cfg, s, x, n, id);
    case _ =>
  }

  lemma NoChange(p: Passport)
    ensures KeysChange(p, p)
  {
  }

  lemma RotateChangesKeys(cfg: Config, s: State, x: Id, key: KeyField, keeper: Keeper, id: Id)
    requires id in s.passports
    ensures var ps := Step(cfg, s, RotateKey(x, key, keeper)).passports; id in ps && KeysChange(s.passports[id], ps[id])
  {
    hide AssertPassportUsable, Rotated, NextKey;
    NoChange(s.passports[id]);
    if RotateChecks(s, x, key, keeper).Ok? {
      assert RotateChecks(s, x, key, keeper).value ==
        Rotated(s.passports[x], NextKey(s.passports[x], key, keeper).value, s.now);
    }
  }

  lemma RevokeChangesKeys(cfg: Config, s: State, r: Revocation, kid: Id, org: Id, id: Id)
    requires id in s.passports
    ensures var ps := Step(cfg, s, Revoke(r, kid, org)).passports; id in ps && KeysChange(s.passports[id], ps[id])
  {
    AsRevoke(cfg, s, r, kid, org);
    hide Step, RevocationOrg, Recorded, WithKeyRevoked;
    NoChange(s.passports[id]);
  }

  lemma StatusChangesNoKeys(cfg: Config, s: State, x: Id, status: Status, id: Id)
    requires id in s.passports
    ensures var ps := Step(cfg, s, SetStatus(x, status)).passports; id in ps && KeysChange(s.passports[id], ps[id])
  {
    hide Rotated, WithKeyRevoked;
  }

  lemma IssueChangesNoKeys(cfg: Config, s: State, x: Id, n: NewPassport, id: Id)
    requires id in s.passports && x !in s.passports
    ensures var ps := Step(cfg, s, IssuePassport(x, n)).passports; id in ps && KeysChange(s.passports[id], ps[id])
  {
    hide IssueChecks, Rotated, WithKeyRevoked;
  }

  lemma NewKeysInOrder(s: State, id: Id, n: NewPassport)
    requires IssueChecks(s, id, n).Ok?
    ensures KeysInOrder(IssueChecks(s, id, n).value)
  {
    hide AssertPassportUsable, AssertOrgUsable, NotBlank, Utf16Length;
  }

  lemma StepKeepsOrder(cfg: Config, s: State, e: Event)
    requires Fresh(s, e) && AllInOrder(s.passports)
    ensures AllInOrder(Step(cfg, s, e).passports)
  {
    var ps := Step(cfg, s, e).passports;
    forall id | id in ps ensures KeysInOrder(ps[id]) {
      if id in s.passports {
        StepChangesKeys(cfg, s, e, id);
        hide Step, KeysInOrder, KeysChange;
        ChangeKeepsOrder(s.passports[id], ps[id], 0);
      } else {
        hide KeysInOrder, IssueChecks, Fresh;
        StepKeepsLineageKeys(cfg, s, e);
        NewKeysInOrder(s, e.id, e.passport);
      }
    }
  }

  /** Only issuing brings new records. */
  lemma StepKeepsLineageKeys(cfg: Config, s: State, e: Event)
    requires Fresh(s, e)
    ensures var ps := Step(cfg, s, e).passports;
            if e.IssuePassport? && IssueChecks(s, e.id, e.passport).Ok?
            then ps == s.passports[e.id := IssueChecks(s, e.id, e.passport).value] else ps.Keys == s.passports.Keys
  {
    StepKeepsLineage(cfg, s, e);
    hide IssueChecks;
  }

  lemma {:induction false} RunInOrder(cfg: Config, states: seq<State>, events: seq<Event>, k: nat)
    requires Run(cfg, states, events) && k < |states|
    ensures AllInOrder(states[k].passports)
  {
    hide Step, AllInOrder;
    if k == 0 {
      NoKeys();
    } else {
      RunInOrder(cfg, states, events, k - 1);
      assert StepAt(cfg, states, events, k - 1);
      StepKeepsOrder(cfg, states[k - 1], events[k - 1]);
    }
  }

  lemma NoKeys()
    ensures AllInOrder(map[])
  {
  }

  lemma {:induction false} DeadStays(cfg: Config, s: State, events: seq<Event>, id: Id, n: nat)
    requires Possible(cfg, s, events) && id in s.passports && Dead(s.passports[id], n)
    ensures var t := Play(cfg, s, events); id in t.passports && Dead(t.passports[id], n)
    decreases |events|
  {
    hide Step, Fresh, KeysInOrder, KeysChange, FindKey;
    if events != [] {
      var t := Step(cfg, s, events[0]);
      StepChangesKeys(cfg, s, events[0], id);
      ChangeKeepsOrder(s.passports[id], t.passports[id], n);
      DeadStays(cfg, t, events[1..], id, n);
    }
  }

  ghost predicate Refused(s: State, id: Id, n: nat) {
    id in s.passports && KeyFor(s.passports[id], Some(n), s.now).Err?
  }

  ghost predicate KeyGone(cfg: Config, s: State, id: Id, n: nat) {
    forall events | Possible(cfg, s, events) :: Refused(Play(cfg, s, events), id, n)
  }

  /** The revocation of a key of a usable passport lasts exactly if the key is an archived one: the
      next rotation archives the current key unrevoked, and it is accepted again until its grace
      period ends. */
  lemma KeyRevocationLasts(cfg: Config, s: State, id: Id, n: nat, kid: Id, org: Id)
    requires Reachable(cfg, s) && AssertPassportUsable(s, id, {}).Ok? && id in s.passports
    requires WithKeyRevoked(s.passports[id], n, s.now).Ok?
    ensures KeyGone(cfg, Step(cfg, s, Revoke(KeyRevocation(id, n), kid, org)), id, n) <==>
            n != s.passports[id].current.kid
  {
    hide Reachable, KeysInOrder, AssertPassportUsable, Step, Play, Possible, Inv, Dead, KeyFor, WithKeyRevoked;
    ReachableInv(cfg, s);
    var t := Step(cfg, s, Revoke(KeyRevocation(id, n), kid, org));
    if n != s.passports[id].current.kid {
      forall events | Possible(cfg, t, events) ensures Refused(Play(cfg, t, events), id, n) {
        ArchivedKeyDies(cfg, s, id, n, kid, org);
        DeadStays(cfg, t, events, id, n);
        DeadIsRefused(Play(cfg, t, events), id, n);
      }
    } else {
      var turn := RotateKey(id, Offered(""), Keeper(false, ""));
      PlayOne(cfg, t, turn);
      CurrentKeyComesBack(cfg, s, id, kid, org);
      assert !Refused(Play(cfg, t, [turn]), id, n);
    }
  }

  lemma DeadIsRefused(s: State, id: Id, n: nat)
    requires id in s.passports && Dead(s.passports[id], n)
    ensures Refused(s, id, n)
  {
  }

  lemma ArchivedKeyDies(cfg: Config, s: State, id: Id, n: nat, kid: Id, org: Id)
    requires id in s.passports && WithKeyRevoked(s.passports[id], n, s.now).Ok? && KeysInOrder(s.passports[id])
    requires n != s.passports[id].current.kid
    ensures var ps := Step(cfg, s, Revoke(KeyRevocation(id, n), kid, org)).passports; id in ps && Dead(ps[id], n)
  {
    AsRevoke(cfg, s, KeyRevocation(id, n), kid, org);
    hide Step;
    var p := s.passports[id];
    MarkedKeys(p.history, n, s.now, n);
    Archived(p.history, n);
  }

  lemma CurrentKeyComesBack(cfg: Config, s: State, id: Id, kid: Id, org: Id)
    requires id in s.passports && AssertPassportUsable(s, id, {}).Ok? && KeysInOrder(s.passports[id])
    ensures var n := s.passports[id].current.kid;
            var t := Step(cfg, s, Revoke(KeyRevocation(id, n), kid, org));
            !Refused(Step(cfg, t, RotateKey(id, Offered(""), Keeper(false, ""))), id, n)
  {
    hide Step, AssertPassportUsable;
    var p := s.passports[id];
    var n := p.current.kid;
    var t := Step(cfg, s, Revoke(KeyRevocation(id, n), kid, org));
    CurrentRevoked(cfg, s, id, kid, org);
    SameUse(s, t, id, {});
    KeyRotated(cfg, t, id);
    NotArchived(p.history, n);
    FindAppended(p.history, Key(n, p.current.pub, false, s.now + GraceMs(p)), n);
  }

  lemma CurrentRevoked(cfg: Config, s: State, id: Id, kid: Id, org: Id)
    requires id in s.passports && KeysInOrder(s.passports[id])
    ensures var p := s.passports[id];
            var t := Step(cfg, s, Revoke(KeyRevocation(id, p.current.kid), kid, org));
            t == s.(passports := s.passports[id := p.(current := p.current.(revoked := true))],
                    revocations := s.revocations + {KeyRevocation(id, p.current.kid)}, log := t.log)
  {
    AsRevoke(cfg, s, KeyRevocation(id, s.passports[id].current.kid), kid, org);
    hide Step;
    NotArchived(s.passports[id].history, s.passports[id].current.kid);
  }

  lemma KeyRotated(cfg: Config, s: State, id: Id)
    requires id in s.passports && AssertPassportUsable(s, id, {}).Ok?
    ensures var t := Step(cfg, s, RotateKey(id, Offered(""), Keeper(false, "")));
            id in t.passports && t.passports[id] == Rotated(s.passports[id], "", s.now) && t.now == s.now
  {
    hide AssertPassportUsable;
  }

  /** Keys do not matter for whether a passport is usable. */
  lemma {:induction false} SameUse(s: State, t: State, id: Id, trail: set<Id>)
    requires t.orgs == s.orgs && t.blueprints == s.blueprints && t.now == s.now && t.passports.Keys == s.passports.Keys
    requires forall x :: x in s.passports ==>
               t.passports[x] == s.passports[x].(current := t.passports[x].current, history := t.passports[x].history)
    requires forall x :: PassportRevocation(x) in t.revocations <==> PassportRevocation(x) in s.revocations
    requires forall x :: BlueprintRevocation(x) in t.revocations <==> BlueprintRevocation(x) in s.revocations
    ensures AssertPassportUsable(t, id, trail).Ok? <==> AssertPassportUsable(s, id, trail).Ok?
    decreases s.passports.Keys - trail
  {
    if id in s.passports && id !in trail && s.passports[id].parent.Some? {
      assert id in s.passports.Keys - trail && id !in s.passports.Keys - (trail + {id});
      SameUse(s, t, s.passports[id].parent.value, trail + {id});
    }
  }
}
