/** Exactly which requests go through in a reachable store, as flat conditions: over all
    ancestors instead of a walk up the parents, and without the checks that reachability
    makes redundant. */
module GatewayExact {
  import opened Prelude
  import opened Delegation
  import opened Replay
  import opened Gateway
  import opened GatewayInvariants
  import opened GatewayGrants
  import opened GatewayTheorems
  import opened GatewayDeadlines

  // ----- Usable means: every ancestor is in order -----

  /** A passport in order, its parents aside. */
  ghost predicate Healthy(s: State, id: Id) {
    && id in s.passports
    && var p := s.passports[id];
       && (p.org in s.orgs ==> !s.orgs[p.org].locked)
       && PassportRevocation(id) !in s.revocations
       && s.now <= p.exp
       && p.status !in {Revoked, Expired, Suspended, Quarantined}
       && (p.blueprint.Some? ==>
             && p.blueprint.value in s.blueprints && !s.blueprints[p.blueprint.value].revoked
             && BlueprintRevocation(p.blueprint.value) !in s.revocations)
  }

  ghost predicate LineageHealthy(s: State, id: Id) {
    forall path :: PassportPath(s.passports, path) && path[0] == id ==> Healthy(s, path[|path| - 1])
  }

  /** A delegation token in order, its parents aside: the whole lineage of its subject counts. */
  ghost predicate Fit(s: State, jti: Id) {
    && jti in s.tokens
    && var t := s.tokens[jti];
       && TokenRevocation(jti) !in s.revocations
       && (t.constraints.notAfter.Some? ==> s.now <= t.constraints.notAfter.value)
       && LineageHealthy(s, t.sub)
  }

  ghost predicate ChainFit(s: State, jti: Id) {
    forall path :: TokenPath(s.tokens, path) && path[0] == jti ==> Fit(s, path[|path| - 1])
  }

  lemma OwnPath(ps: map<Id, Passport>, id: Id)
    requires id in ps
    ensures PassportPath(ps, [id])
  {
  }

  lemma LineageSplits(s: State, id: Id)
    requires PassportsOk(s.passports) && id in s.passports
    ensures var parent := s.passports[id].parent;
            LineageHealthy(s, id) <==> Healthy(s, id) && (parent.Some? ==> LineageHealthy(s, parent.value))
  {
    hide Healthy;
    var ps, parent := s.passports, s.passports[id].parent;
    OwnPath(ps, id);
    if LineageHealthy(s, id) {
      assert [id][|[id]| - 1] == id;
      if parent.Some? {
        forall path | PassportPath(ps, path) && path[0] == parent.value ensures Healthy(s, path[|path| - 1]) {
          var longer := [id] + path;
          assert PassportPath(ps, longer);
          assert longer[|longer| - 1] == path[|path| - 1];
        }
      }
    } else if Healthy(s, id) && (parent.Some? ==> LineageHealthy(s, parent.value)) {
      forall path | PassportPath(ps, path) && path[0] == id ensures Healthy(s, path[|path| - 1]) {
        if |path| > 1 {
          assert ps[path[0]].parent == Some(path[1]);
          var shorter := path[1..];
          assert PassportPath(ps, shorter);
          assert shorter[|shorter| - 1] == path[|path| - 1];
        }
      }
    }
  }

  lemma UnfoldUsable(s: State, id: Id, trail: set<Id>)
    requires PassportsOk(s.passports) && id in s.passports && id !in trail
    ensures var parent := s.passports[id].parent;
            AssertPassportUsable(s, id, trail).Ok? <==>
              Healthy(s, id) && (parent.Some? ==> AssertPassportUsable(s, parent.value, trail + {id}).Ok?)
  {
  }

  lemma {:induction false} UsableByRank(s: State, id: Id, trail: set<Id>, rank: map<Id, nat>)
    requires PassportsOk(s.passports) && Ranked(s.passports, rank) && id in s.passports
    requires forall x :: x in trail ==> x in s.passports && rank[x] > rank[id]
    ensures AssertPassportUsable(s, id, trail).Ok? <==> LineageHealthy(s, id)
    decreases rank[id]
  {
    hide AssertPassportUsable, Healthy, LineageHealthy;
    UnfoldUsable(s, id, trail);
    LineageSplits(s, id);
    var parent := s.passports[id].parent;
    if parent.Some? { UsableByRank(s, parent.value, trail + {id}, rank); }
  }

  /** A passport is usable exactly when it and all its ancestors are in order. */
  lemma UsablePassportExactly(s: State, id: Id)
    requires PassportsOk(s.passports) && id in s.passports
    ensures AssertPassportUsable(s, id, {}).Ok? <==> LineageHealthy(s, id)
  {
    hide AssertPassportUsable, LineageHealthy;
    var rank :| Ranked(s.passports, rank);
    UsableByRank(s, id, {}, rank);
  }

  lemma ChainSplits(s: State, jti: Id)
    requires TokensOk(s.passports, s.tokens) && jti in s.tokens
    ensures var parent := s.tokens[jti].parent;
            ChainFit(s, jti) <==> Fit(s, jti) && (parent.Some? ==> ChainFit(s, parent.value))
  {
    hide Fit;
    var ts, parent := s.tokens, s.tokens[jti].parent;
    assert TokenOk(s.passports, ts, jti);
    assert TokenPath(ts, [jti]);
    if ChainFit(s, jti) {
      assert [jti][|[jti]| - 1] == jti;
      if parent.Some? {
        forall path | TokenPath(ts, path) && path[0] == parent.value ensures Fit(s, path[|path| - 1]) {
          var longer := [jti] + path;
          assert TokenPath(ts, longer);
          assert longer[|longer| - 1] == path[|path| - 1];
        }
      }
    } else if Fit(s, jti) && (parent.Some? ==> ChainFit(s, parent.value)) {
      forall path | TokenPath(ts, path) && path[0] == jti ensures Fit(s, path[|path| - 1]) {
        if |path| > 1 {
          assert ts[path[0]].parent == Some(path[1]);
          var shorter := path[1..];
          assert TokenPath(ts, shorter);
          assert shorter[|shorter| - 1] == path[|path| - 1];
        }
      }
    }
  }

  lemma UnfoldToken(s: State, jti: Id, trail: set<Id>)
    requires PassportsOk(s.passports) && TokensOk(s.passports, s.tokens) && jti in s.tokens && jti !in trail
    ensures var parent := s.tokens[jti].parent;
            AssertTokenUsable(s, jti, trail).Ok? <==>
              Fit(s, jti) && (parent.Some? ==> AssertTokenUsable(s, parent.value, trail + {jti}).Ok?)
  {
    assert TokenOk(s.passports, s.tokens, jti);
    UsablePassportExactly(s, s.tokens[jti].sub);
    hide AssertPassportUsable, LineageHealthy, PassportsOk;
  }

  lemma {:induction false} UsableByDepth(s: State, jti: Id, trail: set<Id>)
    requires PassportsOk(s.passports) && TokensOk(s.passports, s.tokens) && jti in s.tokens
    requires forall x :: x in trail ==> x in s.tokens && s.tokens[x].depth > s.tokens[jti].depth
    ensures AssertTokenUsable(s, jti, trail).Ok? <==> ChainFit(s, jti)
    decreases s.tokens[jti].depth
  {
    hide AssertTokenUsable, Fit, ChainFit, PassportsOk;
    UnfoldToken(s, jti, trail);
    ChainSplits(s, jti);
    assert TokenOk(s.passports, s.tokens, jti);
    var parent := s.tokens[jti].parent;
    if parent.Some? { UsableByDepth(s, parent.value, trail + {jti}); }
  }

  /** A token is usable exactly when it and all its ancestors are in order. */
  lemma UsableTokenExactly(s: State, jti: Id)
    requires PassportsOk(s.passports) && TokensOk(s.passports, s.tokens) && jti in s.tokens
    ensures AssertTokenUsable(s, jti, {}).Ok? <==> ChainFit(s, jti)
  {
    UsableByDepth(s, jti, {});
  }

  // ----- Keys -----

  /** The first archived key of that number is unrevoked and in its grace period. */
  ghost predicate InGrace(history: seq<Key>, kid: nat, now: int) {
    exists n :: 0 <= n < |history| && history[n].kid == kid && !history[n].revoked && now <= history[n].until
                && forall m :: 0 <= m < n ==> history[m].kid != kid
  }

  ghost predicate KeyValid(p: Passport, kid: Option<nat>, now: int) {
    !p.current.revoked && (kid.None? || kid.value == p.current.kid || InGrace(p.history, kid.value, now))
  }

  lemma {:induction false} FindKeyIsFirst(history: seq<Key>, kid: nat)
    ensures match FindKey(history, kid)
            case None => forall n :: 0 <= n < |history| ==> history[n].kid != kid
            case Some(h) => exists n :: 0 <= n < |history| && history[n] == h && h.kid == kid
                                        && forall m :: 0 <= m < n ==> history[m].kid != kid
  {
    if history != [] && history[0].kid != kid {
      FindKeyIsFirst(history[1..], kid);
      var h := FindKey(history, kid);
      if h.Some? {
        var n :| 0 <= n < |history[1..]| && history[1..][n] == h.value
                 && forall m :: 0 <= m < n ==> history[1..][m].kid != kid;
        assert history[n + 1] == h.value;
        assert forall m :: 0 <= m < n + 1 ==> history[m].kid != kid by {
          forall m | 0 <= m < n + 1 ensures history[m].kid != kid {
            if m > 0 { assert history[m] == history[1..][m - 1]; }
          }
        }
      } else {
        forall n | 0 <= n < |history| ensures history[n].kid != kid {
          if n > 0 { assert history[n] == history[1..][n - 1]; }
        }
      }
    }
  }

  lemma KeyExactly(p: Passport, kid: Option<nat>, now: int)
    ensures KeyFor(p, kid, now).Ok? <==> KeyValid(p, kid, now)
  {
    if kid.Some? && kid.value != p.current.kid {
      FindKeyIsFirst(p.history, kid.value);
      var h := FindKey(p.history, kid.value);
      if h.Some? {
        var n :| 0 <= n < |p.history| && p.history[n] == h.value && forall m :: 0 <= m < n ==>
          p.history[m].kid != kid.value;
        forall k | 0 <= k < |p.history| && p.history[k].kid == kid.value && forall m :: 0 <= m < k ==>
          p.history[m].kid != kid.value
          ensures k == n {}
      }
    }
  }

  /** The key a number names: the current one for its own number or for none, otherwise the first
      archived one. */
  ghost predicate Names(p: Passport, kid: Option<nat>, k: Key) {
    if kid.None? || kid.value == p.current.kid then k == p.current
    else exists n :: 0 <= n < |p.history| && p.history[n] == k && k.kid == kid.value
                     && forall m :: 0 <= m < n ==> p.history[m].kid != kid.value
  }

  /** Under this number the passport may sign with this key. */
  ghost predicate MayUse(p: Passport, kid: Option<nat>, now: int, k: Key) {
    && !p.current.revoked && Names(p, kid, k)
    && (kid.Some? && kid.value != p.current.kid ==> !k.revoked && now <= k.until)
  }

  lemma KeyIsExactly(p: Passport, kid: Option<nat>, now: int, k: Key)
    ensures KeyFor(p, kid, now) == Ok(k) <==> MayUse(p, kid, now, k)
  {
    if kid.Some? && kid.value != p.current.kid {
      FirstExactly(p, kid, k);
      hide FindKey, Names;
    }
  }

  lemma FirstExactly(p: Passport, kid: Option<nat>, k: Key)
    requires kid.Some? && kid.value != p.current.kid
    ensures FindKey(p.history, kid.value) == Some(k) <==> Names(p, kid, k)
  {
    FindKeyIsFirst(p.history, kid.value);
    var h := FindKey(p.history, kid.value);
    if h.Some? {
      var n :| 0 <= n < |p.history| && p.history[n] == h.value && forall m :: 0 <= m < n ==>
        p.history[m].kid != kid.value;
      forall j | 0 <= j < |p.history| && p.history[j].kid == kid.value && forall m :: 0 <= m < j ==>
        p.history[m].kid != kid.value
        ensures j == n {}
    }
  }

  // ----- Intents -----

  /** Inside its window. The test against an `iat` too far back never decides: an unexpired
      intent of allowed lifetime cannot be that old. */
  ghost predicate InWindow(cfg: Config, now: int, i: Intent) {
    && i.amount <= 9007199254740991
    && |i.nonce| >= 16
    && (forall c :: c in i.nonce ==>
          'A' <= c <= 'Z' || 'a' <= c <= 'z' || '0' <= c <= '9' || c == ':' || c == '_' || c == '-' || c == '.' ||
            c == '/')
    && "agt_" <= i.passport && "org_" <= i.org
    && now < i.exp <= i.iat + cfg.intentTtl * 1000
    && i.iat <= now + cfg.skew * 1000
  }

  lemma ShapeExactly(cfg: Config, now: int, i: Intent)
    ensures CheckIntentShape(cfg, now, i).Ok? <==> InWindow(cfg, now, i)
  {
    assert forall k :: 0 <= k < |i.nonce| ==> i.nonce[k] in i.nonce;
  }

  ghost predicate OrgOpen(s: State, org: Id) {
    org in s.orgs && !s.orgs[org].locked
  }

  // ----- authorize -----

  /** The delegation token covers the operation and its budget has room for it. */
  ghost predicate TokenGrants(s: State, jti: Id, i: Intent) {
    && jti in s.tokens && s.tokens[jti].org == i.org && ChainFit(s, jti)
    && Covers(s.tokens[jti], i.action, i.resource, i.destination)
    && s.tokens[jti].spent + i.amount <= s.tokens[jti].constraints.maxSpend
  }

  lemma BudgetExactly(s: State, jti: Id, amount: nat)
    requires TokensOk(s.passports, s.tokens) && jti in s.tokens
    ensures WithinBudget(s.tokens[jti], amount) <==> s.tokens[jti].spent + amount <= s.tokens[jti].constraints.maxSpend
  {
    assert TokenOk(s.passports, s.tokens, jti);
    BudgetTestIsExact(s.tokens[jti], amount);
  }

  lemma TokenChecksExactly(s: State, i: Intent, jti: Id)
    requires PassportsOk(s.passports) && TokensOk(s.passports, s.tokens)
    ensures TokenChecks(s, i, Some(jti)).Ok? <==> TokenGrants(s, jti, i) && s.tokens[jti].sub == i.passport
  {
    hide AssertTokenUsable, ChainFit, TokenCovers, Covers, WithinBudget, PassportsOk, TokensOk;
    if jti in s.tokens {
      CoversExactly(s.tokens[jti], i.action, i.resource, i.destination);
      UsableTokenExactly(s, jti);
      BudgetExactly(s, jti, i.amount);
    }
  }

  /** Who may ask: the agent by its signature, or a service in its place. */
  ghost predicate Authentic(s: State, r: AuthorizeRequest, pass: Passport) {
    match r.signature
    case Some(sig) =>
      sig.message == r.intent && exists k :: MayUse(pass, r.kid, s.now, k) && k.pub == sig.pub
    case None => r.serviceKey
  }

  lemma AuthenticateExactly(cfg: Config, s: State, r: AuthorizeRequest)
    ensures Authenticate(cfg, s, r).Ok?
       <==> && InWindow(cfg, s.now, r.intent) && OrgOpen(s, r.intent.org)
            && r.intent.passport in s.passports && s.passports[r.intent.passport].org == r.intent.org
            && Authentic(s, r, s.passports[r.intent.passport])
  {
    ShapeExactly(cfg, s.now, r.intent);
    hide CheckIntentShape, InWindow, KeyFor, MayUse;
    if r.intent.passport in s.passports {
      var pass := s.passports[r.intent.passport];
      forall k ensures KeyFor(pass, r.kid, s.now) == Ok(k) <==> MayUse(pass, r.kid, s.now, k) {
        KeyIsExactly(pass, r.kid, s.now, k);
      }
    }
  }

  lemma AuthenticIsStored(cfg: Config, s: State, r: AuthorizeRequest)
    ensures var pass := Authenticate(cfg, s, r);
            pass.Ok? ==> r.intent.passport in s.passports && pass.value == s.passports[r.intent.passport]
  {
    hide CheckIntentShape, KeyFor;
  }

  lemma NoTokenNoCheck(s: State, i: Intent)
    ensures TokenChecks(s, i, None).Ok?
  {
  }

  // ----- execute -----

  /** The replay map does not hold the key, or not any more. */
  ghost predicate Free(s: State, key: string) {
    key in s.used ==> s.used[key] <= s.now
  }

  ghost predicate ApprovalFits(s: State, att: Credential, i: Intent, approval: Option<Credential>)
    requires att.ActionCredential?
  {
    att.requiresApproval ==>
      && approval.Some? && approval.value in s.sealed && approval.value.ApprovalCredential?
      && approval.value.intent == i && approval.value.actionJti == Some(att.jti) && s.now <= approval.value.exp
  }

  /** The credential is sealed for this intent, current and unrevoked, and approved if it has to be;
      the agent, its key and the token are in order. */
  ghost predicate InOrder(s: State, att: Credential, i: Intent, approval: Option<Credential>) {
    && OrgOpen(s, i.org)
    && att in s.sealed && att.ActionCredential? && att.intent == i
    && att.iat - 30 * 1000 <= s.now <= att.exp && ActionRevocation(att.jti) !in s.revocations
    && ApprovalFits(s, att, i, approval)
    && i.passport in s.passports && LineageHealthy(s, i.passport) && KeyValid(s.passports[i.passport], att.kid, s.now)
    && (att.token.Some? ==> TokenGrants(s, att.token.value, i))
  }

  /** When an execution goes through. */
  ghost predicate Executable(cfg: Config, s: State, att: Credential, i: Intent, approval: Option<Credential>) {
    && InWindow(cfg, s.now, i) && InOrder(s, att, i, approval)
    && Free(s, IntentKey(i.org, i.nonce)) && Free(s, CredentialKey(att.jti))
  }

  lemma ApprovalExactly(s: State, att: Credential, i: Intent, approval: Option<Credential>)
    requires GrantsOk(s.approvals, s.sealed, s.log) && att.ActionCredential? && att in s.sealed
    ensures ApprovalChecks(s, att, i, approval).Ok? <==> ApprovalFits(s, att, i, approval)
  {
    if approval.Some? && approval.value in s.sealed && approval.value.ApprovalCredential? {
      assert CredentialOk(approval.value, s.approvals, s.log);
    }
  }

  lemma NoncesExactly(s: State, att: Credential, i: Intent)
    requires att.ActionCredential? && "org_" <= i.org
    ensures AfterNonce(s, i).1 && AfterCredential(s, att, i).1
       <==> Free(s, IntentKey(i.org, i.nonce)) && Free(s, CredentialKey(att.jti))
  {
    assert IntentKey(i.org, i.nonce)[0] == 'o' && CredentialKey(att.jti)[0] == 'a';
  }

  /** What the order of the checks adds up to, the redundant ones gone. */
  lemma ExecuteChecksExactly(s: State, att: Credential, i: Intent, approval: Option<Credential>)
    requires PassportsOk(s.passports) && TokensOk(s.passports, s.tokens) && GrantsOk(s.approvals, s.sealed, s.log)
    ensures ExecuteChecks(s, att, i, approval).Ok?
       <==> InOrder(s, att, i, approval) && att.ActionCredential? && Complete(att)
  {
    hide AssertPassportUsable, AssertTokenUsable, LineageHealthy, ChainFit, TokenCovers, WithinBudget, PassportsOk,
      TokensOk, ApprovalChecks, ApprovalFits, KeyFor, KeyValid, GrantsOk, TokenGrants;
    if att in s.sealed && att.ActionCredential? {
      ApprovalExactly(s, att, i, approval);
      CredentialMatches(s, att);
      if i.passport in s.passports {
        UsablePassportExactly(s, i.passport);
        KeyExactly(s.passports[i.passport], att.kid, s.now);
      } else {
        UnknownIsUnusable(s, i.passport);
      }
      if att.token.Some? { TokenPartExactly(s, i, att.token.value); }
    }
  }

  /** The credential names what its intent names, so those comparisons never decide. */
  lemma CredentialMatches(s: State, att: Credential)
    requires GrantsOk(s.approvals, s.sealed, s.log) && att in s.sealed && att.ActionCredential?
    ensures att.org == att.intent.org && att.sub == att.intent.passport && att.aud == att.intent.aud
    ensures att.action == att.intent.action && att.resource == att.intent.resource && att.amount == att.intent.amount
  {
    assert CredentialOk(att, s.approvals, s.log);
  }

  lemma UnknownIsUnusable(s: State, id: Id)
    requires id !in s.passports
    ensures AssertPassportUsable(s, id, {}).Err?
  {
  }

  lemma TokenPartExactly(s: State, i: Intent, jti: Id)
    requires PassportsOk(s.passports) && TokensOk(s.passports, s.tokens)
    ensures TokenGrants(s, jti, i)
       <==> && jti in s.tokens && s.tokens[jti].org == i.org && AssertTokenUsable(s, jti, {}).Ok?
            && TokenCovers(s.tokens[jti], i.action, i.resource, i.destination) && WithinBudget(s.tokens[jti], i.amount)
    ensures TokenGrants(s, jti, i) ==> TokenRevocation(jti) !in s.revocations
  {
    hide AssertTokenUsable, TokenCovers, Covers, WithinBudget, PassportsOk, TokensOk, LineageHealthy;
    if jti in s.tokens {
      CoversExactly(s.tokens[jti], i.action, i.resource, i.destination);
      UsableTokenExactly(s, jti);
      BudgetExactly(s, jti, i.amount);
      ChainSplits(s, jti);
    }
  }

  /** An execution goes through exactly then, if its credential lacks no field. */
  lemma ExecutesExactly(cfg: Config, s: State, att: Credential, i: Intent, approval: Option<Credential>)
    requires PassportsOk(s.passports) && TokensOk(s.passports, s.tokens) && GrantsOk(s.approvals, s.sealed, s.log)
    ensures ExecuteOutcome(cfg, s, att, i, approval).Done?
       <==> Executable(cfg, s, att, i, approval) && att.ActionCredential? && Complete(att)
  {
    ShapeExactly(cfg, s.now, i);
    ExecuteChecksExactly(s, att, i, approval);
    if att.ActionCredential? && "org_" <= i.org { NoncesExactly(s, att, i); }
    hide ExecuteChecks, PassportsOk, TokensOk, GrantsOk, InOrder, AfterNonce, AfterCredential, Free, CheckIntentShape;
  }

  /** Along runs no credential lacks a field, and the test for that never decides. */
  lemma RunsExecuteExactly(cfg: Config, states: seq<State>, events: seq<Event>, j: nat)
    requires Run(cfg, states, events) && j < |events| && events[j].Execute?
    ensures ExecutesAt(cfg, states, events, j)
       <==> Executable(cfg, states[j], events[j].credential, events[j].intent, events[j].approval)
  {
    RunInv(cfg, states, events, j);
    RunComplete(cfg, states, events, j);
    ExecutesExactly(cfg, states[j], events[j].credential, events[j].intent, events[j].approval);
    hide Run, ExecuteOutcome, PassportsOk, TokensOk, GrantsOk;
  }

  // ----- registerDelegation -----

  /** Who signed for whom, and on what: the issuer and the subject are healthy members of the
      organisation, the envelope is the issuer's and holds the payload, and the new token is a root
      of the issuer's own or an administrator's, or hangs on a usable token of the issuer. */
  ghost predicate Authorised(s: State, org: Id, delegator: Id, p: Payload, envelope: Envelope, admin: bool) {
    && OrgOpen(s, org)
    && delegator in s.passports && s.passports[delegator].org == org && LineageHealthy(s, delegator)
    && envelope.payload == p && p.v == 2 && p.org == org && p.sub != "" && p.jti != ""
    && (exists k :: MayUse(s.passports[delegator], p.kid, s.now, k) && k.pub == envelope.signer)
    && p.sub in s.passports && s.passports[p.sub].org == org && LineageHealthy(s, p.sub)
    && p.jti !in s.tokens
    && match p.parent
       case None => admin || p.sub == delegator
       case Some(q) => q in s.tokens && s.tokens[q].org == org && s.tokens[q].sub == delegator && ChainFit(s, q)
  }

  ghost function ParentOf(s: State, p: Payload): Option<Token> {
    if p.parent.Some? && p.parent.value in s.tokens then Some(s.tokens[p.parent.value]) else None
  }

  /** The token that may be registered: the one asked for, within the limits and no wider than
      the parent. */
  ghost predicate Registrable(s: State, p: Payload, delegator: Id, t: Token) {
    && Asked(ParentOf(s, p), p, delegator, t) && WithinLimits(t, s.now)
    && (ParentOf(s, p).Some? ==> NoWider(t, ParentOf(s, p).value))
  }

  /** Registration succeeds with a token exactly if the request is authorised and the token is the
      one it asks for, allowed by its limits and its parent's. */
  lemma RegistersExactly(s: State, org: Id, delegator: Id, p: Payload, envelope: Envelope, admin: bool, t: Token)
    requires PassportsOk(s.passports) && TokensOk(s.passports, s.tokens)
    ensures DelegateChecks(s, org, delegator, p, envelope, admin) == Ok(t)
       <==> Authorised(s, org, delegator, p, envelope, admin) && Registrable(s, p, delegator, t)
  {
    hide CheckAttenuation, BuildToken, AssertPassportUsable, AssertTokenUsable, KeyFor, LineageHealthy, ChainFit,
      PassportsOk, TokensOk, Asked, WithinLimits, NoWider, DelegateChecks, MayUse, Authorised;
    GuardsExactly(s, org, delegator, p, envelope, admin, t);
    AuthorisedExactly(s, org, delegator, p, envelope, admin);
    BuildsExactly(ParentOf(s, p), p, delegator, s.now, t);
    if ParentOf(s, p).Some? && Asked(ParentOf(s, p), p, delegator, t) {
      NarrowsExactly(ParentOf(s, p).value, p, delegator, t);
      if WithinLimits(t, s.now) { SpendIsSafe(t, s.now); }
    }
  }

  lemma SpendIsSafe(t: Token, now: int)
    requires WithinLimits(t, now)
    ensures t.constraints.maxSpend <= 9007199254740991
  {
  }

  /** The guards of the handler, the two passes over the limits apart. */
  ghost predicate Guarded(s: State, org: Id, delegator: Id, p: Payload, envelope: Envelope, admin: bool) {
    && OrgOpen(s, org)
    && delegator in s.passports && s.passports[delegator].org == org && AssertPassportUsable(s, delegator, {}).Ok?
    && envelope.payload == p && p.v == 2 && p.org == org && p.sub != "" && p.jti != ""
    && KeyFor(s.passports[delegator], p.kid, s.now).Ok?
    && KeyFor(s.passports[delegator], p.kid, s.now).value.pub == envelope.signer
    && p.sub in s.passports && s.passports[p.sub].org == org && AssertPassportUsable(s, p.sub, {}).Ok?
    && p.jti !in s.tokens
    && match p.parent
       case None => admin || p.sub == delegator
       case Some(q) =>
         q in s.tokens && s.tokens[q].org == org && s.tokens[q].sub == delegator && AssertTokenUsable(s, q, {}).Ok?
  }

  lemma GuardsExactly(s: State, org: Id, delegator: Id, p: Payload, envelope: Envelope, admin: bool, t: Token)
    ensures DelegateChecks(s, org, delegator, p, envelope, admin) == Ok(t)
       <==> && Guarded(s, org, delegator, p, envelope, admin)
            && (ParentOf(s, p).Some? ==> CheckAttenuation(ParentOf(s, p).value, p).Ok?)
            && BuildToken(ParentOf(s, p), p, delegator, s.now) == Ok(t)
  {
    hide CheckAttenuation, BuildToken, AssertPassportUsable, AssertTokenUsable, KeyFor;
  }

  lemma AuthorisedExactly(s: State, org: Id, delegator: Id, p: Payload, envelope: Envelope, admin: bool)
    requires PassportsOk(s.passports) && TokensOk(s.passports, s.tokens)
    ensures Guarded(s, org, delegator, p, envelope, admin) <==> Authorised(s, org, delegator, p, envelope, admin)
  {
    hide AssertPassportUsable, AssertTokenUsable, KeyFor, LineageHealthy, ChainFit, PassportsOk, TokensOk, MayUse;
    if delegator in s.passports {
      var pass := s.passports[delegator];
      UsablePassportExactly(s, delegator);
      forall k ensures KeyFor(pass, p.kid, s.now) == Ok(k) <==> MayUse(pass, p.kid, s.now, k) {
        KeyIsExactly(pass, p.kid, s.now, k);
      }
    }
    if p.sub in s.passports { UsablePassportExactly(s, p.sub); }
    if p.parent.Some? && p.parent.value in s.tokens { UsableTokenExactly(s, p.parent.value); }
  }

  /** A registered token was signed for by a healthy issuer with a valid key, is for a healthy
      subject of the same organisation, and either hangs on a usable token of the issuer and is
      narrower, or is the issuer's own root, or an administrator's. */
  lemma RegisteredIsAuthorised(s: State, org: Id, delegator: Id, p: Payload, envelope: Envelope, admin: bool)
    requires PassportsOk(s.passports) && TokensOk(s.passports, s.tokens)
    requires DelegateChecks(s, org, delegator, p, envelope, admin).Ok?
    ensures var t := DelegateChecks(s, org, delegator, p, envelope, admin).value;
      && OrgOpen(s, org) && t.org == org && t.issuer == delegator && t.jti !in s.tokens && t.spent == 0
      && envelope.payload == p && t.parent == p.parent
      && delegator in s.passports && s.passports[delegator].org == org && LineageHealthy(s, delegator)
      && (exists k :: MayUse(s.passports[delegator], p.kid, s.now, k) && k.pub == envelope.signer)
      && t.sub in s.passports && s.passports[t.sub].org == org && LineageHealthy(s, t.sub)
      && match t.parent
         case None => (admin || t.sub == delegator) && t.depth == 0
         case Some(q) =>
           && q in s.tokens && s.tokens[q].org == org && s.tokens[q].sub == delegator
           && ChainFit(s, q) && Narrows(t, s.tokens[q])
  {
    DelegatePassed(s, org, delegator, p, envelope, admin);
    RegistrationParts(s, org, delegator, p, envelope, admin);
    hide DelegateChecks, CheckAttenuation, BuildToken, Bounded, Narrows, AssertPassportUsable, AssertTokenUsable,
      KeyFor, LineageHealthy, MayUse, ChainFit, PassportsOk, TokensOk;
    UsablePassportExactly(s, delegator);
    UsablePassportExactly(s, p.sub);
    KeyIsExactly(s.passports[delegator], p.kid, s.now, KeyFor(s.passports[delegator], p.kid, s.now).value);
    if p.parent.Some? { UsableTokenExactly(s, p.parent.value); }
  }
}
