/** Why a passport is refused: the first fault on the way up its parents. */
module GatewayFaults {
  import opened Prelude
  import opened Delegation
  import opened Gateway
  import opened GatewayInvariants
  import opened GatewayTheorems
  import opened GatewayExact

  /** What is wrong with a passport, its parents aside: a lock is reported before a revocation, that
      before an expiry, and a blueprint last. */
  ghost predicate Fault(s: State, id: Id, code: Code)
    requires id in s.passports
  {
    var p := s.passports[id];
    if p.org in s.orgs && s.orgs[p.org].locked then code == OrgLocked
    else if p.status == Revoked || PassportRevocation(id) in s.revocations then code == PassportRevoked
    else if p.status == Expired || p.exp < s.now then code == PassportExpired
    else if p.status == Suspended then code == PassportSuspended
    else if p.status == Quarantined then code == PassportQuarantined
    else
      && code == BlueprintRevoked && p.blueprint.Some?
      && (|| p.blueprint.value !in s.blueprints || s.blueprints[p.blueprint.value].revoked
          || BlueprintRevocation(p.blueprint.value) in s.revocations)
  }

  /** The first ancestor that is not in order, and what is wrong with it. */
  ghost predicate FirstFault(s: State, id: Id, code: Code) {
    exists path :: PassportPath(s.passports, path) && path[0] == id && Fault(s, path[|path| - 1], code)
                   && forall n :: 0 <= n < |path| - 1 ==> Healthy(s, path[n])
  }

  lemma FaultSplits(s: State, id: Id, code: Code)
    requires PassportsOk(s.passports) && id in s.passports
    ensures var parent := s.passports[id].parent;
            FirstFault(s, id, code) <==>
              Fault(s, id, code) || (Healthy(s, id) && parent.Some? && FirstFault(s, parent.value, code))
  {
    hide Healthy, Fault;
    if FirstFault(s, id, code) && !Fault(s, id, code) { FaultGoesUp(s, id, code); }
    if Fault(s, id, code) {
      OwnPath(s.passports, id);
      assert [id][|[id]| - 1] == id;
    }
    var parent := s.passports[id].parent;
    if Healthy(s, id) && parent.Some? && FirstFault(s, parent.value, code) { FaultComesDown(s, id, code); }
  }

  lemma FaultGoesUp(s: State, id: Id, code: Code)
    requires id in s.passports && FirstFault(s, id, code) && !Fault(s, id, code)
    ensures Healthy(s, id) && s.passports[id].parent.Some? && FirstFault(s, s.passports[id].parent.value, code)
  {
    hide Healthy, Fault;
    var ps := s.passports;
    var path :| PassportPath(ps, path) && path[0] == id && Fault(s, path[|path| - 1], code)
                && forall n :: 0 <= n < |path| - 1 ==> Healthy(s, path[n]);
    assert ps[path[0]].parent == Some(path[1]);
    var shorter := path[1..];
    assert PassportPath(ps, shorter) && shorter[|shorter| - 1] == path[|path| - 1];
    assert forall n :: 0 <= n < |shorter| - 1 ==> shorter[n] == path[n + 1];
  }

  lemma FaultComesDown(s: State, id: Id, code: Code)
    requires id in s.passports && Healthy(s, id)
    requires s.passports[id].parent.Some? && FirstFault(s, s.passports[id].parent.value, code)
    ensures FirstFault(s, id, code)
  {
    hide Healthy, Fault;
    var ps, parent := s.passports, s.passports[id].parent;
    var path :| PassportPath(ps, path) && path[0] == parent.value && Fault(s, path[|path| - 1], code)
                && forall n :: 0 <= n < |path| - 1 ==> Healthy(s, path[n]);
    var longer := [id] + path;
    assert PassportPath(ps, longer) && longer[|longer| - 1] == path[|path| - 1];
    assert forall n :: 0 < n < |longer| - 1 ==> longer[n] == path[n - 1];
  }

  /** The verdict on one passport. */
  lemma OwnFault(s: State, id: Id, trail: set<Id>, code: Code)
    requires id in s.passports && id !in trail && !Healthy(s, id)
    ensures AssertPassportUsable(s, id, trail) == Err(code) <==> Fault(s, id, code)
  {
  }

  lemma NoFault(s: State, id: Id, trail: set<Id>)
    requires PassportsOk(s.passports) && id in s.passports && id !in trail && Healthy(s, id)
    ensures var parent := s.passports[id].parent;
      AssertPassportUsable(s, id, trail)
      == if parent.Some? then AssertPassportUsable(s, parent.value, trail + {id}) else Ok(())
    ensures forall code :: !Fault(s, id, code)
  {
  }

  lemma {:induction false} FaultByRank(s: State, id: Id, trail: set<Id>, rank: map<Id, nat>, code: Code)
    requires PassportsOk(s.passports) && Ranked(s.passports, rank) && id in s.passports
    requires forall x :: x in trail ==> x in s.passports && rank[x] > rank[id]
    ensures AssertPassportUsable(s, id, trail) == Err(code) <==> FirstFault(s, id, code)
    decreases rank[id]
  {
    hide AssertPassportUsable, Healthy, Fault, FirstFault;
    if Healthy(s, id) { NoFault(s, id, trail); } else { OwnFault(s, id, trail, code); }
    FaultSplits(s, id, code);
    var parent := s.passports[id].parent;
    if parent.Some? { FaultByRank(s, parent.value, trail + {id}, rank, code); }
  }

  /** A passport is refused with the code of the first fault on the way up, exactly. */
  lemma FaultExactly(s: State, id: Id, code: Code)
    requires PassportsOk(s.passports)
    ensures AssertPassportUsable(s, id, {}) == Err(code)
       <==> if id in s.passports then FirstFault(s, id, code) else code == PassportUnknown
  {
    if id in s.passports {
      hide AssertPassportUsable, FirstFault;
      var rank :| Ranked(s.passports, rank);
      FaultByRank(s, id, {}, rank, code);
    }
  }

  // ----- Tokens -----

  /** What is wrong with a token, its ancestors and subjects aside. */
  ghost predicate TokenFault(s: State, jti: Id, code: Code)
    requires jti in s.tokens
  {
    var last := s.tokens[jti].constraints.notAfter;
    if TokenRevocation(jti) in s.revocations then code == TokenRevoked
    else code == TokenExpired && last.Some? && last.value < s.now
  }

  /** Where a token's ancestors are deeper on the trail, the trail makes no difference. */
  lemma {:induction false} TrailIsIdle(s: State, jti: Id, trail: set<Id>)
    requires PassportsOk(s.passports) && TokensOk(s.passports, s.tokens) && jti in s.tokens
    requires forall x :: x in trail ==> x in s.tokens && s.tokens[x].depth > s.tokens[jti].depth
    ensures AssertTokenUsable(s, jti, trail) == AssertTokenUsable(s, jti, {})
    decreases s.tokens[jti].depth
  {
    assert TokenOk(s.passports, s.tokens, jti);
    var parent := s.tokens[jti].parent;
    if parent.Some? {
      TrailIsIdle(s, parent.value, trail + {jti});
      TrailIsIdle(s, parent.value, {jti});
      assert {} + {jti} == {jti};
    }
    hide PassportsOk, TokensOk, AssertPassportUsable;
  }

  lemma TokenAtFault(s: State, jti: Id, code: Code)
    requires jti in s.tokens && TokenOk(s.passports, s.tokens, jti) && TokenFault(s, jti, code)
    ensures AssertTokenUsable(s, jti, {}) == Err(code)
  {
    hide AssertPassportUsable, Delegation.Narrows, Delegation.Bounded;
  }

  /** The walk goes up first. */
  lemma TokenGoesUp(s: State, jti: Id, trail: set<Id>)
    requires jti in s.tokens && TokenOk(s.passports, s.tokens, jti) && jti !in trail && s.tokens[jti].parent.Some?
    requires !TokenFault(s, jti, TokenRevoked) && !TokenFault(s, jti, TokenExpired)
    ensures var t := s.tokens[jti];
            var above := AssertTokenUsable(s, t.parent.value, trail + {jti});
            AssertTokenUsable(s, jti, trail) == if above.Err? then above else AssertPassportUsable(s, t.sub, {})
  {
    hide AssertPassportUsable, Delegation.Narrows, Delegation.Bounded;
  }

  lemma RootFault(s: State, jti: Id)
    requires jti in s.tokens && TokenOk(s.passports, s.tokens, jti) && s.tokens[jti].parent.None?
    requires !TokenFault(s, jti, TokenRevoked) && !TokenFault(s, jti, TokenExpired)
    ensures AssertTokenUsable(s, jti, {}) == AssertPassportUsable(s, s.tokens[jti].sub, {})
  {
    hide AssertPassportUsable, Delegation.Narrows, Delegation.Bounded;
  }

  /** Why a token is refused: for a fault of its own, otherwise as its parent is, otherwise for the
      first fault of its subject. */
  lemma TokenFaultExactly(s: State, jti: Id, code: Code)
    requires PassportsOk(s.passports) && TokensOk(s.passports, s.tokens) && jti in s.tokens
    ensures var t := s.tokens[jti];
      AssertTokenUsable(s, jti, {}) == Err(code) <==>
        || TokenFault(s, jti, code)
        || (&& !TokenFault(s, jti, TokenRevoked) && !TokenFault(s, jti, TokenExpired)
            && if t.parent.Some? && !ChainFit(s, t.parent.value)
               then AssertTokenUsable(s, t.parent.value, {}) == Err(code) else FirstFault(s, t.sub, code))
  {
    hide PassportsOk, TokensOk, TokenOk, AssertPassportUsable, AssertTokenUsable, FirstFault, ChainFit, TokenFault;
    var t := s.tokens[jti];
    ParentIsHigher(s, jti);
    FaultExactly(s, t.sub, code);
    OwnCodes(s, jti, code);
    if t.parent.Some? && !TokenFault(s, jti, TokenRevoked) && !TokenFault(s, jti, TokenExpired) {
      TokenGoesUp(s, jti, {});
      assert {} + {jti} == {jti};
      TrailIsIdle(s, t.parent.value, {jti});
      UsableTokenExactly(s, t.parent.value);
    }
  }

  lemma ParentIsHigher(s: State, jti: Id)
    requires TokensOk(s.passports, s.tokens) && jti in s.tokens
    ensures var t := s.tokens[jti];
      && TokenOk(s.passports, s.tokens, jti) && t.sub in s.passports
      && (t.parent.Some? ==> t.parent.value in s.tokens && s.tokens[t.parent.value].depth < t.depth)
  {
    assert TokenOk(s.passports, s.tokens, jti);
  }

  lemma OwnCodes(s: State, jti: Id, code: Code)
    requires TokensOk(s.passports, s.tokens) && jti in s.tokens
    ensures TokenFault(s, jti, code) ==> AssertTokenUsable(s, jti, {}) == Err(code)
    ensures var t, u := s.tokens[jti], AssertTokenUsable(s, jti, {});
      && (TokenFault(s, jti, TokenRevoked) ==> u == Err(TokenRevoked))
      && (TokenFault(s, jti, TokenExpired) ==> u == Err(TokenExpired))
      && (t.parent.None? && !TokenFault(s, jti, TokenRevoked) && !TokenFault(s, jti, TokenExpired) ==>
            u == AssertPassportUsable(s, t.sub, {}))
      && (TokenFault(s, jti, code) ==> code == TokenRevoked || code == TokenExpired)
  {
    hide TokensOk, TokenOk, AssertTokenUsable, AssertPassportUsable;
    ParentIsHigher(s, jti);
    if TokenFault(s, jti, TokenRevoked) { TokenAtFault(s, jti, TokenRevoked); }
    else if TokenFault(s, jti, TokenExpired) { TokenAtFault(s, jti, TokenExpired); }
    else if s.tokens[jti].parent.None? { RootFault(s, jti); }
  }
}
