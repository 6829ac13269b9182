/** Passports and locks, exactly: when one is issued and what it holds, what a rotation changes and
    for how long, which status lasts, and what a lock does. */
module GatewayPassports {
  import opened Prelude
  import opened Delegation
  import opened Gateway
  import opened GatewayInvariants
  import opened GatewayTheorems
  import opened GatewayExact
  import opened GatewayRevocations

  // ----- Issuing -----

  /** The key the new passport gets: drawn by the gateway if it may and shall keep it, otherwise the
      one offered. What is offered has to be a key in either case. */
  ghost predicate GetsKey(n: NewPassport, pub: Id) {
    && n.key != BadKey
    && if n.server then n.keeper == Keeper(true, pub) else n.key == Offered(pub)
  }

  /** The lifetime asked for, but no longer than the parent's. */
  ghost predicate GetsExpiry(s: State, n: NewPassport, exp: int) {
    && n.exp > s.now && exp <= n.exp
    && match n.parent
       case None => exp == n.exp
       case Some(q) => q in s.passports && exp <= s.passports[q].exp && (exp == n.exp || exp == s.passports[q].exp)
  }

  /** Who may get one. */
  ghost predicate Eligible(s: State, n: NewPassport) {
    && OrgOpen(s, n.org)
    && (exists c :: c in n.name && !IsJsSpace(c)) && |n.name| + |Astral(n.name)| <= 256
    && (match n.parent
        case None => !n.subagent
        case Some(q) => q in s.passports && s.passports[q].org == n.org && LineageHealthy(s, q))
    && (match n.blueprint
        case None => true
        case Some(b) => b in s.blueprints && s.blueprints[b].org == n.org && !s.blueprints[b].revoked)
  }

  /** The seconds an archived key stays good. */
  ghost predicate GetsGrace(asked: int, grace: nat) {
    (asked == 0 && grace == 300) || (asked > 0 && grace == asked) || (asked < 0 && grace == 0)
  }

  /** A passport is issued exactly to whom may get one, active, with its first key, and no other
      field than asked for. */
  lemma IssuesExactly(s: State, id: Id, n: NewPassport, p: Passport)
    requires PassportsOk(s.passports)
    ensures IssueChecks(s, id, n) == Ok(p)
       <==> && Eligible(s, n) && GetsKey(n, p.current.pub) && GetsExpiry(s, n, p.exp) && GetsGrace(n.grace, p.grace)
            && p == Passport(id, n.org, n.parent, n.blueprint, n.environment, n.server, p.grace, Active, p.exp,
                             Key(1, p.current.pub, false, 0), [])
  {
    hide AssertPassportUsable, LineageHealthy, Utf16Length, Astral, IsJsSpace;
    Utf16LengthIs(n.name);
    assert forall i :: 0 <= i < |n.name| ==> n.name[i] in n.name;
    if n.parent.Some? && n.parent.value in s.passports {
      UsablePassportExactly(s, n.parent.value);
      assert s.passports[n.parent.value].exp > 0;
    }
  }

  // ----- Rotating -----

  /** The next key: the one offered, or one drawn for a passport whose key the gateway keeps. */
  ghost predicate TurnsTo(p: Passport, key: KeyField, keeper: Keeper, pub: Id) {
    key == Offered(pub) || (key == NoKey && p.server && keeper == Keeper(true, pub))
  }

  /** A usable passport turns to its next key; the old one is archived, unrevoked. */
  lemma RotatesExactly(s: State, id: Id, key: KeyField, keeper: Keeper, q: Passport)
    requires PassportsOk(s.passports) && id in s.passports
    ensures var p := s.passports[id];
            RotateChecks(s, id, key, keeper) == Ok(q) <==>
              && LineageHealthy(s, id) && TurnsTo(p, key, keeper, q.current.pub)
              && q == p.(current := Key(p.current.kid + 1, q.current.pub, false, 0),
                         history := p.history + [Key(p.current.kid, p.current.pub, false,
                                                     s.now + 1000 * (if p.grace == 0 then 300 else p.grace))])
  {
    hide AssertPassportUsable, LineageHealthy, PassportsOk;
    UsablePassportExactly(s, id);
  }

  /** From then on the new key is the passport's own, and the old one is good under its number
      until the grace period ends, in seconds from the rotation, and no longer. */
  lemma RotationGrace(s: State, id: Id, key: KeyField, keeper: Keeper, t: int)
    requires PassportsOk(s.passports) && id in s.passports && KeysInOrder(s.passports[id])
    requires RotateChecks(s, id, key, keeper).Ok?
    ensures var p, q := s.passports[id], RotateChecks(s, id, key, keeper).value;
      && (exists k :: KeyFor(q, None, t) == Ok(k) && TurnsTo(p, key, keeper, k.pub))
      && (KeyFor(q, Some(p.current.kid), t).Ok? <==> t <= s.now + 1000 * (if p.grace == 0 then 300 else p.grace))
      && (KeyFor(q, Some(p.current.kid), t).Ok? ==> KeyFor(q, Some(p.current.kid), t).value.pub == p.current.pub)
  {
    var p, q := s.passports[id], RotateChecks(s, id, key, keeper).value;
    RotatesExactly(s, id, key, keeper, q);
    NotArchived(p.history, p.current.kid);
    FindAppended(p.history, q.history[|p.history|], p.current.kid);
    hide RotateChecks, LineageHealthy, PassportsOk, FindKey, KeysInOrder;
    assert KeyFor(q, None, t) == Ok(q.current);
  }

  // ----- Status -----

  lemma StatusIsSet(cfg: Config, s: State, id: Id, status: Status)
    requires id in s.passports
    ensures var t := Step(cfg, s, SetStatus(id, status));
            t == s.(passports := s.passports[id := s.passports[id].(status := status)],
                    revocations := t.revocations, log := t.log)
    ensures Step(cfg, s, SetStatus(id, status)).revocations
         == if status == Status.Revoked then s.revocations + {PassportRevocation(id)} else s.revocations
  {
  }

  /** A status change keeps a usable passport from use for good exactly if it revokes it. */
  lemma StatusLasts(cfg: Config, s: State, id: Id, status: Status)
    requires Reachable(cfg, s) && AssertPassportUsable(s, id, {}).Ok?
    ensures PassportGone(cfg, Step(cfg, s, SetStatus(id, status)), id) <==> status == Status.Revoked
  {
    hide Reachable, AssertPassportUsable, Step, Inv, AllInOrder, PassportGone;
    UsableActive(s, id);
    ReachableInv(cfg, s);
    if status == Status.Revoked { GoneForGood(cfg, s, id); } else { ComesBack(cfg, s, id, status); }
  }

  lemma GoneForGood(cfg: Config, s: State, id: Id)
    requires Inv(cfg, s) && id in s.passports
    ensures PassportGone(cfg, Step(cfg, s, SetStatus(id, Status.Revoked)), id)
  {
    hide AssertPassportUsable, Step, Inv, Play, Possible;
    var t := Step(cfg, s, SetStatus(id, Status.Revoked));
    forall events | Possible(cfg, t, events) ensures AssertPassportUsable(Play(cfg, t, events), id, {}).Err? {
      RevokedStays(cfg, s, id, events);
    }
  }

  lemma ComesBack(cfg: Config, s: State, id: Id, status: Status)
    requires id in s.passports && AssertPassportUsable(s, id, {}).Ok?
    requires status != Status.Revoked && s.passports[id].status != Status.Revoked
    ensures !PassportGone(cfg, Step(cfg, s, SetStatus(id, status)), id)
  {
    hide AssertPassportUsable, Step, Play, Possible;
    var t, back := Step(cfg, s, SetStatus(id, status)), SetStatus(id, s.passports[id].status);
    PlayOne(cfg, t, back);
    UsedAgain(cfg, s, id, status);
    assert AssertPassportUsable(Play(cfg, t, [back]), id, {}).Ok?;
  }

  lemma RevokedStays(cfg: Config, s: State, id: Id, events: seq<Event>)
    requires Inv(cfg, s) && id in s.passports
    requires Possible(cfg, Step(cfg, s, SetStatus(id, Status.Revoked)), events)
    ensures AssertPassportUsable(Play(cfg, Step(cfg, s, SetStatus(id, Status.Revoked)), events), id, {}).Err?
  {
    var e := SetStatus(id, Status.Revoked);
    assert Fresh(s, e);
    StatusIsSet(cfg, s, id, Status.Revoked);
    hide Step, Inv, Play, Possible, Fresh, AssertPassportUsable;
    StepInv(cfg, s, e);
    PlayGrows(cfg, Step(cfg, s, e), events);
    RevokedIsRefused(Play(cfg, Step(cfg, s, e), events), id);
  }

  lemma RevokedIsRefused(s: State, id: Id)
    requires PassportRevocation(id) in s.revocations
    ensures AssertPassportUsable(s, id, {}).Err?
  {
  }

  lemma UsedAgain(cfg: Config, s: State, id: Id, status: Status)
    requires id in s.passports && AssertPassportUsable(s, id, {}).Ok?
    requires status != Status.Revoked && s.passports[id].status != Status.Revoked
    ensures var t := Step(cfg, s, SetStatus(id, status));
            AssertPassportUsable(Step(cfg, t, SetStatus(id, s.passports[id].status)), id, {}).Ok?
  {
    hide Step, AssertPassportUsable;
    var t := Step(cfg, s, SetStatus(id, status));
    StatusIsSet(cfg, s, id, status);
    StatusIsSet(cfg, t, id, s.passports[id].status);
    var u := Step(cfg, t, SetStatus(id, s.passports[id].status));
    assert u.passports == s.passports;
    SameUse(s, u, id, {});
  }

  // ----- Locks and blueprints -----

  /** A known organisation is open exactly if it was last unlocked; an unknown one stays unknown. */
  lemma LocksExactly(cfg: Config, s: State, org: Id, locked: bool)
    ensures OrgOpen(Step(cfg, s, SetLock(org, locked)), org) <==> org in s.orgs && !locked
    ensures forall x :: x != org ==> (OrgOpen(Step(cfg, s, SetLock(org, locked)), x) <==> OrgOpen(s, x))
    ensures org !in s.orgs ==> Step(cfg, s, SetLock(org, locked)) == s
  {
  }

  /** A new organisation is open; a new blueprint is stored, unrevoked, for an open organisation
      only. */
  lemma CreatesExactly(cfg: Config, s: State, org: Id, id: Id)
    ensures OrgOpen(Step(cfg, s, CreateOrg(org)), org)
    ensures var t := Step(cfg, s, CreateBlueprint(id, org));
            t.blueprints == if OrgOpen(s, org) then s.blueprints[id := Blueprint(org, false)] else s.blueprints
  {
  }

  // ----- Revocations -----

  /** The first archived key of the number is marked and closed; the others stay. */
  ghost predicate KeyMarked(before: seq<Key>, after: seq<Key>, kid: nat, now: int) {
    exists n :: 0 <= n < |before| && before[n].kid == kid && (forall m :: 0 <= m < n ==> before[m].kid != kid)
                && after == before[n := Key(kid, before[n].pub, true, now)]
  }

  ghost predicate IsArchived(p: Passport, kid: nat) { exists k :: k in p.history && k.kid == kid }

  /** What a key revocation makes of a passport: an archived key goes before the current one. */
  ghost predicate LosesKey(p: Passport, q: Passport, kid: nat, now: int) {
    && q == p.(current := q.current, history := q.history)
    && if IsArchived(p, kid) then KeyMarked(p.history, q.history, kid, now) && q.current == p.current
       else q.history == p.history && q.current == p.current.(revoked := true)
  }

  lemma {:induction false} MarkedIs(history: seq<Key>, kid: nat, now: int)
    requires FindKey(history, kid).Some?
    ensures KeyMarked(history, RevokedInHistory(history, kid, now), kid, now)
  {
    var after := RevokedInHistory(history, kid, now);
    if history[0].kid == kid {
      assert after == history[0 := Key(kid, history[0].pub, true, now)];
    } else {
      MarkedIs(history[1..], kid, now);
      var n :| 0 <= n < |history[1..]| && history[1..][n].kid == kid
               && (forall m :: 0 <= m < n ==> history[1..][m].kid != kid)
               && (RevokedInHistory(history[1..], kid, now)
                   == history[1..][n := Key(kid, history[1..][n].pub, true, now)]);
      assert after == history[n + 1 := Key(kid, history[n + 1].pub, true, now)];
      forall m | 0 <= m < n + 1 ensures history[m].kid != kid {
        if m > 0 { assert history[m] == history[1..][m - 1]; }
      }
    }
  }

  lemma KeyRevokedExactly(p: Passport, kid: nat, now: int)
    ensures WithKeyRevoked(p, kid, now).Ok? <==> IsArchived(p, kid) || p.current.kid == kid
    ensures WithKeyRevoked(p, kid, now).Ok? ==> LosesKey(p, WithKeyRevoked(p, kid, now).value, kid, now)
  {
    FindKeyIsFirst(p.history, kid);
    if FindKey(p.history, kid).Some? { MarkedIs(p.history, kid, now); }
    hide FindKey, RevokedInHistory, KeyMarked;
  }

  /** The organisation of what is named, if there is such a thing. */
  ghost predicate Belongs(s: State, r: Revocation, named: Id, org: Id) {
    match r
    case PassportRevocation(id) => id in s.passports && org == s.passports[id].org
    case TokenRevocation(id) => id in s.tokens && org == s.tokens[id].org
    case ActionRevocation(_) => named != "" && org == named
    case KeyRevocation(id, kid) =>
      id in s.passports && org == s.passports[id].org
      && (IsArchived(s.passports[id], kid) || s.passports[id].current.kid == kid)
    case BlueprintRevocation(id) => id in s.blueprints && org == s.blueprints[id].org
    case OrgRevocation(id) => id in s.orgs && org == id
  }

  /** What a revocation is recorded as: with the key number of the request joined to the id. */
  ghost predicate RecordedAs(r: Revocation, kid: Id, x: Revocation) {
    var name := if kid == "" then "" else ":" + kid;
    match r
    case PassportRevocation(id) => x == PassportRevocation(id + name)
    case TokenRevocation(id) => x == TokenRevocation(id + name)
    case ActionRevocation(jti) => x == ActionRevocation(jti + name)
    case BlueprintRevocation(id) => x == BlueprintRevocation(id + name)
    case OrgRevocation(id) => x == OrgRevocation(id + name)
    case KeyRevocation(_, _) => x == r
  }

  /** The record of what is revoked is marked, and no other. */
  ghost predicate Marks(s: State, t: State, r: Revocation) {
    match r
    case PassportRevocation(id) =>
      id in s.passports
      && t == s.(passports := s.passports[id := s.passports[id].(status := Status.Revoked)],
                 revocations := t.revocations, log := t.log)
    case KeyRevocation(id, kid) =>
      id in s.passports && id in t.passports && LosesKey(s.passports[id], t.passports[id], kid, s.now)
      && t == s.(passports := s.passports[id := t.passports[id]], revocations := t.revocations, log := t.log)
    case BlueprintRevocation(id) =>
      id in s.blueprints
      && t == s.(blueprints := s.blueprints[id := Blueprint(s.blueprints[id].org, true)],
                 revocations := t.revocations, log := t.log)
    case OrgRevocation(id) => t == s.(orgs := s.orgs[id := Org(true)], revocations := t.revocations, log := t.log)
    case _ => t == s.(revocations := t.revocations, log := t.log)
  }

  /** A revocation of what there is marks it, is recorded and noted; any other does nothing. */
  lemma RevokesExactly(s: State, r: Revocation, kid: Id, named: Id)
    ensures var t := RevokeStep(s, r, kid, named);
      && ((forall org :: !Belongs(s, r, named, org)) ==> t == s)
      && forall org :: Belongs(s, r, named, org) ==>
           && Marks(s, t, r)
           && (exists x :: RecordedAs(r, kid, x) && t.revocations == s.revocations + {x})
           && t.log == s.log + [Receipt(RevokedEntry, org, "admin", None, 0, None, None, None, s.now)]
  {
    if r.KeyRevocation? && r.id in s.passports { KeyRevokedExactly(s.passports[r.id], r.kid, s.now); }
    assert RecordedAs(r, kid, Recorded(r, kid));
    hide WithKeyRevoked, LosesKey, IsArchived, Recorded, RecordedAs;
    var org := RevocationOrg(s, r, named);
    assert org.Some? ==> Belongs(s, r, named, org.value);
  }

  // ----- What these requests leave -----

  /** One receipt is left, about this organisation and actor. */
  ghost predicate Notes(s: State, t: State, org: Id, actor: Id) {
    t.log == s.log + [Receipt(Allow, org, actor, None, 0, None, None, None, s.now)]
  }

  /** A passport that is issued or rotated is stored under its id and noted; a request that is refused
      leaves nothing, and so does one about what is unknown. */
  lemma PassportsAreStored(s: State, id: Id, n: NewPassport, key: KeyField, keeper: Keeper)
    ensures var t, p := AdminStep(s, IssuePassport(id, n)), IssueChecks(s, id, n);
      if p.Ok? then t == s.(passports := s.passports[id := p.value], log := t.log) && Notes(s, t, n.org, id) else t == s
    ensures var t, p := AdminStep(s, RotateKey(id, key, keeper)), RotateChecks(s, id, key, keeper);
      if p.Ok? then t == s.(passports := s.passports[id := p.value], log := t.log) && Notes(s, t, p.value.org, id)
      else t == s
  {
    hide IssueChecks, RotateChecks;
  }

  /** The other administrative requests. */
  lemma OthersAreNoted(s: State, id: Id, org: Id, status: Status, locked: bool, ms: nat)
    ensures AdminStep(s, Tick(ms)) == s.(now := s.now + ms)
    ensures var t := AdminStep(s, SetStatus(id, status));
            if id in s.passports then Notes(s, t, s.passports[id].org, id) else t == s
    ensures var t := AdminStep(s, SetLock(org, locked));
            if org in s.orgs then t == s.(orgs := s.orgs[org := Org(locked)], log := t.log) && Notes(s, t, org, org)
            else t == s
  {
  }

  lemma CreationsAreNoted(s: State, id: Id, org: Id)
    ensures var t := AdminStep(s, CreateOrg(org));
            t == s.(orgs := s.orgs[org := Org(false)], log := t.log) && Notes(s, t, org, org)
    ensures var t := AdminStep(s, CreateBlueprint(id, org));
            if OrgOpen(s, org) then t == s.(blueprints := t.blueprints, log := t.log) && Notes(s, t, org, org)
            else t == s
  {
  }
}
