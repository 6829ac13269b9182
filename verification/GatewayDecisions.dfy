/** What an approver's decision does, exactly, and what the approvers of a record have said. */
module GatewayDecisions {
  import opened Prelude
  import opened Delegation
  import opened Gateway
  import opened GatewayInvariants
  import opened GatewayGrants
  import opened GatewayExecutions
  import opened GatewayTheorems

  // ----- One decision -----

  /** The record still waits for approvers. */
  ghost predicate Open(ap: Approval) { ap.status == ApPending || ap.status == ApPartial }

  /** The approver may have his say: the record is open, in time, and he has not spoken for it yet. */
  ghost predicate Heard(s: State, id: Id, approver: Id)
    requires id in s.approvals
  {
    var ap := s.approvals[id];
    Open(ap) && s.now <= ap.expiresAt && approver !in ap.approvers
  }

  /** The receipt of a decision on a record. */
  ghost predicate Noted(s: State, t: State, id: Id, d: Decision)
    requires id in s.approvals
  {
    var i := s.approvals[id].intent;
    t.log == s.log + [Receipt(d, i.org, i.passport, Some(i), i.amount, None, None, Some(id), s.now)]
  }

  /** The two credentials of an approved record: the deferred action and the approval itself. */
  ghost function Sealed(cfg: Config, s: State, id: Id, approvers: seq<Id>, jti: Id): set<Credential>
    requires id in s.approvals
  {
    var ap := s.approvals[id];
    var i := ap.intent;
    {ActionCredential(jti, ap.kid, i.org, i.passport, i, i.action, i.resource, i.amount, true, ap.token, i.aud,
                      s.now, s.now + cfg.actionTtl * 1000),
     ApprovalCredential(id, ap.org, ap.passport, i, Some(jti), approvers, s.now + cfg.approvalTtl * 1000, i.aud)}
  }

  /** A yes that fills the quorum approves the record and seals its credentials. */
  ghost predicate Approves(cfg: Config, s: State, t: State, id: Id, approver: Id, jti: Id)
    requires id in s.approvals
  {
    var ap := s.approvals[id];
    var more := ap.approvers + [approver];
    && t == s.(approvals := s.approvals[id := ap.(status := ApApproved, approvers := more, actionJti := Some(jti))],
               sealed := s.sealed + Sealed(cfg, s, id, more, jti), log := t.log)
    && Noted(s, t, id, Approved)
  }

  /** A yes before that waits for others. */
  ghost predicate Waits(s: State, t: State, id: Id, approver: Id)
    requires id in s.approvals
  {
    var ap := s.approvals[id];
    && t == s.(approvals := s.approvals[id := ap.(status := ApPartial, approvers := ap.approvers + [approver])],
               log := t.log)
    && Noted(s, t, id, StepUp)
  }

  /** A no denies, counts nobody and seals nothing. */
  ghost predicate Denies(s: State, t: State, id: Id)
    requires id in s.approvals
  {
    && t == s.(approvals := s.approvals[id := s.approvals[id].(status := ApDenied)], log := t.log)
    && Noted(s, t, id, Denied)
  }

  /** A word that comes too late expires the record. */
  ghost predicate Expires(s: State, t: State, id: Id)
    requires id in s.approvals
  {
    t == s.(approvals := s.approvals[id := s.approvals[id].(status := ApExpired)])
  }

  /** What a decision on a known record is answered, and what it leaves. */
  lemma DecidesExactly(cfg: Config, s: State, id: Id, approver: Id, approve: bool, jti: Id)
    requires id in s.approvals && ApprovalsOk(s.approvals)
    ensures var ap, t := s.approvals[id], DecideStep(cfg, s, id, approver, approve, jti);
            var out := DecideOutcome(s, id, approver, approve);
      && (Heard(s, id, approver) && approve && |ap.approvers| + 1 == ap.quorum ==>
            out == Ok(ApApproved) && Approves(cfg, s, t, id, approver, jti))
      && (Heard(s, id, approver) && approve && |ap.approvers| + 1 < ap.quorum ==>
            out == Ok(ApPartial) && Waits(s, t, id, approver))
      && (Heard(s, id, approver) && !approve ==> out == Ok(ApDenied) && Denies(s, t, id))
      && (Open(ap) && s.now > ap.expiresAt ==> out == Err(ApprovalExpired) && Expires(s, t, id))
      && (!Open(ap) || (s.now <= ap.expiresAt && approver in ap.approvers) ==> out == Err(ApprovalResolved) && t == s)
      && (Heard(s, id, approver) ==> |ap.approvers| + 1 <= ap.quorum)
  {
    assert ApprovalOk(s.approvals[id]);
    if Heard(s, id, approver) {
      if approve { YesCounts(cfg, s, id, approver, jti); } else { NoDenies(cfg, s, id, approver, jti); }
      hide DecideStep, DecideOutcome, Approves, Waits, Denies, Expires;
    } else {
      NotHeard(cfg, s, id, approver, approve, jti);
      hide DecideStep, DecideOutcome, Approves, Waits, Denies, Expires;
    }
  }

  lemma YesCounts(cfg: Config, s: State, id: Id, approver: Id, jti: Id)
    requires id in s.approvals && Heard(s, id, approver)
    ensures var ap, t := s.approvals[id], DecideStep(cfg, s, id, approver, true, jti);
            if |ap.approvers| + 1 < ap.quorum
            then DecideOutcome(s, id, approver, true) == Ok(ApPartial) && Waits(s, t, id, approver)
            else DecideOutcome(s, id, approver, true) == Ok(ApApproved) && Approves(cfg, s, t, id, approver, jti)
  {
  }

  lemma NoDenies(cfg: Config, s: State, id: Id, approver: Id, jti: Id)
    requires id in s.approvals && Heard(s, id, approver)
    ensures DecideOutcome(s, id, approver, false) == Ok(ApDenied)
    ensures Denies(s, DecideStep(cfg, s, id, approver, false, jti), id)
  {
    hide Minted;
  }

  lemma NotHeard(cfg: Config, s: State, id: Id, approver: Id, approve: bool, jti: Id)
    requires id in s.approvals && !Heard(s, id, approver)
    ensures var ap, t := s.approvals[id], DecideStep(cfg, s, id, approver, approve, jti);
            if Open(ap) && s.now > ap.expiresAt
            then DecideOutcome(s, id, approver, approve) == Err(ApprovalExpired) && Expires(s, t, id)
            else DecideOutcome(s, id, approver, approve) == Err(ApprovalResolved) && t == s
  {
    hide Minted;
    assert s.approvals[id := s.approvals[id]] == s.approvals;
  }

  /** The status after a decision, by what was said when: exactly one of these applies. */
  lemma StatusExactly(cfg: Config, s: State, id: Id, approver: Id, approve: bool, jti: Id)
    requires id in s.approvals && ApprovalsOk(s.approvals) && Open(s.approvals[id])
    ensures id in DecideStep(cfg, s, id, approver, approve, jti).approvals
    ensures var ap, ap' := s.approvals[id], DecideStep(cfg, s, id, approver, approve, jti).approvals[id];
      && (ap'.status == ApApproved <==> Heard(s, id, approver) && approve && |ap.approvers| + 1 == ap.quorum)
      && (ap'.status == ApDenied <==> Heard(s, id, approver) && !approve)
      && (ap'.status == ApExpired <==> s.now > ap.expiresAt)
      && (ap'.approvers == ap.approvers + [approver] <==> Heard(s, id, approver) && approve)
      && (ap'.approvers == ap.approvers <==> !(Heard(s, id, approver) && approve))
  {
    DecidesExactly(cfg, s, id, approver, approve, jti);
    assert |s.approvals[id].approvers + [approver]| == |s.approvals[id].approvers| + 1;
    hide DecideStep, DecideOutcome, ApprovalsOk, Noted, Sealed;
  }

  lemma UnknownRecord(cfg: Config, s: State, id: Id, approver: Id, approve: bool, jti: Id)
    requires id !in s.approvals
    ensures DecideOutcome(s, id, approver, approve) == Err(NotFound)
    ensures DecideStep(cfg, s, id, approver, approve, jti) == s
  {
  }

  // ----- Along runs -----

  /** At step `j` this approver says yes to this record and is heard. */
  ghost predicate SaysYes(states: seq<State>, events: seq<Event>, j: int, id: Id, approver: Id) {
    && 0 <= j < |events| && |states| == |events| + 1
    && events[j].Decide? && events[j].id == id && events[j].approver == approver && events[j].approve
    && id in states[j].approvals && Heard(states[j], id, approver)
  }

  lemma StepApprovers(cfg: Config, s: State, e: Event, id: Id, approver: Id)
    requires Fresh(s, e) && ApprovalsOk(s.approvals) && id in Step(cfg, s, e).approvals
    ensures approver in Step(cfg, s, e).approvals[id].approvers
       <==> || (id in s.approvals && approver in s.approvals[id].approvers)
            || (&& e.Decide? && e.id == id && e.approver == approver && e.approve
                && id in s.approvals && Heard(s, id, approver))
  {
    hide DecideStep, AuthorizeStep, AdminStep, DelegateStep, ExecuteStep, ApprovalsOk;
    match e
    case Decide(x, who, yes, jti) => DecideApprovers(cfg, s, x, who, yes, jti, id, approver);
    case Authorize(r) => AuthorizeApprovers(cfg, s, r, id);
    case _ => StepFrame(cfg, s, e);
  }

  lemma DecideApprovers(cfg: Config, s: State, x: Id, who: Id, yes: bool, jti: Id, id: Id, approver: Id)
    requires ApprovalsOk(s.approvals) && id in DecideStep(cfg, s, x, who, yes, jti).approvals
    ensures approver in DecideStep(cfg, s, x, who, yes, jti).approvals[id].approvers
       <==> || (id in s.approvals && approver in s.approvals[id].approvers)
            || (x == id && who == approver && yes && id in s.approvals && Heard(s, id, approver))
  {
    hide DecideStep, Heard, ApprovalsOk;
    if x in s.approvals {
      OnlyRecord(cfg, s, x, who, yes, jti);
      var ap := s.approvals[x];
      Appended(ap.approvers, who, approver);
    } else {
      UnknownRecord(cfg, s, x, who, yes, jti);
    }
  }

  /** Other records stay, and this one has at most one approver more. */
  lemma OnlyRecord(cfg: Config, s: State, x: Id, who: Id, yes: bool, jti: Id)
    requires x in s.approvals && ApprovalsOk(s.approvals)
    ensures var aps := DecideStep(cfg, s, x, who, yes, jti).approvals;
      && aps.Keys == s.approvals.Keys && (forall id :: id in aps && id != x ==> aps[id] == s.approvals[id])
      && aps[x].approvers == if Heard(s, x, who) && yes then s.approvals[x].approvers + [who]
         else s.approvals[x].approvers
  {
    DecidesExactly(cfg, s, x, who, yes, jti);
    hide DecideStep, DecideOutcome, ApprovalsOk, Noted, Sealed;
  }

  lemma Appended(ids: seq<Id>, x: Id, y: Id)
    ensures y in ids + [x] <==> y in ids || y == x
  {
  }

  /** A new record has no approvers, and others keep theirs. */
  lemma AuthorizeApprovers(cfg: Config, s: State, r: AuthorizeRequest, id: Id)
    requires r.freshApproval !in s.approvals && id in AuthorizeStep(cfg, s, r).approvals
    ensures var ap := AuthorizeStep(cfg, s, r).approvals[id];
            if id in s.approvals then ap == s.approvals[id] else ap.approvers == []
  {
    hide AuthorizeOutcome, VerdictOf;
  }

  /** The approvers of a record are exactly those who said yes and were heard. */
  lemma {:induction false} ApproversSaidYes(cfg: Config, states: seq<State>, events: seq<Event>, k: nat, id: Id,
      approver: Id)
    requires Run(cfg, states, events) && k < |states| && id in states[k].approvals
    ensures approver in states[k].approvals[id].approvers
       <==> exists j :: j < k && SaysYes(states, events, j, id, approver)
  {
    hide Step, Fresh, Heard;
    if k == 0 {
      StartsEmpty(cfg, states, events);
    } else {
      var s, e := states[k - 1], events[k - 1];
      assert StepAt(cfg, states, events, k - 1);
      RunApprovalsOk(cfg, states, events, k - 1);
      StepApprovers(cfg, s, e, id, approver);
      if id in s.approvals {
        hide StepAt, Run;
        ApproversSaidYes(cfg, states, events, k - 1, id, approver);
      } else {
        NotYetKnown(cfg, states, events, k - 1, id, approver);
      }
      assert SaysYes(states, events, k - 1, id, approver) <==>
             (&& e.Decide? && e.id == id && e.approver == approver && e.approve
              && id in s.approvals && Heard(s, id, approver));
    }
  }

  lemma StartsEmpty(cfg: Config, states: seq<State>, events: seq<Event>)
    requires Run(cfg, states, events)
    ensures states[0].approvals == map[]
  {
    hide StepAt;
  }

  lemma RunApprovalsOk(cfg: Config, states: seq<State>, events: seq<Event>, k: nat)
    requires Run(cfg, states, events) && k < |states|
    ensures ApprovalsOk(states[k].approvals) && GrantsOk(states[k].approvals, states[k].sealed, states[k].log)
  {
    hide Run, GrantsOk, ApprovalsOk, PassportsOk, TokensOk;
    RunInv(cfg, states, events, k);
    GrantsHaveApprovals(states[k].approvals, states[k].sealed, states[k].log);
  }

  /** Records never disappear, so nobody can have spoken for one that is unknown. */
  lemma NotYetKnown(cfg: Config, states: seq<State>, events: seq<Event>, k: nat, id: Id, approver: Id)
    requires Run(cfg, states, events) && k < |states| && id !in states[k].approvals
    ensures forall j :: j < k ==> !SaysYes(states, events, j, id, approver)
  {
    forall j | 0 <= j < k ensures id !in states[j].approvals {
      if id in states[j].approvals { ApprovalHistory(cfg, states, events, j, k, id); }
    }
    hide Run;
  }

  /** A denied record stays denied, and in no later state is anything sealed or executed for it. */
  lemma DeniedNeverSeals(cfg: Config, states: seq<State>, events: seq<Event>, i: nat, j: nat, id: Id)
    requires Run(cfg, states, events) && i <= j < |states|
    requires id in states[i].approvals && states[i].approvals[id].status == ApDenied
    ensures id in states[j].approvals && states[j].approvals[id] == states[i].approvals[id]
    ensures forall c :: c in states[j].sealed && c.ApprovalCredential? ==> c.approvalId != id
    ensures forall n :: 0 <= n < |states[j].log| && states[j].log[n].approvalId == Some(id) ==>
              states[j].log[n].decision != Executed
  {
    ApprovalHistory(cfg, states, events, i, j, id);
    RunApprovalsOk(cfg, states, events, j);
    RunInv(cfg, states, events, j);
    hide Run;
    var s := states[j];
    DeniedSealsNothing(s.approvals, s.sealed, s.log, id);
    DeniedExecutesNothing(s.approvals, s.log, id);
  }

  lemma DeniedSealsNothing(aps: map<Id, Approval>, sealed: set<Credential>, log: seq<Receipt>, id: Id)
    requires GrantsOk(aps, sealed, log) && id in aps && aps[id].status == ApDenied
    ensures forall c :: c in sealed && c.ApprovalCredential? ==> c.approvalId != id
  {
    forall c | c in sealed && c.ApprovalCredential? ensures c.approvalId != id { assert CredentialOk(c, aps, log); }
  }

  lemma DeniedExecutesNothing(aps: map<Id, Approval>, log: seq<Receipt>, id: Id)
    requires AllJustified(log, aps) && id in aps && aps[id].status == ApDenied
    ensures forall n :: 0 <= n < |log| && log[n].approvalId == Some(id) ==> log[n].decision != Executed
  {
    forall n | 0 <= n < |log| && log[n].approvalId == Some(id) ensures log[n].decision != Executed {
      assert log[n].decision == Executed ==> Justified(log[..n], aps, log[n]);
    }
  }
}
