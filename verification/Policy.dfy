/** The policy engine of src/policy.js: default deny, explicit denies first, then approvals. */
module Policy {
  import opened Prelude
  import opened Glob

  datatype Effect = Allows | Denies | NeedsApproval

  /** The keys of a condition, all optional and all of them required to hold. Times of day are
      minutes since midnight, UTC. */
  datatype Condition = Condition(
    window: Option<(nat, nat)>, maxSpend: Option<int>, minSpend: Option<int>, maxDepth: Option<int>,
      minDepth: Option<int>,
    environments: seq<string>, blueprints: seq<string>, agents: seq<string>, audiences: seq<string>, tools: seq<string>,
    minApprovals: int)

  datatype Rule = Rule(
    id: string, effect: Effect, actions: seq<string>, resources: seq<string>, priority: int,
      condition: Option<Condition>)

  /** What is decided upon. */
  datatype Query = Query(
    action: string, resource: string, spend: nat, depth: nat, environment: string, blueprint: Option<string>,
    agent: string, aud: string, tool: string, minute: nat)

  predicate Listed(values: seq<string>, value: Option<string>) {
    values == [] || (value.Some? && value.value in values)
  }

  predicate ConditionMatches(c: Condition, q: Query) {
    && (c.window.Some? ==> c.window.value.0 <= q.minute <= c.window.value.1)
    && (c.maxSpend.Some? ==> q.spend <= c.maxSpend.value)
    && (c.minSpend.Some? ==> q.spend >= c.minSpend.value)
    && (c.maxDepth.Some? ==> q.depth <= c.maxDepth.value)
    && (c.minDepth.Some? ==> q.depth >= c.minDepth.value)
    && Listed(c.environments, Some(q.environment))
    && Listed(c.blueprints, q.blueprint)
    && Listed(c.agents, Some(q.agent))
    && Listed(c.audiences, Some(q.aud))
    && (c.tools == [] || exists i :: 0 <= i < |c.tools| && GlobMatch(c.tools[i], q.tool))
  }

  predicate Matches(p: Rule, q: Query) {
    && AnyMatch(p.actions, q.action) && AnyMatch(p.resources, q.resource)
    && (p.condition.Some? ==> ConditionMatches(p.condition.value, q))
  }

  // ----- filter, sort, find -----

  function Matched(ps: seq<Rule>, q: Query): seq<Rule> {
    if ps == [] then [] else (if Matches(ps[0], q) then [ps[0]] else []) + Matched(ps[1..], q)
  }

  /** In front of the first of lower or equal priority, as a stable sort that starts from the end. */
  function Placed(p: Rule, ps: seq<Rule>): seq<Rule> {
    if ps == [] || p.priority >= ps[0].priority then [p] + ps else [ps[0]] + Placed(p, ps[1..])
  }

  function Sorted(ps: seq<Rule>): seq<Rule> {
    if ps == [] then [] else Placed(ps[0], Sorted(ps[1..]))
  }

  function FirstWith(ps: seq<Rule>, effect: Effect): Option<Rule> {
    if ps == [] then None else if ps[0].effect == effect then Some(ps[0]) else FirstWith(ps[1..], effect)
  }

  /** The provisional effect and the policy that decided, if one did. */
  datatype Verdict = Verdict(effect: Effect, rule: Option<Rule>)

  function Evaluate(ps: seq<Rule>, q: Query): Verdict {
    var matched := Sorted(Matched(ps, q));
    var deny := FirstWith(matched, Denies);
    if deny.Some? then Verdict(Denies, deny)
    else
      var approval := FirstWith(matched, NeedsApproval);
      if approval.Some? then Verdict(NeedsApproval, approval)
      else
        var allow := FirstWith(matched, Allows);
        if allow.Some? then Verdict(Allows, allow) else Verdict(Denies, None)
  }

  // ----- What it decides -----

  /** Some policy of this effect applies. */
  ghost predicate Applies(ps: seq<Rule>, q: Query, effect: Effect) {
    exists p :: p in ps && Matches(p, q) && p.effect == effect
  }

  lemma {:induction false} MatchedAre(ps: seq<Rule>, q: Query)
    ensures forall p :: p in Matched(ps, q) <==> p in ps && Matches(p, q)
  {
    if ps != [] { MatchedAre(ps[1..], q); }
  }

  lemma {:induction false} PlacedAre(p: Rule, ps: seq<Rule>)
    ensures forall x :: x in Placed(p, ps) <==> x == p || x in ps
  {
    if ps != [] && p.priority < ps[0].priority { PlacedAre(p, ps[1..]); }
  }

  lemma {:induction false} SortedAre(ps: seq<Rule>)
    ensures forall p :: p in Sorted(ps) <==> p in ps
  {
    if ps != [] {
      SortedAre(ps[1..]);
      PlacedAre(ps[0], Sorted(ps[1..]));
    }
  }

  ghost predicate Descending(ps: seq<Rule>) {
    forall i, j :: 0 <= i < j < |ps| ==> ps[i].priority >= ps[j].priority
  }

  lemma {:induction false} PlacedDescends(p: Rule, ps: seq<Rule>)
    requires Descending(ps)
    ensures Descending(Placed(p, ps))
  {
    if ps != [] && p.priority < ps[0].priority {
      PlacedDescends(p, ps[1..]);
      PlacedAre(p, ps[1..]);
      var rest := Placed(p, ps[1..]);
      forall j | 0 <= j < |rest| ensures ps[0].priority >= rest[j].priority { assert rest[j] in rest; }
    }
  }

  lemma {:induction false} SortedDescends(ps: seq<Rule>)
    ensures Descending(Sorted(ps))
  {
    if ps != [] {
      SortedDescends(ps[1..]);
      PlacedDescends(ps[0], Sorted(ps[1..]));
    }
  }

  lemma {:induction false} FirstIsHighest(ps: seq<Rule>, effect: Effect)
    requires Descending(ps)
    ensures FirstWith(ps, effect).None? ==> forall p :: p in ps ==> p.effect != effect
    ensures FirstWith(ps, effect).Some? ==>
              var f := FirstWith(ps, effect).value;
              f in ps && f.effect == effect && forall p :: p in ps && p.effect == effect ==> p.priority <= f.priority
  {
    if ps != [] && ps[0].effect != effect { FirstIsHighest(ps[1..], effect); }
  }

  /** The verdict depends on which policies apply, not on their order or priorities; the policy it
      names is one of the highest priority among those that apply with that effect. */
  lemma EvaluatesExactly(ps: seq<Rule>, q: Query)
    ensures Evaluate(ps, q).effect == Allows
       <==> Applies(ps, q, Allows) && !Applies(ps, q, Denies) && !Applies(ps, q, NeedsApproval)
    ensures Evaluate(ps, q).effect == NeedsApproval <==> Applies(ps, q, NeedsApproval) && !Applies(ps, q, Denies)
    ensures Evaluate(ps, q).rule.Some? ==>
              var p := Evaluate(ps, q).rule.value;
              && p in ps && Matches(p, q) && p.effect == Evaluate(ps, q).effect
              && forall x :: x in ps && Matches(x, q) && x.effect == p.effect ==> x.priority <= p.priority
  {
    hide Matches;
    var matched := Sorted(Matched(ps, q));
    MatchedAre(ps, q);
    SortedAre(Matched(ps, q));
    SortedDescends(Matched(ps, q));
    FirstIsHighest(matched, Denies);
    FirstIsHighest(matched, NeedsApproval);
    FirstIsHighest(matched, Allows);
    assert forall p :: p in matched <==> p in ps && Matches(p, q);
  }

  lemma OrderIsIrrelevant(ps: seq<Rule>, ps': seq<Rule>, q: Query)
    requires forall p :: p in ps <==> p in ps'
    ensures Evaluate(ps, q).effect == Evaluate(ps', q).effect
  {
    hide Matches, Evaluate;
    EvaluatesExactly(ps, q);
    EvaluatesExactly(ps', q);
    assert forall e :: Applies(ps, q, e) <==> Applies(ps', q, e);
  }

  /** `Math.max(1, Number(condition.min_approvals) || 1)` */
  function OwnQuorum(p: Rule): (n: nat)
    ensures n >= 1
  {
    if p.condition.Some? && p.condition.value.minApprovals > 1 then p.condition.value.minApprovals else 1
  }

  /** That of the deciding policy, looked up by its id. */
  function Quorum(ps: seq<Rule>, rule: Option<Rule>): (n: nat)
    ensures n >= 1
  {
    if rule.None? then 1 else QuorumOf(ps, rule.value.id)
  }

  function QuorumOf(ps: seq<Rule>, id: string): (n: nat)
    ensures n >= 1
  {
    if ps == [] then 1 else if ps[0].id == id then OwnQuorum(ps[0]) else QuorumOf(ps[1..], id)
  }

  ghost predicate DistinctIds(ps: seq<Rule>) {
    forall x, y :: x in ps && y in ps && x.id == y.id ==> x == y
  }

  /** With distinct ids it is the deciding policy's own. */
  lemma {:induction false} QuorumIsOwn(ps: seq<Rule>, p: Rule)
    requires p in ps && DistinctIds(ps)
    ensures Quorum(ps, Some(p)) == OwnQuorum(p)
  {
    if ps[0].id != p.id { QuorumIsOwn(ps[1..], p); }
  }

  // ----- What depends on the order of the policies -----

  /** It applies with the effect of the verdict, and no such policy has a higher priority. */
  ghost predicate MayDecide(ps: seq<Rule>, q: Query, p: Rule) {
    && p in ps && Matches(p, q) && p.effect == Evaluate(ps, q).effect
    && forall x :: x in ps && Matches(x, q) && x.effect == p.effect ==> x.priority <= p.priority
  }

  ghost predicate Reordered(ps: seq<Rule>, ps': seq<Rule>) { multiset(ps) == multiset(ps') }

  lemma ReorderedAre(ps: seq<Rule>, ps': seq<Rule>)
    requires Reordered(ps, ps')
    ensures forall p :: p in ps <==> p in ps'
  {
    assert forall p :: p in ps <==> p in multiset(ps);
    assert forall p :: p in ps' <==> p in multiset(ps');
  }

  lemma {:induction false} PlacedIsFirst(p: Rule, ps: seq<Rule>)
    requires forall x :: x in ps && x.effect == p.effect ==> x.priority <= p.priority
    ensures FirstWith(Placed(p, ps), p.effect) == Some(p)
  {
    if ps != [] && p.priority < ps[0].priority {
      assert ps[0] in ps;
      PlacedIsFirst(p, ps[1..]);
    }
  }

  /** Any of them decides in some order: put in front. */
  lemma InFrontDecides(ps: seq<Rule>, q: Query, p: Rule) returns (ps': seq<Rule>)
    requires MayDecide(ps, q, p)
    ensures Reordered(ps, ps') && Evaluate(ps', q).rule == Some(p)
  {
    hide Matches;
    var i :| 0 <= i < |ps| && ps[i] == p;
    var rest := ps[..i] + ps[i + 1..];
    ps' := [p] + rest;
    assert ps == ps[..i] + ([p] + ps[i + 1..]);
    assert Reordered(ps, ps');
    ReorderedAre(ps, ps');
    OrderIsIrrelevant(ps, ps', q);
    MatchedAre(rest, q);
    SortedAre(Matched(rest, q));
    assert ps'[1..] == rest && forall x :: x in rest ==> x in ps';
    assert Matched(ps', q) == [p] + Matched(rest, q);
    assert Matched(ps', q)[1..] == Matched(rest, q);
    PlacedIsFirst(p, Sorted(Matched(rest, q)));
    RuleIsFirst(ps', q);
  }

  lemma RuleIsFirst(ps: seq<Rule>, q: Query)
    ensures Evaluate(ps, q).rule == FirstWith(Sorted(Matched(ps, q)), Evaluate(ps, q).effect)
  {
  }

  lemma DeciderMayDecide(ps: seq<Rule>, ps': seq<Rule>, q: Query)
    requires Reordered(ps, ps')
    ensures Evaluate(ps', q).effect == Evaluate(ps, q).effect
    ensures Evaluate(ps', q).rule.Some? ==> MayDecide(ps, q, Evaluate(ps', q).rule.value)
    ensures Evaluate(ps', q).rule.None? ==> forall p :: !MayDecide(ps, q, p)
  {
    ReorderedAre(ps, ps');
    OrderIsIrrelevant(ps, ps', q);
    EvaluatesExactly(ps', q);
    RuleIsFirst(ps', q);
    MatchedAre(ps', q);
    SortedAre(Matched(ps', q));
    SortedDescends(Matched(ps', q));
    FirstIsHighest(Sorted(Matched(ps', q)), Evaluate(ps', q).effect);
    hide Matches, Evaluate;
  }

  /** The policy named does not depend on the order exactly if a single one may decide, and the
      quorum does not exactly if all that may decide ask for the same number of approvals. */
  lemma OrderMattersExactly(ps: seq<Rule>, q: Query)
    requires DistinctIds(ps)
    ensures (forall ps' | Reordered(ps, ps') :: Evaluate(ps', q).rule == Evaluate(ps, q).rule)
       <==> forall x, y | MayDecide(ps, q, x) && MayDecide(ps, q, y) :: x == y
    ensures (forall ps' | Reordered(ps, ps') :: Quorum(ps', Evaluate(ps', q).rule) == Quorum(ps, Evaluate(ps, q).rule))
       <==> forall x, y | MayDecide(ps, q, x) && MayDecide(ps, q, y) :: OwnQuorum(x) == OwnQuorum(y)
  {
    hide Evaluate, MayDecide, Quorum, OwnQuorum;
    DeciderMayDecide(ps, ps, q);
    forall ps' | Reordered(ps, ps')
      ensures var rule := Evaluate(ps', q).rule;
        && (rule.Some? ==> MayDecide(ps, q, rule.value) && Quorum(ps', rule) == OwnQuorum(rule.value))
        && (rule.None? ==> Quorum(ps', rule) == 1 && forall p :: !MayDecide(ps, q, p))
    {
      NoRuleNoQuorum(ps');
      DeciderMayDecide(ps, ps', q);
      QuorumAnywhere(ps, ps', q);
    }
    forall p | MayDecide(ps, q, p)
      ensures exists ps' :: Reordered(ps, ps') && Evaluate(ps', q).rule == Some(p)
                            && Quorum(ps', Some(p)) == OwnQuorum(p)
    {
      var ps' := InFrontDecides(ps, q, p);
      QuorumAnywhere(ps, ps', q);
    }
    assert Reordered(ps, ps);
  }

  lemma QuorumAnywhere(ps: seq<Rule>, ps': seq<Rule>, q: Query)
    requires DistinctIds(ps) && Reordered(ps, ps')
    ensures var rule := Evaluate(ps', q).rule; rule.Some? ==> Quorum(ps', rule) == OwnQuorum(rule.value)
  {
    hide Evaluate, Quorum;
    ReorderedAre(ps, ps');
    DeciderMayDecide(ps, ps', q);
    if Evaluate(ps', q).rule.Some? { QuorumIsOwn(ps', Evaluate(ps', q).rule.value); }
  }

  lemma NoRuleNoQuorum(ps: seq<Rule>)
    ensures Quorum(ps, None) == 1
  {
  }

  // ----- Which policy decides -----

  /** The `i`-th applies with this effect, none that does has a higher priority, and none of those
      with the same priority comes before it. */
  ghost predicate DecidesAt(ps: seq<Rule>, q: Query, effect: Effect, i: int) {
    && 0 <= i < |ps| && Matches(ps[i], q) && ps[i].effect == effect
    && forall j :: 0 <= j < |ps| && Matches(ps[j], q) && ps[j].effect == effect ==>
         ps[j].priority <= ps[i].priority && (j < i ==> ps[j].priority < ps[i].priority)
  }

  lemma {:induction false} PlacedKeepsFirst(p: Rule, ps: seq<Rule>, effect: Effect, f: Rule)
    requires Descending(ps) && FirstWith(ps, effect) == Some(f) && (p.effect != effect || p.priority < f.priority)
    ensures FirstWith(Placed(p, ps), effect) == Some(f)
  {
    FirstIsHighest(ps, effect);
    if p.priority < ps[0].priority && ps[0].effect != effect { PlacedKeepsFirst(p, ps[1..], effect, f); }
  }

  lemma {:induction false} DeciderIsFirst(ps: seq<Rule>, q: Query, effect: Effect, i: int)
    requires DecidesAt(ps, q, effect, i)
    ensures FirstWith(Sorted(Matched(ps, q)), effect) == Some(ps[i])
    decreases |ps|
  {
    hide Matches, Matched, Sorted, Placed, FirstWith;
    var rest := Sorted(Matched(ps[1..], q));
    SortedDescends(Matched(ps[1..], q));
    MatchedFirst(ps, q);
    if i == 0 {
      NoneIsHigher(ps, q, effect);
      PlacedIsFirst(ps[0], rest);
    } else {
      LaterDecides(ps, q, effect, i);
      DeciderIsFirst(ps[1..], q, effect, i - 1);
      if Matches(ps[0], q) { PlacedKeepsFirst(ps[0], rest, effect, ps[i]); }
    }
  }

  lemma NoneIsHigher(ps: seq<Rule>, q: Query, effect: Effect)
    requires DecidesAt(ps, q, effect, 0)
    ensures forall x :: x in Sorted(Matched(ps[1..], q)) && x.effect == effect ==> x.priority <= ps[0].priority
  {
    hide Matches, Matched, Sorted;
    MatchedAre(ps[1..], q);
    SortedAre(Matched(ps[1..], q));
    forall x | x in Sorted(Matched(ps[1..], q)) && x.effect == effect ensures x.priority <= ps[0].priority {
      assert x in ps[1..];
      var j :| 0 <= j < |ps[1..]| && ps[1..][j] == x;
      assert ps[j + 1] == x;
    }
  }

  lemma LaterDecides(ps: seq<Rule>, q: Query, effect: Effect, i: int)
    requires DecidesAt(ps, q, effect, i) && i > 0
    ensures DecidesAt(ps[1..], q, effect, i - 1) && ps[1..][i - 1] == ps[i]
    ensures Matches(ps[0], q) ==> ps[0].effect != effect || ps[0].priority < ps[i].priority
  {
    hide Matches;
    assert forall j :: 0 <= j < |ps[1..]| ==> ps[1..][j] == ps[j + 1];
  }

  lemma MatchedFirst(ps: seq<Rule>, q: Query)
    requires ps != []
    ensures Matched(ps, q) == if Matches(ps[0], q) then [ps[0]] + Matched(ps[1..], q) else Matched(ps[1..], q)
    ensures Matches(ps[0], q) ==> Sorted(Matched(ps, q)) == Placed(ps[0], Sorted(Matched(ps[1..], q)))
  {
    if Matches(ps[0], q) { assert Matched(ps, q)[1..] == Matched(ps[1..], q); }
  }

  lemma {:induction false} SomeDecider(ps: seq<Rule>, q: Query, effect: Effect) returns (i: nat)
    requires Applies(ps, q, effect)
    ensures DecidesAt(ps, q, effect, i)
  {
    hide Matches;
    if Applies(ps[1..], q, effect) {
      var k := SomeDecider(ps[1..], q, effect);
      i := if Matches(ps[0], q) && ps[0].effect == effect && ps[0].priority >= ps[1..][k].priority then 0 else k + 1;
      forall j | 0 <= j < |ps| && Matches(ps[j], q) && ps[j].effect == effect
        ensures ps[j].priority <= ps[i].priority && (j < i ==> ps[j].priority < ps[i].priority)
      {
        if j > 0 { assert ps[j] == ps[1..][j - 1]; }
      }
    } else {
      i := 0;
      forall j | 0 < j < |ps| && Matches(ps[j], q) ensures ps[j].effect != effect { assert ps[j] == ps[1..][j - 1]; }
    }
  }
}
