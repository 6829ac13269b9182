/** The in-memory replay map of src/nonce.js. */
module Replay {

  /** Both entries that an execution leaves behind live this long. */
  const REPLAY_TTL_MS: int := 10 * 60 * 1000

  /** `ci.org_id + ':' + ci.nonce` and `'att:' + jti`. */
  function IntentKey(org: string, nonce: string): string { org + ":" + nonce }

  function CredentialKey(jti: string): string { "att:" + jti }

  function Pruned(used: map<string, int>, now: int): map<string, int> {
    map k | k in used && used[k] > now :: used[k]
  }

  /** `consumeOnce`: the new map and whether the value was free. */
  function Consume(used: map<string, int>, value: string, now: int, ttl: int): (map<string, int>, bool) {
    var live := Pruned(used, now);
    if value in live then (live, false) else (live[value := now + ttl], true)
  }

  class ReplayMap {
    var used: map<string, int>

    constructor ()
      ensures used == map[]
    {
      used := map[];
    }

    /** Visits the entries one by one and deletes the expired ones. */
    method Prune(now: int)
      modifies this
      ensures used == Pruned(old(used), now)
    {
      var todo := used.Keys;
      while todo != {}
        invariant todo <= used.Keys <= old(used).Keys
        invariant forall k :: k in used ==> used[k] == old(used)[k]
        invariant forall k :: k in old(used) && k !in todo ==> (k in used <==> old(used)[k] > now)
        decreases todo
      {
        var k :| k in todo;
        todo := todo - {k};
        if used[k] <= now { used := used - {k}; }
      }
    }

    method ConsumeOnce(value: string, now: int, ttl: int) returns (free: bool)
      modifies this
      ensures (used, free) == Consume(old(used), value, now, ttl)
    {
      Prune(now);
      if value in used { return false; }
      used := used[value := now + ttl];
      return true;
    }

    method ConsumeActionJTI(jti: string, now: int, ttl: int) returns (free: bool)
      modifies this
      ensures (used, free) == Consume(old(used), CredentialKey(jti), now, ttl)
    {
      free := ConsumeOnce(CredentialKey(jti), now, ttl);
    }
  }

  /** A consumed value is refused until its entry expires, and is free again afterwards. */
  lemma ConsumedUntilExpiry(used: map<string, int>, value: string, t: int, ttl: int, later: int)
    requires Consume(used, value, t, ttl).1 && later >= t
    ensures Consume(Consume(used, value, t, ttl).0, value, later, ttl).1 <==> later >= t + ttl
  {
  }

  /** Pruning at one time and then at a later one is pruning at the later one, so how often
      the timer runs changes no later answer. */
  lemma PruneTwice(used: map<string, int>, t: int, later: int, value: string, ttl: int)
    requires t <= later
    ensures Pruned(Pruned(used, t), later) == Pruned(used, later)
    ensures Consume(Pruned(used, t), value, later, ttl) == Consume(used, value, later, ttl)
  {
    assert Pruned(Pruned(used, t), later) == Pruned(used, later);
  }

  /** The two key spaces of the map do not meet, and neither loses information, provided
      organisation ids hold no colon and do not begin like a credential key. */
  lemma KeysAreUnambiguous(org: string, nonce: string, org': string, nonce': string, jti: string)
    requires ':' !in org && ':' !in org'
    requires "org_" <= org
    ensures IntentKey(org, nonce) == IntentKey(org', nonce') ==> org == org' && nonce == nonce'
    ensures IntentKey(org, nonce) != CredentialKey(jti)
  {
    var k := IntentKey(org, nonce);
    assert k[0] == 'o' && CredentialKey(jti)[0] == 'a';
    if k == IntentKey(org', nonce') {
      assert k[|org|] == ':' && k[|org'|] == ':';
      assert forall i :: 0 <= i < |org| ==> org[i] == k[i];
      assert forall i :: 0 <= i < |org'| ==> org'[i] == k[i];
      assert |org| == |org'|;
      assert k[..|org|] == org && k[..|org'|] == org';
      assert k[|org| + 1..] == nonce && k[|org'| + 1..] == nonce';
    }
  }
}
