/** The fixed-window limiter of src/server.js: a bucket for each client and route, opened by a
    request and closed a minute later, and a timer that sweeps closed buckets away. */
module RateLimiter {
  import opened Prelude

  const WINDOW_MS: int := 60 * 1000

  datatype Bucket = Bucket(count: nat, reset: int)

  function KeyOf(client: string, route: string): string { client + "|" + route }

  /** The bucket in which a request at `now` is counted. */
  function Counted(b: Option<Bucket>, now: int): Bucket {
    if b.None? || now > b.value.reset then Bucket(1, now + WINDOW_MS)
    else Bucket(b.value.count + 1, b.value.reset)
  }

  function Lookup(buckets: map<string, Bucket>, key: string): Option<Bucket> {
    if key in buckets then Some(buckets[key]) else None
  }

  function Swept(buckets: map<string, Bucket>, now: int): map<string, Bucket> {
    map k | k in buckets && now <= buckets[k].reset :: buckets[k]
  }

  /** `Math.ceil(ms / 1000)` */
  function SecondsUp(ms: int): int { -((-ms) / 1000) }

  datatype Verdict = Admitted | Limited(retryAfter: int)

  function Judge(b: Bucket, now: int, limit: int): Verdict {
    if b.count > limit then Limited(SecondsUp(b.reset - now)) else Admitted
  }

  class Limiter {
    var buckets: map<string, Bucket>

    constructor ()
      ensures buckets == map[]
    {
      buckets := map[];
    }

    method RateLimit(client: string, route: string, now: int, limitPerMin: int) returns (verdict: Verdict)
      modifies this
      ensures var b := Counted(Lookup(old(buckets), KeyOf(client, route)), now);
              buckets == old(buckets)[KeyOf(client, route) := b] && verdict == Judge(b, now, limitPerMin)
    {
      var key := KeyOf(client, route);
      var b := Lookup(buckets, key);
      if b.None? || now > b.value.reset { b := Some(Bucket(0, now + WINDOW_MS)); }
      var counted := Bucket(b.value.count + 1, b.value.reset);
      buckets := buckets[key := counted];
      if counted.count > limitPerMin {
        return Limited(SecondsUp(counted.reset - now));
      }
      return Admitted;
    }

    method Sweep(now: int)
      modifies this
      ensures buckets == Swept(old(buckets), now)
    {
      var todo := buckets.Keys;
      while todo != {}
        invariant todo <= buckets.Keys <= old(buckets).Keys
        invariant forall k :: k in buckets ==> buckets[k] == old(buckets)[k] && (k in todo || now <= buckets[k].reset)
        invariant forall k :: k in old(buckets) && k !in buckets ==> now > old(buckets)[k].reset
        decreases todo
      {
        var k :| k in todo;
        todo := todo - {k};
        if now > buckets[k].reset { buckets := buckets - {k}; }
      }
    }
  }

  // ----- Sweeps and other keys change no verdict -----

  datatype Event = Request(key: string, at: int) | Sweep(at: int)

  ghost predicate InOrder(h: seq<Event>) {
    forall i, j :: 0 <= i < j < |h| ==> h[i].at <= h[j].at
  }

  function After(h: seq<Event>): map<string, Bucket> {
    if h == [] then map[]
    else
      var e := h[|h| - 1];
      var m := After(h[..|h| - 1]);
      if e.Request? then m[e.key := Counted(Lookup(m, e.key), e.at)] else Swept(m, e.at)
  }

  /** The times of the key's own requests. */
  function Own(h: seq<Event>, key: string): seq<int> {
    if h == [] then []
    else
      var e := h[|h| - 1];
      Own(h[..|h| - 1], key) + (if e.Request? && e.key == key then [e.at] else [])
  }

  /** The key's bucket if nothing else ever happened. */
  function Alone(ts: seq<int>): Option<Bucket> {
    if ts == [] then None else Some(Counted(Alone(ts[..|ts| - 1]), ts[|ts| - 1]))
  }

  lemma {:induction false} BucketTracks(h: seq<Event>, key: string, now: int)
    requires InOrder(h) && (h != [] ==> h[|h| - 1].at <= now)
    ensures var b, alone := Lookup(After(h), key), Alone(Own(h, key));
            b == alone || (b == None && alone.Some? && now > alone.value.reset)
  {
    if h != [] {
      var g, e := h[..|h| - 1], h[|h| - 1];
      BucketTracks(g, key, now);
      BucketTracks(g, key, e.at);
      if e.Request? && e.key == key {
        var ts := Own(g, key);
        assert (ts + [e.at])[..|ts|] == ts;
      } else {
        assert Own(h, key) == Own(g, key);
      }
    }
  }

  /** Whatever swept and whoever else called in between, a request is judged as if its key
      were alone and nothing had ever been swept. */
  lemma VerdictIsOwn(h: seq<Event>, key: string, now: int, limit: int)
    requires InOrder(h) && (h != [] ==> h[|h| - 1].at <= now)
    ensures Judge(Counted(Lookup(After(h), key), now), now, limit)
         == Judge(Counted(Alone(Own(h, key)), now), now, limit)
  {
    BucketTracks(h, key, now);
  }

  // ----- How many requests a minute can hold -----

  ghost predicate Sorted(ts: seq<int>) {
    forall i, j :: 0 <= i < j < |ts| ==> ts[i] <= ts[j]
  }

  /** The request that opened the bucket in which request `n` is counted. */
  function Opener(ts: seq<int>, n: nat): (o: nat)
    requires n < |ts|
    ensures o <= n
  {
    if n == 0 then 0
    else
      var o := Opener(ts, n - 1);
      if ts[n] > ts[o] + WINDOW_MS then n else o
  }

  /** A bucket counts the requests since its opener. */
  lemma {:induction false} AloneCounts(ts: seq<int>, n: nat)
    requires n < |ts|
    ensures Alone(ts[..n + 1]) == Some(Bucket(n + 1 - Opener(ts, n), ts[Opener(ts, n)] + WINDOW_MS))
  {
    assert ts[..n + 1][..n] == ts[..n];
    if n > 0 { AloneCounts(ts, n - 1); }
  }

  ghost predicate AdmittedAt(ts: seq<int>, limit: int, n: int) {
    0 <= n < |ts| && Judge(Counted(Alone(ts[..n]), ts[n]), ts[n], limit).Admitted?
  }

  lemma AdmittedIsCounted(ts: seq<int>, limit: int, n: nat)
    requires n < |ts|
    ensures AdmittedAt(ts, limit, n) <==> n + 1 - Opener(ts, n) <= limit
  {
    AloneCounts(ts, n);
    assert ts[..n + 1][..n] == ts[..n];
  }

  lemma {:induction false} OpenersFacts(ts: seq<int>, m: nat, n: nat)
    requires Sorted(ts) && m <= n < |ts|
    ensures ts[m] <= ts[Opener(ts, m)] + WINDOW_MS
    ensures Opener(ts, n) == Opener(ts, m) || (m < Opener(ts, n) && ts[Opener(ts, n)] > ts[Opener(ts, m)] + WINDOW_MS)
    decreases n, m
  {
    if n > m {
      OpenersFacts(ts, m, n - 1);
    } else if n > 0 {
      OpenersFacts(ts, n - 1, n - 1);
    }
  }

  ghost function AdmittedIn(ts: seq<int>, limit: int, from: int): set<int> {
    set n | 0 <= n < |ts| && AdmittedAt(ts, limit, n) && from <= ts[n] <= from + 60_000
  }

  predicate Within(lo: int, hi: int, n: int) { lo <= n < hi }

  function Span(lo: int, hi: int): set<int> { set n: int | lo <= n < hi && Within(lo, hi, n) }

  lemma {:induction false} SpanSize(lo: int, hi: int)
    ensures |Span(lo, hi)| == if lo <= hi then hi - lo else 0
    decreases hi - lo
  {
    if lo < hi {
      SpanSize(lo + 1, hi);
      assert Span(lo, hi) == {lo} + Span(lo + 1, hi);
    } else {
      assert Span(lo, hi) == {};
    }
  }

  lemma UnionIsSmall(s: set<int>, a: set<int>, b: set<int>)
    requires s <= a + b
    ensures |s| <= |a| + |b|
  {
    SubsetIsSmaller(s, a + b);
    assert |a + b| + |a * b| == |a| + |b|;
  }

  lemma {:induction false} SubsetIsSmaller<T>(s: set<T>, t: set<T>)
    requires s <= t
    ensures |s| <= |t|
  {
    if s != {} {
      var x :| x in s;
      SubsetIsSmaller(s - {x}, t - {x});
    }
  }

  /** In a closed minute a fixed limit lets at most `2 * limit - 1` requests pass: at most two
      buckets reach into it, and then the first one was opened before it. */
  lemma MinuteIsBounded(ts: seq<int>, limit: nat, from: int)
    requires Sorted(ts)
    ensures |AdmittedIn(ts, limit, from)| <= if limit == 0 then 0 else 2 * limit - 1
  {
    hide Opener, AdmittedAt, Sorted;
    var s := AdmittedIn(ts, limit, from);
    if s != {} {
      var lo, hi := Ends(s);
      var o1, o2 := Opener(ts, lo), Opener(ts, hi);
      AdmittedIsCounted(ts, limit, lo);
      NearTwoOpeners(ts, limit, from, lo, hi);
      hide AdmittedIn, Span;
      TwoSpans(s, o1, o2, limit);
    }
  }

  lemma TwoSpans(s: set<int>, o1: int, o2: int, limit: nat)
    requires limit > 0
    requires if o1 == o2 then s <= Span(o1, o1 + limit) else s <= Span(o1 + 1, o1 + limit) + Span(o2, o2 + limit)
    ensures |s| <= 2 * limit - 1
  {
    hide Span;
    SpanSize(o2, o2 + limit);
    if o1 == o2 {
      SubsetIsSmaller(s, Span(o1, o1 + limit));
    } else {
      SpanSize(o1 + 1, o1 + limit);
      UnionIsSmall(s, Span(o1 + 1, o1 + limit), Span(o2, o2 + limit));
    }
  }

  lemma NearTwoOpeners(ts: seq<int>, limit: nat, from: int, lo: nat, hi: nat)
    requires Sorted(ts) && lo in AdmittedIn(ts, limit, from) && hi in AdmittedIn(ts, limit, from)
    requires forall n :: n in AdmittedIn(ts, limit, from) ==> lo <= n <= hi
    ensures var s, o1, o2 := AdmittedIn(ts, limit, from), Opener(ts, lo), Opener(ts, hi);
            if o1 == o2 then s <= Span(o1, o1 + limit) else s <= Span(o1 + 1, o1 + limit) + Span(o2, o2 + limit)
  {
    hide Opener, AdmittedAt, Sorted;
    var s := AdmittedIn(ts, limit, from);
    forall n | n in s
      ensures var o1, o2 := Opener(ts, lo), Opener(ts, hi);
              n in Span(if o1 == o2 then o1 else o1 + 1, o1 + limit) || (o1 != o2 && n in Span(o2, o2 + limit))
    {
      TwoBuckets(ts, limit, from, lo, n, hi);
    }
  }

  /** Every admitted request of the minute is near the opener of the first one's bucket or of
      the last one's, and the former is itself outside if the two differ. */
  lemma TwoBuckets(ts: seq<int>, limit: nat, from: int, lo: nat, n: nat, hi: nat)
    requires Sorted(ts) && lo <= n <= hi < |ts| && from <= ts[lo] && ts[hi] <= from + 60_000
    requires AdmittedAt(ts, limit, n)
    ensures var o1, o2 := Opener(ts, lo), Opener(ts, hi);
            (if o1 == o2 then o1 <= n < o1 + limit else o1 < n < o1 + limit) || (o1 != o2 && o2 <= n < o2 + limit)
  {
    AdmittedIsCounted(ts, limit, n);
    OpenersFacts(ts, lo, n);
    OpenersFacts(ts, n, hi);
  }

  lemma Pick<T>(s: set<T>) returns (x: T)
    requires s != {}
    ensures x in s
  {
    x :| x in s;
  }

  lemma {:induction false} Ends(s: set<int>) returns (lo: int, hi: int)
    requires s != {}
    ensures lo in s && hi in s && forall n :: n in s ==> lo <= n <= hi
  {
    var x := Pick(s);
    lo, hi := x, x;
    var t := s - {x};
    if t != {} {
      lo, hi := Ends(t);
      lo, hi := if x < lo then x else lo, if x > hi then x else hi;
    }
    forall n | n in s ensures lo <= n <= hi { if n != x { assert n in t; } }
  }

  /** How many of the key's requests in the closed minute the running limiter let pass. */
  function Passed(h: seq<Event>, key: string, limit: int, from: int): nat {
    if h == [] then 0
    else
      var g, e := h[..|h| - 1], h[|h| - 1];
      Passed(g, key, limit, from)
      + if && e.Request? && e.key == key && from <= e.at <= from + 60_000
           && Judge(Counted(Lookup(After(g), key), e.at), e.at, limit).Admitted? then 1 else 0
  }

  lemma {:induction false} PassedIsCounted(h: seq<Event>, key: string, limit: int, from: int)
    requires InOrder(h)
    ensures Sorted(Own(h, key)) && (h != [] ==> forall i :: 0 <= i < |Own(h, key)| ==> Own(h, key)[i] <= h[|h| - 1].at)
    ensures Passed(h, key, limit, from) == |AdmittedIn(Own(h, key), limit, from)|
  {
    hide After, Alone, AdmittedAt, Judge;
    if h == [] {
      assert AdmittedIn(Own(h, key), limit, from) == {};
    } else {
      var g, e := h[..|h| - 1], h[|h| - 1];
      PassedIsCounted(g, key, limit, from);
      if e.Request? && e.key == key {
        VerdictIsOwn(g, key, e.at, limit);
        OneMore(Own(g, key), e.at, limit, from);
      } else {
        assert Own(h, key) == Own(g, key);
      }
    }
  }

  lemma OneMore(ts: seq<int>, t: int, limit: int, from: int)
    ensures var more := from <= t <= from + 60_000 && Judge(Counted(Alone(ts), t), t, limit).Admitted?;
            |AdmittedIn(ts + [t], limit, from)| == |AdmittedIn(ts, limit, from)| + if more then 1 else 0
  {
    var us := ts + [t];
    assert us[..|ts|] == ts;
    forall n: nat | n < |ts| ensures us[..n] == ts[..n] && us[n] == ts[n] {}
    assert AdmittedIn(us, limit, from)
        == AdmittedIn(ts, limit, from)
           + if AdmittedAt(us, limit, |ts|) && from <= t <= from + 60_000 then {|ts|} else {};
  }

  /** The bound holds of the limiter as it runs, sweeps and other callers included. */
  lemma RunIsBounded(h: seq<Event>, key: string, limit: nat, from: int)
    requires InOrder(h)
    ensures Passed(h, key, limit, from) <= if limit == 0 then 0 else 2 * limit - 1
  {
    PassedIsCounted(h, key, limit, from);
    MinuteIsBounded(Own(h, key), limit, from);
  }

  /** One request, the rest of its bucket a minute later, and the whole next bucket a
      millisecond after that. */
  function Burst(limit: nat): seq<int> {
    seq(2 * limit, i => if i == 0 then 0 else if i < limit then 60_000 else 60_001)
  }

  /** The bound is met, for every limit. */
  lemma MinuteIsTight(limit: nat)
    requires limit > 0
    ensures Sorted(Burst(limit)) && |AdmittedIn(Burst(limit), limit, 60_000)| == 2 * limit - 1
  {
    var ts := Burst(limit);
    forall n | 0 <= n < 2 * limit ensures AdmittedAt(ts, limit, n) {
      BurstOpeners(limit, n);
      AdmittedIsCounted(ts, limit, n);
    }
    assert AdmittedIn(ts, limit, 60_000) == if limit == 1 then Span(1, 2) else Span(1, 2 * limit);
    SpanSize(1, 2 * limit);
  }

  lemma {:induction false} BurstOpeners(limit: nat, n: nat)
    requires n < 2 * limit
    ensures Opener(Burst(limit), n) == if n < limit then 0 else limit
  {
    if n > 0 { BurstOpeners(limit, n - 1); }
  }

  // ----- The advice to the caller -----

  /** A refused caller is told to come back within a minute; coming back exactly then opens a new
      bucket unless the wait was a whole number of seconds, where it is a millisecond early. */
  lemma RetryAdvice(b: Bucket, now: int, limit: int, later: int)
    requires now <= b.reset <= now + 60_000 && Judge(b, now, limit).Limited?
    requires later == now + 1000 * Judge(b, now, limit).retryAfter
    ensures 0 <= Judge(b, now, limit).retryAfter <= 60 && later - 1000 < b.reset <= later
    ensures Counted(Some(b), later) == Bucket(1, later + 60_000) <==> (b.reset - now) % 1000 != 0
  {
    assert Counted(Some(b), later).reset == if later > b.reset then later + WINDOW_MS else b.reset;
  }

  /** The joined key tells client and route, whatever a client calls itself, since no route holds a
      bar. */
  lemma KeyTells(client: string, route: string, client': string, route': string)
    requires '|' !in route && '|' !in route' && KeyOf(client, route) == KeyOf(client', route')
    ensures client == client' && route == route'
  {
    var k, n := KeyOf(client, route), |client|;
    assert k[n] == '|' && k[|client'|] == '|';
    assert forall i :: n < i < |k| ==> k[i] == route[i - n - 1];
    assert forall i :: |client'| < i < |k| ==> k[i] == route'[i - |client'| - 1];
    assert n == |client'|;
    assert client == k[..n] && client' == k[..n] && route == k[n + 1..] && route' == k[n + 1..];
  }
}
