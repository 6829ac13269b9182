/** The bounded recency cache `seen` of src/server.js: a Map from which the oldest entry is
    dropped when it is full, and an expired one when it is asked for. */
module SeenCache {
  import opened Prelude

  const SEEN_TTL_MS: int := 10 * 60 * 1000
  const SEEN_MAX: nat := 50000

  /** The separator is the four characters of the source's literal, not a NUL. */
  const SEPARATOR: string := "\\x00"

  function SeenKey(pid: string, resource: string): string { pid + SEPARATOR + resource }

  // ----- A JavaScript Map, in insertion order -----

  datatype Entry = Entry(key: string, at: int)

  function Without(m: seq<Entry>, k: string): seq<Entry> {
    if m == [] then [] else (if m[0].key == k then [] else [m[0]]) + Without(m[1..], k)
  }

  function Find(m: seq<Entry>, k: string): Option<int> {
    if m == [] then None else if m[0].key == k then Some(m[0].at) else Find(m[1..], k)
  }

  function Trimmed(m: seq<Entry>): seq<Entry> {
    if |m| > SEEN_MAX then m[|m| - SEEN_MAX..] else m
  }

  /** `markSeen` */
  function Mark(m: seq<Entry>, k: string, now: int): seq<Entry> {
    Trimmed(Without(m, k) + [Entry(k, now)])
  }

  predicate IsLive(m: seq<Entry>, k: string, now: int) {
    Find(m, k).Some? && now - Find(m, k).value <= SEEN_TTL_MS
  }

  /** What `isSeen` leaves behind. */
  function Ask(m: seq<Entry>, k: string, now: int): seq<Entry> {
    if Find(m, k).Some? && !IsLive(m, k, now) then Without(m, k) else m
  }

  class Cache {
    var seen: seq<Entry>

    constructor ()
      ensures seen == []
    {
      seen := [];
    }

    method IsSeen(pid: string, resource: string, now: int) returns (known: bool)
      modifies this
      ensures known == IsLive(old(seen), SeenKey(pid, resource), now)
      ensures seen == Ask(old(seen), SeenKey(pid, resource), now)
    {
      var key := SeenKey(pid, resource);
      var at := Find(seen, key);
      if at.None? { return false; }
      if now - at.value > SEEN_TTL_MS {
        seen := Without(seen, key);
        return false;
      }
      return true;
    }

    method MarkSeen(pid: string, resource: string, now: int)
      modifies this
      ensures seen == Mark(old(seen), SeenKey(pid, resource), now)
    {
      hide Without, SeenKey;
      var key := SeenKey(pid, resource);
      seen := Without(seen, key);
      seen := seen + [Entry(key, now)];
      ghost var full := seen;
      while |seen| > SEEN_MAX
        invariant |seen| >= if |full| > SEEN_MAX then SEEN_MAX else |full|
        invariant |seen| <= |full| && seen == full[|full| - |seen|..]
      {
        seen := seen[1..];
      }
    }
  }

  // ----- What happened: the reference -----

  datatype Event = Marked(key: string, at: int) | Asked(key: string, at: int)

  /** Times never decrease. */
  ghost predicate InOrder(h: seq<Event>) {
    forall i, j :: 0 <= i < j < |h| ==> h[i].at <= h[j].at
  }

  /** When the key was last marked. */
  function LastMarked(h: seq<Event>, k: string): Option<int> {
    if h == [] then None
    else
      var e := h[|h| - 1];
      if e.Marked? && e.key == k then Some(e.at) else LastMarked(h[..|h| - 1], k)
  }

  /** The other keys marked since then. */
  function MarkedSince(h: seq<Event>, k: string): set<string> {
    if h == [] then {}
    else
      var e := h[|h| - 1];
      if e.Marked? && e.key == k then {}
      else MarkedSince(h[..|h| - 1], k) + (if e.Marked? then {e.key} else {})
  }

  /** The cache after these events. */
  function After(h: seq<Event>): seq<Entry> {
    if h == [] then []
    else
      var e := h[|h| - 1];
      var m := After(h[..|h| - 1]);
      if e.Marked? then Mark(m, e.key, e.at) else Ask(m, e.key, e.at)
  }

  /** The same cache without bound and without expiry: every key at its last mark. */
  function Everything(h: seq<Event>): seq<Entry> {
    if h == [] then []
    else
      var e := h[|h| - 1];
      var m := Everything(h[..|h| - 1]);
      if e.Marked? then Without(m, e.key) + [Entry(e.key, e.at)] else m
  }

  // ----- Lists of entries -----

  ghost predicate HasKey(m: seq<Entry>, k: string) {
    exists i :: 0 <= i < |m| && m[i].key == k
  }

  /** No key twice, and marks in the order of time. */
  ghost predicate Ordered(m: seq<Entry>) {
    forall i, j :: 0 <= i < j < |m| ==> m[i].key != m[j].key && m[i].at <= m[j].at
  }

  function Keys(m: seq<Entry>): set<string> {
    set i | 0 <= i < |m| :: m[i].key
  }

  lemma {:induction false} WithoutParts(a: seq<Entry>, b: seq<Entry>, k: string)
    ensures Without(a + b, k) == Without(a, k) + Without(b, k)
  {
    if a == [] {
      assert a + b == b;
    } else {
      assert (a + b)[1..] == a[1..] + b;
      WithoutParts(a[1..], b, k);
    }
  }

  lemma {:induction false} WithoutFacts(m: seq<Entry>, k: string)
    ensures forall i :: 0 <= i < |Without(m, k)| ==> Without(m, k)[i] in m && Without(m, k)[i].key != k
    ensures |Without(m, k)| <= |m|
  {
    if m != [] { WithoutFacts(m[1..], k); }
  }

  lemma {:induction false} Untouched(m: seq<Entry>, k: string)
    requires !HasKey(m, k)
    ensures Without(m, k) == m
  {
    if m != [] {
      assert m[0].key != k;
      assert forall i :: 0 <= i < |m[1..]| ==> m[1..][i] == m[i + 1];
      Untouched(m[1..], k);
    }
  }

  lemma {:induction false} KeysWithout(m: seq<Entry>, k: string)
    ensures Keys(Without(m, k)) == Keys(m) - {k}
  {
    if m == [] {
      assert Without(m, k) == [];
    } else {
      var rest := Without(m[1..], k);
      KeysWithout(m[1..], k);
      KeysCons(m);
      if m[0].key != k {
        var r := [m[0]] + rest;
        assert Without(m, k) == r && r[1..] == rest;
        KeysCons(r);
      } else {
        assert Without(m, k) == rest;
      }
    }
  }

  lemma KeysCons(m: seq<Entry>)
    requires m != []
    ensures Keys(m) == {m[0].key} + Keys(m[1..])
  {
    forall k | k in Keys(m) ensures k == m[0].key || k in Keys(m[1..]) {
      var i :| 0 <= i < |m| && m[i].key == k;
      if i > 0 { assert m[1..][i - 1].key == k; }
    }
    forall k | k in Keys(m[1..]) ensures k in Keys(m) {
      var i :| 0 <= i < |m[1..]| && m[1..][i].key == k;
      assert m[i + 1].key == k;
    }
  }

  lemma {:induction false} WithoutOrdered(m: seq<Entry>, k: string)
    requires Ordered(m)
    ensures Ordered(Without(m, k))
  {
    if m != [] {
      WithoutOrdered(m[1..], k);
      WithoutFacts(m[1..], k);
      var rest := Without(m[1..], k);
      forall j | 0 <= j < |rest| ensures m[0].key != rest[j].key && m[0].at <= rest[j].at {
        assert rest[j] in m[1..];
      }
    }
  }

  lemma {:induction false} FindAt(m: seq<Entry>, p: nat)
    requires Ordered(m) && p < |m|
    ensures Find(m, m[p].key) == Some(m[p].at)
  {
    if p > 0 { FindAt(m[1..], p - 1); }
  }

  lemma {:induction false} FindIsThere(m: seq<Entry>, k: string)
    ensures Find(m, k).Some? <==> HasKey(m, k)
    ensures Find(m, k).Some? ==> Entry(k, Find(m, k).value) in m
  {
    if m != [] {
      FindIsThere(m[1..], k);
      if HasKey(m, k) && m[0].key != k {
        var i :| 0 <= i < |m| && m[i].key == k;
        assert m[1..][i - 1].key == k;
      }
      if HasKey(m[1..], k) {
        var i :| 0 <= i < |m[1..]| && m[1..][i].key == k;
        assert m[i + 1].key == k;
      }
    }
  }

  // ----- The unbounded list tells the history -----

  lemma {:induction false} EverythingOrdered(h: seq<Event>)
    requires InOrder(h)
    ensures Ordered(Everything(h))
    ensures h != [] ==> forall i :: 0 <= i < |Everything(h)| ==> Everything(h)[i].at <= h[|h| - 1].at
  {
    if h != [] {
      var g, e := h[..|h| - 1], h[|h| - 1];
      EverythingOrdered(g);
      if e.Marked? {
        var m := Everything(g);
        WithoutOrdered(m, e.key);
        WithoutFacts(m, e.key);
        var rest := Without(m, e.key);
        forall i | 0 <= i < |rest| ensures rest[i].key != e.key && rest[i].at <= e.at {
          assert rest[i] in m;
        }
      }
    }
  }

  /** A key's entry carries its last mark, and the keys behind it are those marked since. */
  lemma {:induction false} EverythingTells(h: seq<Event>, k: string)
    requires InOrder(h)
    ensures LastMarked(h, k).Some? <==> HasKey(Everything(h), k)
    ensures forall p :: 0 <= p < |Everything(h)| && Everything(h)[p].key == k ==>
              LastMarked(h, k) == Some(Everything(h)[p].at) && MarkedSince(h, k) == Keys(Everything(h)[p + 1..])
  {
    if h != [] {
      var g, e := h[..|h| - 1], h[|h| - 1];
      EverythingTells(g, k);
      EverythingOrdered(g);
      if e.Marked? {
        var all := Everything(g);
        var m := Without(all, e.key) + [Entry(e.key, e.at)];
        MarkTells(all, Entry(e.key, e.at), k);
        if e.key != k {
          forall p | 0 <= p < |m| && m[p].key == k
            ensures LastMarked(h, k) == Some(m[p].at) && MarkedSince(h, k) == Keys(m[p + 1..])
          {
            assert HasKey(m, k);
            var q :| 0 <= q < |all| && all[q].key == k;
            MovesBehind(all, Entry(e.key, e.at), q, p);
          }
        }
      }
    }
  }

  lemma MarkTells(all: seq<Entry>, e: Entry, k: string)
    requires Ordered(all)
    ensures var m := Without(all, e.key) + [e];
            && (HasKey(m, k) <==> e.key == k || HasKey(all, k))
            && (e.key == k ==> forall p :: 0 <= p < |m| && m[p].key == k ==> m[p] == e && m[p + 1..] == [])
  {
    var rest := Without(all, e.key);
    var m := rest + [e];
    assert m[|rest|] == e;
    WithoutFacts(all, e.key);
    if e.key != k {
      if q :| 0 <= q < |all| && all[q].key == k {
        var a' := Without(all[..q], e.key);
        SplitWithout(all, e.key, q);
        assert m[|a'|] == all[q];
      }
      forall p | 0 <= p < |rest| && rest[p].key == k ensures HasKey(all, k) { assert rest[p] in all; }
    }
  }

  lemma SplitWithout(all: seq<Entry>, k: string, q: nat)
    requires q < |all| && all[q].key != k
    ensures Without(all, k) == Without(all[..q], k) + ([all[q]] + Without(all[q + 1..], k))
  {
    var a, b := all[..q], all[q + 1..];
    assert all == a + ([all[q]] + b);
    WithoutParts(a, [all[q]] + b, k);
    WithoutParts([all[q]], b, k);
    assert Without([all[q]], k) == [all[q]];
  }

  /** Marking another key puts that key behind this one and changes nothing else. */
  lemma MovesBehind(all: seq<Entry>, e: Entry, q: nat, p: nat)
    requires Ordered(all) && q < |all| && all[q].key != e.key
    requires p < |Without(all, e.key)| && Without(all, e.key)[p].key == all[q].key
    ensures Without(all, e.key)[p] == all[q]
    ensures Keys((Without(all, e.key) + [e])[p + 1..]) == Keys(all[q + 1..]) + {e.key}
  {
    var a', b' := Without(all[..q], e.key), Without(all[q + 1..], e.key);
    var rest := Without(all, e.key);
    SplitWithout(all, e.key, q);
    WithoutOrdered(all, e.key);
    SamePlace(rest, p, |a'|);
    assert (rest + [e])[p + 1..] == b' + [e];
    KeysWithout(all[q + 1..], e.key);
    KeysSnoc(b', e);
  }

  lemma SamePlace(m: seq<Entry>, p: nat, q: nat)
    requires Ordered(m) && p < |m| && q < |m| && m[p].key == m[q].key
    ensures p == q
  {
  }

  lemma KeysSnoc(m: seq<Entry>, e: Entry)
    ensures Keys(m + [e]) == Keys(m) + {e.key}
  {
    forall k | k in Keys(m) ensures k in Keys(m + [e]) {
      var i :| 0 <= i < |m| && m[i].key == k;
      assert (m + [e])[i].key == k;
    }
    assert (m + [e])[|m|].key == e.key;
  }

  lemma {:induction false} KeyCount(m: seq<Entry>)
    requires Ordered(m)
    ensures |Keys(m)| == |m|
  {
    if m != [] {
      KeyCount(m[1..]);
      KeysCons(m);
      assert forall i :: 0 <= i < |m[1..]| ==> m[1..][i] == m[i + 1];
      assert m[0].key !in Keys(m[1..]);
    }
  }

  // ----- The cache against the unbounded list -----

  ghost predicate AllExpired(m: seq<Entry>, now: int) {
    forall i :: 0 <= i < |m| ==> now - m[i].at > SEEN_TTL_MS
  }

  /** The cache is `stale + tail`, the unbounded list `lost + tail`: what only the cache has
      is expired, and what it lost is expired too unless the tail alone fills it. */
  ghost predicate Tracks(m: seq<Entry>, all: seq<Entry>, now: int, stale: seq<Entry>, lost: seq<Entry>,
      tail: seq<Entry>) {
    && m == stale + tail && all == lost + tail && |m| <= SEEN_MAX
    && AllExpired(stale, now) && (AllExpired(lost, now) || |tail| == SEEN_MAX)
    && Ordered(m)
  }

  lemma MarkTracks(m: seq<Entry>, all: seq<Entry>, before: int, stale: seq<Entry>, lost: seq<Entry>, tail: seq<Entry>,
                   k: string, now: int)
    returns (stale': seq<Entry>, lost': seq<Entry>, tail': seq<Entry>)
    requires Tracks(m, all, before, stale, lost, tail) && before <= now
    requires forall i :: 0 <= i < |m| ==> m[i].at <= now
    ensures Tracks(Mark(m, k, now), Without(all, k) + [Entry(k, now)], now, stale', lost', tail')
  {
    var e := Entry(k, now);
    WithoutParts(stale, tail, k);
    WithoutParts(lost, tail, k);
    stale', lost', tail' := Without(stale, k), Without(lost, k), Without(tail, k) + [e];
    var full := Without(m, k) + [e];
    assert full == stale' + tail' && Without(all, k) + [e] == lost' + tail';
    MarkOrdered(m, e);
    StillExpired(stale, k, before, now);
    WithoutFacts(m, k);
    if AllExpired(lost, before) {
      StillExpired(lost, k, before, now);
    } else {
      assert stale == [] && m == tail;
      TailShrinks(tail, k);
    }
    stale', lost', tail' := TrimTracks(full, lost' + tail', now, stale', lost', tail');
  }

  lemma MarkOrdered(m: seq<Entry>, e: Entry)
    requires Ordered(m) && forall i :: 0 <= i < |m| ==> m[i].at <= e.at
    ensures Ordered(Without(m, e.key) + [e])
  {
    WithoutFacts(m, e.key);
    WithoutOrdered(m, e.key);
    var rest := Without(m, e.key);
    forall i | 0 <= i < |rest| ensures rest[i].key != e.key && rest[i].at <= e.at { assert rest[i] in m; }
  }

  lemma StillExpired(m: seq<Entry>, k: string, before: int, now: int)
    requires AllExpired(m, before) && before <= now
    ensures AllExpired(Without(m, k), now)
  {
    WithoutFacts(m, k);
    var rest := Without(m, k);
    forall i | 0 <= i < |rest| ensures now - rest[i].at > SEEN_TTL_MS { assert rest[i] in m; }
  }

  lemma TailShrinks(m: seq<Entry>, k: string)
    requires Ordered(m)
    ensures |m| - 1 <= |Without(m, k)| <= |m|
  {
    LosesOne(m, k);
    WithoutFacts(m, k);
  }

  /** Dropping the front of a full cache. */
  lemma TrimTracks(full: seq<Entry>, all: seq<Entry>, now: int, stale: seq<Entry>, lost: seq<Entry>, tail: seq<Entry>)
    returns (stale': seq<Entry>, lost': seq<Entry>, tail': seq<Entry>)
    requires full == stale + tail && all == lost + tail && |full| <= SEEN_MAX + 1 && tail != [] && Ordered(full)
    requires AllExpired(stale, now) && (AllExpired(lost, now) || |tail| >= SEEN_MAX)
    ensures Tracks(Trimmed(full), all, now, stale', lost', tail')
  {
    stale', lost', tail' := stale, lost, tail;
    if |full| > SEEN_MAX {
      assert Trimmed(full) == full[1..];
      if stale != [] {
        assert full[1..] == stale[1..] + tail;
        stale' := stale[1..];
      } else {
        assert full[1..] == [] + tail[1..];
        assert lost + tail == (lost + [tail[0]]) + tail[1..];
        lost', tail' := lost + [tail[0]], tail[1..];
      }
    }
  }

  /** Removing one key removes at most one entry. */
  lemma {:induction false} LosesOne(m: seq<Entry>, k: string)
    requires Ordered(m)
    ensures |Without(m, k)| >= |m| - 1
  {
    if m != [] {
      if m[0].key == k {
        assert forall i :: 0 <= i < |m[1..]| ==> m[1..][i] == m[i + 1];
        Untouched(m[1..], k);
      } else {
        LosesOne(m[1..], k);
      }
    }
  }

  lemma AskTracks(m: seq<Entry>, all: seq<Entry>, before: int, stale: seq<Entry>, lost: seq<Entry>, tail: seq<Entry>,
                  k: string, now: int)
    returns (stale': seq<Entry>, lost': seq<Entry>, tail': seq<Entry>)
    requires Tracks(m, all, before, stale, lost, tail) && Ordered(all) && before <= now
    ensures Tracks(Ask(m, k, now), all, now, stale', lost', tail')
  {
    stale', lost', tail' := stale, lost, tail;
    if Find(m, k).Some? && !IsLive(m, k, now) {
      WithoutParts(stale, tail, k);
      WithoutOrdered(m, k);
      WithoutFacts(m, k);
      if q :| 0 <= q < |tail| && tail[q].key == k {
        assert m[|stale| + q] == tail[q];
        FindAt(m, |stale| + q);
        stale', lost', tail' := AskedInTail(m, all, stale, lost, tail, q, now);
      } else {
        Untouched(tail, k);
        StillExpired(stale, k, before, now);
        stale' := Without(stale, k);
      }
    }
  }

  /** Everything in front of an expired entry is expired as well. */
  lemma AskedInTail(m: seq<Entry>, all: seq<Entry>, stale: seq<Entry>, lost: seq<Entry>, tail: seq<Entry>, q: nat,
      now: int)
    returns (stale': seq<Entry>, lost': seq<Entry>, tail': seq<Entry>)
    requires m == stale + tail && all == lost + tail && |m| <= SEEN_MAX && Ordered(m) && Ordered(all)
    requires q < |tail| && now - tail[q].at > SEEN_TTL_MS
    ensures Tracks(Without(m, tail[q].key), all, now, stale', lost', tail')
  {
    var k := tail[q].key;
    var a, b := tail[..q], tail[q + 1..];
    assert tail == a + ([tail[q]] + b);
    assert m == (stale + a) + ([tail[q]] + b);
    SplitKeys(m, stale + a, tail[q], b);
    WithoutSplit(m, stale + a, tail[q], b);
    assert all == (lost + a + [tail[q]]) + b;
    stale', lost', tail' := stale + a, lost + a + [tail[q]], b;
    WithoutOrdered(m, k);
    FrontExpired(all, |lost| + q, now);
    FrontExpired(m, |stale| + q, now);
    assert lost' == all[..|lost| + q + 1] && stale' == m[..|stale| + q];
  }

  lemma WithoutSplit(m: seq<Entry>, a: seq<Entry>, e: Entry, b: seq<Entry>)
    requires m == a + ([e] + b) && !HasKey(a, e.key) && !HasKey(b, e.key)
    ensures Without(m, e.key) == a + b
  {
    OneGone(e);
    hide Without, HasKey;
    WithoutParts(a, [e] + b, e.key);
    WithoutParts([e], b, e.key);
    Untouched(a, e.key);
    Untouched(b, e.key);
    assert [] + b == b;
  }

  lemma OneGone(e: Entry)
    ensures Without([e], e.key) == []
  {
  }

  lemma FrontExpired(m: seq<Entry>, p: nat, now: int)
    requires Ordered(m) && p < |m| && now - m[p].at > SEEN_TTL_MS
    ensures AllExpired(m[..p], now) && AllExpired(m[..p + 1], now)
  {
  }

  lemma SplitKeys(m: seq<Entry>, a: seq<Entry>, e: Entry, b: seq<Entry>)
    requires Ordered(m) && m == a + ([e] + b)
    ensures !HasKey(a, e.key) && !HasKey(b, e.key)
  {
    assert m[|a|] == e;
    forall i | 0 <= i < |a| ensures a[i].key != e.key { assert m[i] == a[i]; }
    forall i | 0 <= i < |b| ensures b[i].key != e.key { assert m[|a| + 1 + i] == b[i]; }
  }

  function Clock(h: seq<Event>): int {
    if h == [] then 0 else h[|h| - 1].at
  }

  lemma {:induction false} CacheTracks(h: seq<Event>) returns (stale: seq<Entry>, lost: seq<Entry>, tail: seq<Entry>)
    requires InOrder(h)
    ensures Tracks(After(h), Everything(h), Clock(h), stale, lost, tail)
    ensures h != [] ==> forall i :: 0 <= i < |After(h)| ==> After(h)[i].at <= Clock(h)
  {
    stale, lost, tail := [], [], [];
    if h == [] {
      NothingYet(0);
    } else {
      hide After, Everything, Mark, Ask, Without, Ordered, Tracks, InOrder, Clock;
      ClockIsLast(h);
      var g, e := h[..|h| - 1], h[|h| - 1];
      FrontInOrder(h);
      LastEvent(h);
      if g != [] { stale, lost, tail := CacheTracks(g); } else { NothingYet(e.at); }
      EverythingOrdered(g);
      stale, lost, tail :=
        EventTracks(After(g), Everything(g), if g == [] then e.at else Clock(g), stale, lost, tail, e);
      EverythingOrdered(h);
      NoLaterThan(After(h), Everything(h), e.at, stale, lost, tail);
    }
  }

  lemma ClockIsLast(h: seq<Event>)
    requires h != []
    ensures Clock(h) == h[|h| - 1].at
  {
  }

  lemma FrontInOrder(h: seq<Event>)
    requires InOrder(h) && h != []
    ensures var g := h[..|h| - 1]; InOrder(g) && (g != [] ==> Clock(g) <= h[|h| - 1].at)
  {
  }

  lemma LastEvent(h: seq<Event>)
    requires h != []
    ensures var e, m, all := h[|h| - 1], After(h[..|h| - 1]), Everything(h[..|h| - 1]);
            && After(h) == (if e.Marked? then Mark(m, e.key, e.at) else Ask(m, e.key, e.at))
            && Everything(h) == (if e.Marked? then Without(all, e.key) + [Entry(e.key, e.at)] else all)
  {
  }

  lemma NothingYet(now: int)
    ensures Tracks(After([]), Everything([]), now, [], [], []) && After([]) == []
  {
  }

  lemma EventTracks(m: seq<Entry>, all: seq<Entry>, before: int, stale: seq<Entry>, lost: seq<Entry>, tail: seq<Entry>,
      e: Event)
    returns (stale': seq<Entry>, lost': seq<Entry>, tail': seq<Entry>)
    requires Tracks(m, all, before, stale, lost, tail) && Ordered(all) && before <= e.at
    requires forall i :: 0 <= i < |m| ==> m[i].at <= e.at
    ensures Tracks(if e.Marked? then Mark(m, e.key, e.at) else Ask(m, e.key, e.at),
                   if e.Marked? then Without(all, e.key) + [Entry(e.key, e.at)] else all, e.at, stale', lost', tail')
  {
    if e.Marked? {
      stale', lost', tail' := MarkTracks(m, all, before, stale, lost, tail, e.key, e.at);
    } else {
      stale', lost', tail' := AskTracks(m, all, before, stale, lost, tail, e.key, e.at);
    }
  }

  lemma NoLaterThan(m: seq<Entry>, all: seq<Entry>, now: int, stale: seq<Entry>, lost: seq<Entry>, tail: seq<Entry>)
    requires Tracks(m, all, now, stale, lost, tail)
    requires forall i :: 0 <= i < |all| ==> all[i].at <= now
    ensures forall i :: 0 <= i < |m| ==> m[i].at <= now
  {
    forall i | 0 <= i < |m| ensures m[i].at <= now {
      if i >= |stale| { assert m[i] == tail[i - |stale|] == all[|lost| + i - |stale|]; }
    }
  }

  // ----- The cache is exact -----

  /** After any events, at any later time: a key counts as seen exactly when its last mark is at
      most ten minutes old and fewer than 50000 other keys have been marked since. */
  lemma SeenExactly(h: seq<Event>, k: string, now: int)
    requires InOrder(h) && (h != [] ==> Clock(h) <= now)
    ensures IsLive(After(h), k, now)
       <==> LastMarked(h, k).Some? && now - LastMarked(h, k).value <= 600_000 && |MarkedSince(h, k)| < 50_000
  {
    if h == [] { NothingIsLive(k, now); return; }
    hide After, Everything, LastMarked, MarkedSince, InOrder, IsLive;
    var stale, lost, tail := CacheTracks(h);
    var m, all := After(h), Everything(h);
    EverythingOrdered(h);
    EverythingTells(h, k);
    if p :| 0 <= p < |all| && all[p].key == k {
      assert all[p + 1..] == all[|all| - (|all| - 1 - p)..];
      KeyCount(all[p + 1..]);
      LiveExactly(m, all, Clock(h), stale, lost, tail, p, now);
    } else {
      NotInTail(all, lost, tail, k);
      StaleIsNotLive(m, stale, tail, k, Clock(h), now);
    }
  }

  lemma NothingIsLive(k: string, now: int)
    ensures !IsLive(After([]), k, now) && LastMarked([], k) == None
  {
  }

  /** A key of the unbounded list is live exactly while it is young and near enough the end. */
  lemma LiveExactly(m: seq<Entry>, all: seq<Entry>, before: int, stale: seq<Entry>, lost: seq<Entry>, tail: seq<Entry>,
                    p: nat, now: int)
    requires Tracks(m, all, before, stale, lost, tail) && Ordered(all) && before <= now && p < |all|
    ensures IsLive(m, all[p].key, now) <==> now - all[p].at <= SEEN_TTL_MS && |all| - 1 - p < SEEN_MAX
  {
    var k := all[p].key;
    if p >= |lost| {
      var q := |stale| + p - |lost|;
      assert m[q] == tail[p - |lost|] == all[p];
      FindAt(m, q);
    } else {
      assert lost[p] == all[p];
      NotInTail(all, lost, tail, k);
      StaleIsNotLive(m, stale, tail, k, before, now);
    }
  }

  lemma NotInTail(all: seq<Entry>, lost: seq<Entry>, tail: seq<Entry>, k: string)
    requires Ordered(all) && all == lost + tail && (HasKey(all, k) ==> HasKey(lost, k))
    ensures !HasKey(tail, k)
  {
    assert forall i :: 0 <= i < |tail| ==> tail[i] == all[|lost| + i];
    assert forall i :: 0 <= i < |lost| ==> lost[i] == all[i];
  }

  /** A key that is not in the tail is not live: an entry the cache may still hold is stale. */
  lemma StaleIsNotLive(m: seq<Entry>, stale: seq<Entry>, tail: seq<Entry>, k: string, before: int, now: int)
    requires Ordered(m) && m == stale + tail && AllExpired(stale, before) && before <= now && !HasKey(tail, k)
    ensures !IsLive(m, k, now)
  {
    FindIsThere(m, k);
    if HasKey(m, k) {
      assert forall i :: |stale| <= i < |m| ==> m[i] == tail[i - |stale|];
      var i :| 0 <= i < |m| && m[i].key == k;
      FindAt(m, i);
    }
  }

  /** The map never outgrows its bound and lists its keys by the time of their marks. */
  lemma BoundedAndOrdered(h: seq<Event>)
    requires InOrder(h)
    ensures |After(h)| <= 50_000 && Ordered(After(h))
  {
    var stale, lost, tail := CacheTracks(h);
  }

  /** The joined key loses nothing for normalised resources, which hold no backslash. */
  lemma SeenKeyIsInjective(pid: string, resource: string, pid': string, resource': string)
    requires '\\' !in resource && '\\' !in resource'
    requires SeenKey(pid, resource) == SeenKey(pid', resource')
    ensures pid == pid' && resource == resource'
  {
    var k := SeenKey(pid, resource);
    assert |SEPARATOR| == 4 && SEPARATOR[0] == '\\';
    assert k[|pid|] == '\\' && k[|pid'|] == '\\';
    assert forall i :: |pid| + 4 <= i < |k| ==> k[i] == resource[i - |pid| - 4];
    assert forall i :: |pid'| + 4 <= i < |k| ==> k[i] == resource'[i - |pid'| - 4];
    assert SEPARATOR[1] == 'x' && SEPARATOR[2] == '0' && SEPARATOR[3] == '0';
    assert k[|pid| + 1] == 'x' && k[|pid| + 2] == '0' && k[|pid| + 3] == '0';
    assert k[|pid'| + 1] == 'x' && k[|pid'| + 2] == '0' && k[|pid'| + 3] == '0';
    assert |pid| == |pid'|;
    assert k[..|pid|] == pid && k[..|pid'|] == pid';
    assert k[|pid| + 4..] == resource && k[|pid'| + 4..] == resource';
  }
}
