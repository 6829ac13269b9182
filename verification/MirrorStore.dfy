/** The write-behind mirror of src/store.js: reads are served from memory, writes are chained to
    the remote store one after the other, and a refresh replaces memory by what the remote holds. */
module MirrorStore {
  import opened Prelude

  /** The ten collections the mirror knows of, and any other name a caller may use. */
  datatype Collection =
    | Orgs | Passports | Tokens | Policies | Revocations | Approvals | ApiKeys | Blueprints
    | AuditReceipts | AuditCheckpoints | Other(name: string)

  const COLLECTIONS: seq<Collection> :=
    [Orgs, Passports, Tokens, Policies, Revocations, Approvals, ApiKeys, Blueprints, AuditReceipts, AuditCheckpoints]

  datatype Key = Key(col: Collection, id: string)

  type Rec = string
  type Table = map<Key, Rec>

  datatype Write = Put(key: Key, rec: Rec) | Del(key: Key)

  function Apply(m: Table, w: Write): Table {
    match w
    case Put(k, r) => m[k := r]
    case Del(k) => m - {k}
  }

  function ApplyAll(m: Table, ws: seq<Write>): Table {
    if ws == [] then m else Apply(ApplyAll(m, ws[..|ws| - 1]), ws[|ws| - 1])
  }

  function Rows(m: Table, col: Collection): Table {
    map k | k in m && k.col == col :: m[k]
  }

  /** Listed collections take the dumped rows that have an id; the others are left alone. */
  function Swapped(mem: Table, dumped: Table): Table {
    map k | k in mem.Keys + dumped.Keys && (if k.col.Other? then k in mem else k in dumped && k.id != "")
      :: if k.col.Other? then mem[k] else dumped[k]
  }

  /** A failed write may or may not have reached the remote store. */
  datatype Outcome = Done | Failed(reached: bool)

  /** A refresh first waits for the `asked` writes issued before it, and then reads collection
      by collection; `at` notes how many tasks had settled when each was read. */
  datatype Phase =
    | Idle
    | Flushing(asked: nat)
    | Dumping(asked: nat, at: map<Collection, nat>, dumped: Table)

  /** The chain is all that was ever issued; `settled` tasks of it have run. */
  datatype State = State(mem: Table, remote: Table, issued: seq<Write>, settled: nat, failed: bool, phase: Phase)

  datatype Event =
    | Issue(write: Write)
    | Settle(outcome: Outcome)
    | Refresh
    | EndFlush
    | Dump(col: Collection)
    | ReadFails
    | Swap

  predicate Enabled(s: State, e: Event) {
    match e
    case Issue(_) => true
    case Settle(_) => s.settled < |s.issued|
    case Refresh => true
    case EndFlush => s.phase.Flushing? && s.phase.asked <= s.settled
    case Dump(col) => s.phase.Dumping? && col in COLLECTIONS && col !in s.phase.at
    case ReadFails => s.phase.Dumping? && exists c :: c in COLLECTIONS && c !in s.phase.at
    case Swap => s.phase.Dumping? && forall c | c in COLLECTIONS :: c in s.phase.at
  }

  function Step(s: State, e: Event): State
    requires Enabled(s, e)
  {
    match e
    case Issue(w) => s.(mem := Apply(s.mem, w), issued := s.issued + [w])
    case Settle(o) =>
      s.(remote := if o.Done? || o.reached then Apply(s.remote, s.issued[s.settled]) else s.remote,
         settled := s.settled + 1,
         failed := s.failed || o.Failed?)
    case Refresh => if s.phase.Idle? then s.(phase := Flushing(|s.issued|)) else s
    case EndFlush => s.(phase := if s.failed then Idle else Dumping(s.phase.asked, map[], map[]))
    case Dump(col) =>
      s.(phase := s.phase.(at := s.phase.at[col := s.settled], dumped := s.phase.dumped + Rows(s.remote, col)))
    case ReadFails => s.(phase := Idle)
    case Swap => s.(mem := Swapped(s.mem, s.phase.dumped), phase := Idle)
  }

  /** What `flush` answers once the writes it waits for have settled. */
  predicate FlushSucceeds(s: State, awaited: nat) {
    awaited <= s.settled && !s.failed
  }

  class Mirror {
    var mem: Table
    var remote: Table
    var chain: seq<Write>
    var settled: nat
    var lastWriteError: bool
    var refreshing: Phase

    ghost function View(): State
      reads this
    {
      State(mem, remote, chain, settled, lastWriteError, refreshing)
    }

    method Put(key: Key, rec: Rec)
      modifies this
      ensures View() == Step(old(View()), Issue(Write.Put(key, rec)))
    {
      mem := mem[key := rec];
      chain := chain + [Write.Put(key, rec)];
    }

    method Del(key: Key)
      modifies this
      ensures View() == Step(old(View()), Issue(Write.Del(key)))
    {
      if key in mem { mem := mem - {key}; }
      chain := chain + [Write.Del(key)];
    }

    /** The next task of the chain runs; its failure is caught and remembered. */
    method RunTask(outcome: Outcome)
      requires Enabled(View(), Settle(outcome))
      modifies this
      ensures View() == Step(old(View()), Settle(outcome))
    {
      if outcome.Done? || outcome.reached { remote := Apply(remote, chain[settled]); }
      settled := settled + 1;
      if outcome.Failed? { lastWriteError := true; }
    }

    method StartRefresh()
      modifies this
      ensures View() == Step(old(View()), Refresh)
    {
      if !refreshing.Idle? { return; }
      refreshing := Flushing(|chain|);
    }

    method EndOfFlush()
      requires Enabled(View(), EndFlush)
      modifies this
      ensures View() == Step(old(View()), EndFlush)
    {
      if lastWriteError { refreshing := Idle; return; }
      refreshing := Dumping(refreshing.asked, map[], map[]);
    }

    method DumpCollection(col: Collection)
      requires Enabled(View(), Dump(col))
      modifies this
      ensures View() == Step(old(View()), Event.Dump(col))
    {
      refreshing := refreshing.(at := refreshing.at[col := settled], dumped := refreshing.dumped + Rows(remote, col));
    }

    /** A collection cannot be read: the refresh is over, and memory stays as it is. */
    method FailToRead()
      requires Enabled(View(), ReadFails)
      modifies this`refreshing
      ensures View() == Step(old(View()), ReadFails)
    {
      refreshing := Idle;
    }

    /** The collections are replaced one after the other. */
    method SwapAll()
      requires Enabled(View(), Swap)
      modifies this`mem, this`refreshing
      ensures View() == Step(old(View()), Swap)
    {
      SwapStep(View());
      hide SwapOne, Swapped, Step, Enabled;
      ReplaceAll(refreshing.dumped);
      AllSwapped(old(mem), refreshing.dumped);
      refreshing := Idle;
    }

    method ReplaceAll(dumped: Table)
      modifies this`mem
      ensures mem == SwapFirst(old(mem), dumped, |COLLECTIONS|)
    {
      hide SwapOne;
      var i := 0;
      while i < |COLLECTIONS|
        invariant 0 <= i <= |COLLECTIONS| && mem == SwapFirst(old(mem), dumped, i)
      {
        mem := SwapOne(mem, dumped, COLLECTIONS[i]);
        i := i + 1;
      }
    }
  }

  /** One collection of memory becomes the rows dumped for it. */
  function SwapOne(mem: Table, dumped: Table, col: Collection): Table {
    var next := map k | k in dumped && k.col == col && k.id != "" :: dumped[k];
    (map k | k in mem && k.col != col :: mem[k]) + next
  }

  /** The first `i` collections replaced. */
  ghost function SwapFirst(mem: Table, dumped: Table, i: nat): Table
    requires i <= |COLLECTIONS|
  {
    if i == 0 then mem else SwapOne(SwapFirst(mem, dumped, i - 1), dumped, COLLECTIONS[i - 1])
  }

  lemma SwapOneAt(mem: Table, dumped: Table, col: Collection, k: Key)
    ensures Look(SwapOne(mem, dumped, col), k) == if k.col == col then (if k.id != "" then Look(dumped, k) else None)
            else Look(mem, k)
  {
  }

  predicate Before(col: Collection, i: nat)
    requires i <= |COLLECTIONS|
  {
    i > 0 && (COLLECTIONS[i - 1] == col || Before(col, i - 1))
  }

  lemma {:induction false} SwapFirstAt(mem: Table, dumped: Table, i: nat, k: Key)
    requires i <= |COLLECTIONS|
    ensures Look(SwapFirst(mem, dumped, i), k)
         == if Before(k.col, i) then (if k.id != "" then Look(dumped, k) else None) else Look(mem, k)
  {
    hide SwapOne, Look;
    if i > 0 {
      SwapFirstAt(mem, dumped, i - 1, k);
      SwapOneAt(SwapFirst(mem, dumped, i - 1), dumped, COLLECTIONS[i - 1], k);
    }
  }

  lemma {:induction false} BeforeIsListed(col: Collection, i: nat)
    requires i <= |COLLECTIONS|
    ensures Before(col, i) <==> exists j :: 0 <= j < i && COLLECTIONS[j] == col
  {
    if i > 0 { BeforeIsListed(col, i - 1); }
  }

  lemma SwapStep(s: State)
    requires Enabled(s, Swap)
    ensures s.phase.Dumping? && Step(s, Swap) == s.(mem := Swapped(s.mem, s.phase.dumped), phase := Idle)
  {
    hide Swapped;
  }

  lemma AllSwapped(mem: Table, dumped: Table)
    ensures SwapFirst(mem, dumped, |COLLECTIONS|) == Swapped(mem, dumped)
  {
    hide SwapFirst, Before;
    forall k: Key ensures Look(SwapFirst(mem, dumped, |COLLECTIONS|), k) == Look(Swapped(mem, dumped), k) {
      SwapFirstAt(mem, dumped, |COLLECTIONS|, k);
      BeforeIsListed(k.col, |COLLECTIONS|);
      AllListed();
    }
    SameTable(SwapFirst(mem, dumped, |COLLECTIONS|), Swapped(mem, dumped));
  }

  lemma SameTable(m: Table, n: Table)
    requires forall k: Key :: Look(m, k) == Look(n, k)
    ensures m == n
  {
    assert forall k: Key :: k in m <==> Look(m, k).Some?;
    assert forall k: Key :: k in n <==> Look(n, k).Some?;
    assert m.Keys == n.Keys;
    forall k | k in m ensures m[k] == n[k] { assert Look(m, k) == Look(n, k); }
  }

  lemma AllListed()
    ensures forall c: Collection :: c in COLLECTIONS <==> !c.Other?
  {
    assert COLLECTIONS[0] == Orgs && COLLECTIONS[1] == Passports && COLLECTIONS[2] == Tokens &&
      COLLECTIONS[3] == Policies;
    assert COLLECTIONS[4] == Revocations && COLLECTIONS[5] == Approvals && COLLECTIONS[6] == ApiKeys;
    assert COLLECTIONS[7] == Blueprints && COLLECTIONS[8] == AuditReceipts && COLLECTIONS[9] == AuditCheckpoints;
  }

  // ----- Runs -----

  ghost predicate StepAt(ss: seq<State>, es: seq<Event>, i: int) {
    0 <= i < |es| && i + 1 < |ss| && Enabled(ss[i], es[i]) && ss[i + 1] == Step(ss[i], es[i])
  }

  /** The mirror starts on whatever the remote store holds, loaded by a first refresh. */
  ghost predicate Run(ss: seq<State>, es: seq<Event>) {
    && |ss| == |es| + 1
    && ss[0] == State(Swapped(map[], ss[0].remote), ss[0].remote, [], 0, false, Idle)
    && forall i :: 0 <= i < |es| ==> StepAt(ss, es, i)
  }

  /** What a refresh brings back: rows of the listed collections that have an id. */
  predicate Visible(k: Key) { !k.col.Other? && k.id != "" }

  function Look(m: Table, k: Key): Option<Rec> {
    if k in m then Some(m[k]) else None
  }

  ghost predicate SameVisibly(m: Table, n: Table) {
    forall k | Visible(k) :: Look(m, k) == Look(n, k)
  }

  lemma {:induction false} ApplyTwice(m: Table, a: seq<Write>, b: seq<Write>)
    ensures ApplyAll(m, a + b) == ApplyAll(ApplyAll(m, a), b)
  {
    if b == [] {
      assert a + b == a;
    } else {
      assert (a + b)[..|a + b| - 1] == a + b[..|b| - 1];
      ApplyTwice(m, a, b[..|b| - 1]);
    }
  }

  // ----- Failures -----

  ghost predicate FailsAt(es: seq<Event>, i: int) {
    0 <= i < |es| && es[i].Settle? && es[i].outcome.Failed?
  }

  /** The mirror is failed exactly when some write has failed: no flush succeeds ever after. */
  lemma {:induction false} FailedForever(ss: seq<State>, es: seq<Event>, n: nat)
    requires Run(ss, es) && n <= |es|
    ensures ss[n].failed <==> exists i :: i < n && FailsAt(es, i)
  {
    if n > 0 {
      FailedForever(ss, es, n - 1);
      assert StepAt(ss, es, n - 1);
      assert FailsAt(es, n - 1) <==> es[n - 1].Settle? && es[n - 1].outcome.Failed?;
    }
  }

  /** The flush of a refresh ended at `m` without any failure so far. */
  ghost predicate CleanFlush(ss: seq<State>, es: seq<Event>, m: int, asked: nat) {
    && 0 <= m < |es| && m < |ss| && es[m].EndFlush? && ss[m].phase == Flushing(asked) && asked <= ss[m].settled
    && forall i :: i < m ==> !FailsAt(es, i)
  }

  /** Nothing is read, and memory is never replaced, but after a flush that met no failure; a flush
      that met one ends its refresh. */
  lemma {:induction false} RefreshNeedsFlush(ss: seq<State>, es: seq<Event>, n: nat)
    requires Run(ss, es) && n <= |es|
    ensures ss[n].phase.Dumping? ==> exists m :: m < n && CleanFlush(ss, es, m, ss[n].phase.asked)
    ensures n < |es| && es[n].EndFlush? && (exists i :: i < n && FailsAt(es, i)) ==> ss[n + 1] == ss[n].(phase := Idle)
  {
    FailedForever(ss, es, n);
    if n < |es| { assert StepAt(ss, es, n); }
    if n > 0 {
      RefreshNeedsFlush(ss, es, n - 1);
      FailedForever(ss, es, n - 1);
      assert StepAt(ss, es, n - 1);
      hide FailsAt, Swapped, Apply, Rows;
      if es[n - 1].EndFlush? && ss[n].phase.Dumping? { assert CleanFlush(ss, es, n - 1, ss[n].phase.asked); }
    }
  }

  // ----- The remote store follows the chain -----

  ghost predicate DumpedAt(s: State, start: Table, col: Collection) {
    && s.phase.Dumping? && col in s.phase.at && s.phase.asked <= s.phase.at[col] <= s.settled <= |s.issued|
    && forall k: Key | k.col == col :: Look(s.phase.dumped, k) == Look(ApplyAll(start, s.issued[..s.phase.at[col]]), k)
  }

  ghost predicate RemoteFollows(s: State, start: Table) {
    && s.settled <= |s.issued|
    && (!s.failed ==> s.remote == ApplyAll(start, s.issued[..s.settled]))
    && (s.phase.Flushing? ==> s.phase.asked <= |s.issued|)
    && (s.phase.Dumping? ==> s.phase.asked <= s.settled)
  }

  /** Every collection was read off some state of the remote store between the request for the
      refresh and now, whose writes are a prefix of the chain. */
  ghost predicate DumpsFollow(s: State, start: Table) {
    s.phase.Dumping? && !s.failed ==>
      && (forall k | k in s.phase.dumped :: k.col in s.phase.at)
      && (forall col | col in s.phase.at :: DumpedAt(s, start, col))
  }

  lemma StepFollows(s: State, e: Event, start: Table)
    requires RemoteFollows(s, start) && Enabled(s, e)
    ensures RemoteFollows(Step(s, e), start)
  {
    var t := Step(s, e);
    if e.Settle? {
      assert t.issued[..t.settled] == s.issued[..s.settled] + [s.issued[s.settled]];
    } else if e.Issue? {
      assert t.issued[..t.settled] == s.issued[..s.settled];
    }
  }

  lemma StepDumps(s: State, e: Event, start: Table)
    requires RemoteFollows(s, start) && DumpsFollow(s, start) && Enabled(s, e)
    ensures DumpsFollow(Step(s, e), start)
  {
    var t := Step(s, e);
    StepFollows(s, e, start);
    if t.phase.Dumping? && s.phase.Dumping? && !t.failed {
      forall col | col in t.phase.at ensures DumpedAt(t, start, col) {
        if !(e.Dump? && e.col == col) { OtherDumpStays(s, e, start, col); }
      }
    }
  }

  lemma OtherDumpStays(s: State, e: Event, start: Table, col: Collection)
    requires DumpedAt(s, start, col) && Enabled(s, e) && !(e.Dump? && e.col == col) && Step(s, e).phase.Dumping?
    requires forall k | k in s.phase.dumped :: k.col in s.phase.at
    ensures col in Step(s, e).phase.at ==> DumpedAt(Step(s, e), start, col)
  {
    hide ApplyAll;
    var t := Step(s, e);
    assert t.issued[..s.phase.at[col]] == s.issued[..s.phase.at[col]];
  }

  lemma {:induction false} RunFollows(ss: seq<State>, es: seq<Event>, n: nat)
    requires Run(ss, es) && n <= |es|
    ensures RemoteFollows(ss[n], ss[0].remote) && DumpsFollow(ss[n], ss[0].remote)
  {
    if n > 0 {
      RunFollows(ss, es, n - 1);
      assert StepAt(ss, es, n - 1);
      StepFollows(ss[n - 1], es[n - 1], ss[0].remote);
      StepDumps(ss[n - 1], es[n - 1], ss[0].remote);
    }
  }

  lemma {:induction false} ChainGrows(ss: seq<State>, es: seq<Event>, m: nat, n: nat)
    requires Run(ss, es) && m <= n <= |es|
    ensures |ss[m].issued| <= |ss[n].issued| && ss[n].issued[..|ss[m].issued|] == ss[m].issued
  {
    if m < n {
      ChainGrows(ss, es, m, n - 1);
      assert StepAt(ss, es, n - 1);
      var k := |ss[m].issued|;
      assert ss[n].issued[..k] == ss[n - 1].issued[..k];
    }
  }

  /** A flush called at `m` that succeeds at `n`: every write issued before the call has been
      applied to the remote store, in order, with nothing but later writes of the chain on top. */
  lemma FlushIsDurable(ss: seq<State>, es: seq<Event>, m: nat, n: nat)
    requires Run(ss, es) && m <= n <= |es| && FlushSucceeds(ss[n], |ss[m].issued|)
    ensures exists later :: ss[m].issued + later <= ss[n].issued
              && ss[n].remote == ApplyAll(ApplyAll(ss[0].remote, ss[m].issued), later)
  {
    RunFollows(ss, es, n);
    ChainGrows(ss, es, m, n);
    var later := ss[n].issued[|ss[m].issued|..ss[n].settled];
    assert ss[n].issued[..ss[n].settled] == ss[m].issued + later;
    ApplyTwice(ss[0].remote, ss[m].issued, later);
  }

  // ----- Memory against the chain -----

  /** What the last write of the row to this key leaves there, if there is one. */
  function LastFor(ws: seq<Write>, k: Key): Option<Option<Rec>> {
    if ws == [] then None
    else
      var w := ws[|ws| - 1];
      if w.key == k then Some(if w.Put? then Some(w.rec) else None) else LastFor(ws[..|ws| - 1], k)
  }

  lemma {:induction false} LookAfter(m: Table, ws: seq<Write>, k: Key)
    ensures Look(ApplyAll(m, ws), k) == if LastFor(ws, k).Some? then LastFor(ws, k).value else Look(m, k)
  {
    if ws != [] { LookAfter(m, ws[..|ws| - 1], k); }
  }

  lemma {:induction false} LastForSplit(a: seq<Write>, b: seq<Write>, k: Key)
    ensures LastFor(a + b, k) == if LastFor(b, k).Some? then LastFor(b, k) else LastFor(a, k)
  {
    if b == [] {
      assert a + b == a;
    } else {
      assert (a + b)[..|a + b| - 1] == a + b[..|b| - 1];
      LastForSplit(a, b[..|b| - 1], k);
    }
  }

  /** The swap about to happen loses nothing of this key: the last write to it that was issued
      since its collection was read, if any, writes what was read. */
  predicate Harmless(s: State, k: Key) {
    s.phase.Dumping? && k.col in s.phase.at && s.phase.at[k.col] <= |s.issued| ==>
      var last := LastFor(s.issued[s.phase.at[k.col]..], k);
      last.Some? ==> last.value == Look(s.phase.dumped, k)
  }

  /** Memory shows what all writes so far amount to. */
  ghost predicate Right(s: State, start: Table, k: Key) {
    Look(s.mem, k) == Look(ApplyAll(start, s.issued), k)
  }

  /** Every listed key shows, after a swap, a state of the store no older than the refresh. */
  lemma SwapShows(s: State, start: Table, k: Key) returns (at: nat)
    requires RemoteFollows(s, start) && DumpsFollow(s, start) && Enabled(s, Swap) && !s.failed && Visible(k)
    ensures k.col in s.phase.at && at == s.phase.at[k.col] && s.phase.asked <= at <= |s.issued|
    ensures Look(Step(s, Swap).mem, k) == Look(s.phase.dumped, k) == Look(ApplyAll(start, s.issued[..at]), k)
  {
    AllListed();
    assert DumpedAt(s, start, k.col);
    at := s.phase.at[k.col];
  }

  /** In any run without a failed write, after any refresh: nothing the mirror shows is older
      than the moment the refresh was asked for. */
  lemma RefreshIsRecent(ss: seq<State>, es: seq<Event>, i: nat, k: Key) returns (at: nat)
    requires Run(ss, es) && i < |es| && es[i].Swap? && !ss[i].failed && Visible(k) && StepAt(ss, es, i)
    ensures ss[i].phase.asked <= at <= |ss[i].issued|
    ensures Look(ss[i + 1].mem, k) == Look(ApplyAll(ss[0].remote, ss[i].issued[..at]), k)
  {
    RunFollows(ss, es, i);
    at := SwapShows(ss[i], ss[0].remote, k);
  }

  /** A call for a refresh at `m` waits for the end of the refresh under way from then on. */
  ghost predicate AnsweredBy(ss: seq<State>, es: seq<Event>, m: int, i: int) {
    && 0 <= m < i < |es| && |ss| == |es| + 1 && es[m].Refresh? && es[i].Swap?
    && forall n :: m < n <= i ==> !ss[n].phase.Idle?
  }

  lemma {:induction false} AskedStays(ss: seq<State>, es: seq<Event>, m: nat, i: nat, n: nat)
    requires Run(ss, es) && AnsweredBy(ss, es, m, i) && m < n <= i
    ensures !ss[n].phase.Idle? && ss[n].phase.asked == if ss[m].phase.Idle? then |ss[m].issued| else ss[m].phase.asked
  {
    if n > m + 1 { AskedStays(ss, es, m, i, n - 1); }
    assert StepAt(ss, es, n - 1);
  }

  /** The caller who starts a refresh sees nothing older than the call, his own writes included.
      Whoever joins one sees nothing older than the call that started it. */
  lemma CallerSees(ss: seq<State>, es: seq<Event>, m: nat, i: nat, k: Key) returns (at: nat)
    requires Run(ss, es) && AnsweredBy(ss, es, m, i) && !ss[i].failed && Visible(k)
    ensures (if ss[m].phase.Idle? then |ss[m].issued| else ss[m].phase.asked) <= at <= |ss[i].issued|
    ensures Look(ss[i + 1].mem, k) == Look(ApplyAll(ss[0].remote, ss[i].issued[..at]), k)
  {
    AskedStays(ss, es, m, i, i);
    assert StepAt(ss, es, i);
    at := RefreshIsRecent(ss, es, i, k);
  }

  /** Whatever memory held before: after a swap it is right at a key exactly when the swap was
      harmless there. */
  lemma SwapIsRightExactly(s: State, start: Table, k: Key)
    requires RemoteFollows(s, start) && DumpsFollow(s, start) && Enabled(s, Swap) && !s.failed && Visible(k)
    ensures Right(Step(s, Swap), start, k) <==> Harmless(s, k)
  {
    var at := SwapShows(s, start, k);
    assert Step(s, Swap).issued == s.issued;
    hide RemoteFollows, DumpsFollow, Enabled, ApplyAll, Look, LastFor, Step, Swapped;
    LookCut(start, s.issued, at, k);
  }

  /** Only the writes from `at` on decide, if one of them is to the key. */
  lemma LookCut(start: Table, ws: seq<Write>, at: nat, k: Key)
    requires at <= |ws|
    ensures var last := LastFor(ws[at..], k);
            Look(ApplyAll(start, ws), k) == if last.Some? then last.value else Look(ApplyAll(start, ws[..at]), k)
  {
    hide ApplyAll, Look, LastFor;
    Cut(ws, at);
    ApplyTwice(start, ws[..at], ws[at..]);
    LookAfter(ApplyAll(start, ws[..at]), ws[at..], k);
  }

  lemma Cut(ws: seq<Write>, at: nat)
    requires at <= |ws|
    ensures ws == ws[..at] + ws[at..]
  {
  }

  /** A write that settled before its collection was read is never lost. */
  lemma SettledIsHarmless(s: State, k: Key)
    requires s.phase.Dumping? && k.col in s.phase.at && s.phase.at[k.col] <= |s.issued|
    requires forall i :: s.phase.at[k.col] <= i < |s.issued| ==> s.issued[i].key != k
    ensures Harmless(s, k)
  {
    NoneFor(s.issued[s.phase.at[k.col]..], k);
  }

  lemma {:induction false} NoneFor(ws: seq<Write>, k: Key)
    requires forall i :: 0 <= i < |ws| ==> ws[i].key != k
    ensures LastFor(ws, k) == None
  {
    if ws != [] { NoneFor(ws[..|ws| - 1], k); }
  }

  // ----- Memory along runs -----

  ghost predicate LastSwap(es: seq<Event>, j: int, n: int) {
    0 <= j < n <= |es| && es[j].Swap? && forall i :: j < i < n ==> !es[i].Swap?
  }

  /** Between the two states the key was written. */
  ghost predicate Rewritten(s: State, t: State, k: Key) {
    |s.issued| <= |t.issued| && LastFor(t.issued[|s.issued|..], k).Some?
  }

  lemma NotFailedBefore(s: State, e: Event)
    requires Enabled(s, e) && !Step(s, e).failed
    ensures !s.failed
  {
  }

  lemma StartsRight(remote: Table, k: Key)
    requires Visible(k)
    ensures Look(Swapped(map[], remote), k) == Look(ApplyAll(remote, []), k)
  {
  }

  /** An issued write makes its own key right and leaves the others as they were. */
  lemma IssueKeepsRight(s: State, w: Write, start: Table, k: Key)
    ensures Right(Step(s, Issue(w)), start, k) <==> w.key == k || Right(s, start, k)
  {
    assert (s.issued + [w])[..|s.issued|] == s.issued;
  }

  lemma OthersKeepRight(s: State, e: Event, start: Table, k: Key)
    requires Enabled(s, e) && !e.Issue? && !e.Swap?
    ensures Step(s, e).issued == s.issued && (Right(Step(s, e), start, k) <==> Right(s, start, k))
  {
  }

  /** The condition of the next theorem, before and after a step that is no swap. */
  lemma StepKeepsCondition(ss: seq<State>, es: seq<Event>, n: nat, k: Key)
    requires Run(ss, es) && n < |es| && StepAt(ss, es, n) && !es[n].Swap?
    ensures (forall j :: LastSwap(es, j, n + 1) ==> Harmless(ss[j], k) || Rewritten(ss[j], ss[n + 1], k))
       <==> (es[n].Issue? && es[n].write.key == k)
            || forall j :: LastSwap(es, j, n) ==> Harmless(ss[j], k) || Rewritten(ss[j], ss[n], k)
  {
    hide Harmless;
    forall j ensures LastSwap(es, j, n + 1) <==> LastSwap(es, j, n) {}
    forall j | LastSwap(es, j, n)
      ensures Rewritten(ss[j], ss[n + 1], k) <==> (es[n].Issue? && es[n].write.key == k) || Rewritten(ss[j], ss[n], k)
    {
      ChainGrows(ss, es, j, n);
      var m := |ss[j].issued|;
      if es[n].Issue? {
        assert ss[n + 1].issued[m..] == ss[n].issued[m..] + [es[n].write];
        LastForSplit(ss[n].issued[m..], [es[n].write], k);
        assert LastFor([es[n].write], k).Some? <==> es[n].write.key == k;
      }
    }
  }

  lemma SwapCondition(ss: seq<State>, es: seq<Event>, n: nat, k: Key)
    requires Run(ss, es) && n < |es| && StepAt(ss, es, n) && es[n].Swap?
    ensures (forall j :: LastSwap(es, j, n + 1) ==> Harmless(ss[j], k) || Rewritten(ss[j], ss[n + 1], k))
       <==> Harmless(ss[n], k)
  {
    hide Harmless;
    assert LastSwap(es, n, n + 1);
    var m := n + 1;
    assert forall j :: LastSwap(es, j, m) ==> j == n;
    assert ss[n + 1].issued[|ss[n].issued|..] == [];
  }

  /** In any run without a failed write, and for every listed key: memory is right exactly if
      the last swap was harmless to the key or the key was written since. */
  lemma {:induction false} MirrorExactly(ss: seq<State>, es: seq<Event>, n: nat, k: Key)
    requires Run(ss, es) && n <= |es| && !ss[n].failed && Visible(k)
    ensures Right(ss[n], ss[0].remote, k)
       <==> forall j :: LastSwap(es, j, n) ==> Harmless(ss[j], k) || Rewritten(ss[j], ss[n], k)
  {
    hide Step, Enabled, RemoteFollows, DumpsFollow, ApplyAll, Swapped, Harmless, Rewritten, Look;
    if n == 0 {
      StartsRight(ss[0].remote, k);
    } else {
      var s, e := ss[n - 1], es[n - 1];
      assert StepAt(ss, es, n - 1);
      NotFailedBefore(s, e);
      if e.Swap? {
        RunFollows(ss, es, n - 1);
        SwapIsRightExactly(s, ss[0].remote, k);
        SwapCondition(ss, es, n - 1, k);
      } else {
        MirrorExactly(ss, es, n - 1, k);
        StepKeepsCondition(ss, es, n - 1, k);
        if e.Issue? { IssueKeepsRight(s, e.write, ss[0].remote, k); } else { OthersKeepRight(s, e, ss[0].remote, k); }
      }
    }
  }

  ghost predicate AllHarmless(ss: seq<State>, es: seq<Event>, n: int) {
    forall j, k :: 0 <= j < n && StepAt(ss, es, j) && es[j].Swap? && Visible(k) ==> Harmless(ss[j], k)
  }

  /** Without failed writes and with harmless swaps, memory is what the remote store will be
      once the pending writes are applied in order. */
  lemma MirrorRefines(ss: seq<State>, es: seq<Event>, n: nat)
    requires Run(ss, es) && n <= |es| && !ss[n].failed && AllHarmless(ss, es, n)
    ensures ss[n].settled <= |ss[n].issued|
    ensures SameVisibly(ss[n].mem, ApplyAll(ss[n].remote, ss[n].issued[ss[n].settled..]))
  {
    hide Step, Enabled, DumpsFollow, ApplyAll, Swapped, Harmless, Look;
    RunFollows(ss, es, n);
    var s := ss[n];
    ApplyTwice(ss[0].remote, s.issued[..s.settled], s.issued[s.settled..]);
    assert s.issued[..s.settled] + s.issued[s.settled..] == s.issued;
    forall k | Visible(k) ensures Look(s.mem, k) == Look(ApplyAll(ss[0].remote, s.issued), k) {
      MirrorExactly(ss, es, n, k);
      forall j | LastSwap(es, j, n) ensures Harmless(ss[j], k) { assert StepAt(ss, es, j); }
    }
  }

  /** No write was issued between the request for a refresh and its swap. */
  ghost predicate Calm(s: State) {
    s.phase.Dumping? && s.phase.asked == |s.issued|
  }

  /** Such a swap is harmless to every key. */
  lemma CalmIsHarmless(s: State, start: Table, k: Key)
    requires RemoteFollows(s, start) && DumpsFollow(s, start) && Enabled(s, Swap) && !s.failed && Calm(s) && Visible(k)
    ensures Harmless(s, k)
  {
    var at := SwapShows(s, start, k);
    assert s.issued[at..] == [];
  }

  /** A refresh changes nothing one can see exactly when its swap is harmless to every listed
      key, provided memory was right; in particular when it is calm. */
  lemma RefreshIsIdentityExactly(ss: seq<State>, es: seq<Event>, i: nat)
    requires Run(ss, es) && i < |es| && es[i].Swap? && !ss[i].failed
    requires SameVisibly(ss[i].mem, ApplyAll(ss[0].remote, ss[i].issued))
    ensures SameVisibly(ss[i + 1].mem, ss[i].mem) <==> forall k | Visible(k) :: Harmless(ss[i], k)
    ensures Calm(ss[i]) ==> SameVisibly(ss[i + 1].mem, ss[i].mem)
  {
    assert StepAt(ss, es, i);
    RunFollows(ss, es, i);
    hide Enabled, RemoteFollows, DumpsFollow, ApplyAll, Swapped, Harmless, Look;
    forall k | Visible(k)
      ensures Look(ss[i + 1].mem, k) == Look(ss[i].mem, k) <==> Harmless(ss[i], k)
      ensures Calm(ss[i]) ==> Harmless(ss[i], k)
    {
      SwapIsRightExactly(ss[i], ss[0].remote, k);
      if Calm(ss[i]) { CalmIsHarmless(ss[i], ss[0].remote, k); }
    }
  }

  /** A calm swap makes memory right, whatever it held before, and like the store. */
  lemma CalmSwapIsExact(s: State, start: Table)
    requires RemoteFollows(s, start) && DumpsFollow(s, start) && Enabled(s, Swap) && !s.failed && Calm(s)
    ensures SameVisibly(Step(s, Swap).mem, ApplyAll(start, s.issued)) && s.remote == ApplyAll(start, s.issued)
  {
    assert s.issued[..|s.issued|] == s.issued;
    forall k | Visible(k) ensures Right(Step(s, Swap), start, k) {
      CalmIsHarmless(s, start, k);
      SwapIsRightExactly(s, start, k);
    }
    hide Enabled, RemoteFollows, DumpsFollow, ApplyAll, Swapped, Harmless, Look;
  }

  /** A calm refresh after harmless ones is the identity and leaves memory and store alike. */
  lemma CalmRefreshIsIdentity(ss: seq<State>, es: seq<Event>, i: nat)
    requires Run(ss, es) && i < |es| && es[i].Swap? && !ss[i].failed && AllHarmless(ss, es, i) && Calm(ss[i])
    ensures SameVisibly(ss[i + 1].mem, ss[i].mem) && SameVisibly(ss[i + 1].mem, ss[i + 1].remote)
  {
    assert StepAt(ss, es, i);
    hide RemoteFollows, DumpsFollow, ApplyAll, Harmless, Look;
    RunFollows(ss, es, i);
    CalmSwapIsExact(ss[i], ss[0].remote);
    forall k | Visible(k) ensures Look(ss[i].mem, k) == Look(ApplyAll(ss[0].remote, ss[i].issued), k) {
      MirrorExactly(ss, es, i, k);
      forall j | LastSwap(es, j, i) ensures Harmless(ss[j], k) { assert StepAt(ss, es, j); }
    }
  }

  lemma Extend(ss: seq<State>, es: seq<Event>, e: Event) returns (ss': seq<State>, es': seq<Event>)
    requires Run(ss, es) && Enabled(ss[|es|], e)
    ensures es' == es + [e] && ss' == ss + [Step(ss[|es|], e)] && Run(ss', es')
  {
    es', ss' := es + [e], ss + [Step(ss[|es|], e)];
    forall i | 0 <= i < |es'| ensures StepAt(ss', es', i) {
      if i < |es| { assert StepAt(ss, es, i); }
    }
  }

  /** A harmful swap: a record put after its collection was read is gone from memory,
      though nothing failed and the store will have it. */
  lemma PutIsDropped(k: Key, r: Rec) returns (ss: seq<State>, es: seq<Event>)
    requires Visible(k)
    ensures Run(ss, es) && ss[|es|].issued == [Put(k, r)] && !ss[|es|].failed && ss[|es|].settled == 0
    ensures k !in ss[|es|].mem && k in ApplyAll(ss[|es|].remote, [Put(k, r)])
  {
    ss, es := AllDumped();
    ss, es := Extend(ss, es, Issue(Put(k, r)));
    ss, es := Extend(ss, es, Swap);
    assert [Put(k, r)][..0] == [];
  }

  /** A caller who joins may even miss his own write. */
  lemma JoinerMissesHisWrite(k: Key, rec: Rec) returns (ss: seq<State>, es: seq<Event>)
    requires Visible(k)
    ensures Run(ss, es) && |es| >= 3 && !ss[|es|].failed && es[|es| - 3] == Issue(Put(k, rec)) && k !in ss[|es|].mem
    ensures AnsweredBy(ss, es, |es| - 2, |es| - 1) && !ss[|es| - 2].phase.Idle?
  {
    ss, es := AllDumped();
    ss, es := Extend(ss, es, Issue(Put(k, rec)));
    ss, es := Extend(ss, es, Refresh);
    ss, es := Extend(ss, es, Swap);
  }

  /** A refresh of an empty mirror, up to its swap. */
  lemma AllDumped() returns (ss: seq<State>, es: seq<Event>)
    ensures Run(ss, es) && ss[|es|] == State(map[], map[], [], 0, false, Dumping(0, DumpedSoFar(|COLLECTIONS|), map[]))
  {
    var s := State(map[], map[], [], 0, false, Idle);
    assert Swapped(map[], map[]) == map[];
    ss, es := [s], [];
    ss, es := Extend(ss, es, Refresh);
    ss, es := Extend(ss, es, EndFlush);
    assert DumpedSoFar(0) == map[];
    var i := 0;
    while i < |COLLECTIONS|
      invariant 0 <= i <= |COLLECTIONS| && Run(ss, es)
      invariant ss[|es|] == State(map[], map[], [], 0, false, Dumping(0, DumpedSoFar(i), map[]))
    {
      ss, es := DumpNext(ss, es, i);
      i := i + 1;
    }
  }

  ghost function DumpedSoFar(i: nat): map<Collection, nat>
    requires i <= |COLLECTIONS|
  {
    map c | c in COLLECTIONS[..i] :: 0
  }

  lemma DumpNext(ss: seq<State>, es: seq<Event>, i: nat) returns (ss': seq<State>, es': seq<Event>)
    requires Run(ss, es) && i < |COLLECTIONS|
    requires ss[|es|] == State(map[], map[], [], 0, false, Dumping(0, DumpedSoFar(i), map[]))
    ensures Run(ss', es') && ss'[|es'|] == State(map[], map[], [], 0, false, Dumping(0, DumpedSoFar(i + 1), map[]))
  {
    var col := COLLECTIONS[i];
    assert COLLECTIONS[..i + 1] == COLLECTIONS[..i] + [col];
    assert DumpedSoFar(i + 1) == DumpedSoFar(i)[col := 0];
    Distinct(i);
    assert map[] + Rows(map[], col) == map[];
    ss', es' := Extend(ss, es, Event.Dump(col));
  }

  lemma Distinct(i: nat)
    requires i < |COLLECTIONS|
    ensures COLLECTIONS[i] !in COLLECTIONS[..i]
  {
  }
}
