/** The execution reservation of src/store/postgres.js: first the call on its own, then any
    number of calls interleaved statement by statement under PostgreSQL's locks. */
module Reservation {
  import opened Prelude
  import opened Doubles

  type Id = string

  // ----- One call -----

  datatype Call = Call(org: Id, nonce: string, jti: Id, token: Option<Id>, amount: int, limit: int)

  datatype Reply =
    | Success(current: nat)
    | NonceReplay
    | JtiReplay
    | OverBudget(spent: nat)
    | Invalid
    | Failed

  /** The committed tables. */
  datatype Db = Db(nonces: set<(Id, string)>, jtis: set<Id>, spends: map<Id, nat>)

  predicate ValidCall(c: Call) {
    0 <= c.amount <= MAX_SAFE && 0 <= c.limit <= MAX_SAFE
  }

  function NonceOf(c: Call): (Id, string) { (c.org, c.nonce) }

  function Spent(db: Db, token: Id): nat {
    if token in db.spends then db.spends[token] else 0
  }

  /** The test of the source, in Number arithmetic. */
  predicate OverLimit(current: nat, c: Call)
    requires ValidCall(c)
  {
    current > MAX_SAFE || Round(current + c.amount) > c.limit
  }

  function Charge(db: Db, c: Call): Db
    requires ValidCall(c)
  {
    Db(db.nonces + {NonceOf(c)}, db.jtis + {c.jti},
       if c.token.Some? then db.spends[c.token.value := Spent(db, c.token.value) + c.amount] else db.spends)
  }

  /** What a call does to the tables, and what it answers, when nothing else runs. */
  function Reserve(db: Db, c: Call): (Db, Reply) {
    if !ValidCall(c) then (db, Invalid)
    else if NonceOf(c) in db.nonces then (db, NonceReplay)
    else if c.jti in db.jtis then (db, JtiReplay)
    else if c.token.Some? && OverLimit(Spent(db, c.token.value), c) then (db, OverBudget(Spent(db, c.token.value)))
    else (Charge(db, c), Success(if c.token.Some? then Spent(db, c.token.value) + c.amount else 0))
  }

  /** The method as it is written: statements on a working copy, then COMMIT or ROLLBACK. */
  class Store {
    var committed: Db
    var working: Db

    constructor ()
      ensures committed == Db({}, {}, map[])
    {
      committed := Db({}, {}, map[]);
      working := Db({}, {}, map[]);
    }

    method Begin()
      modifies this`working
      ensures working == committed
    {
      working := committed;
    }

    method Commit()
      modifies this`committed
      ensures committed == working
    {
      committed := working;
    }

    method InsertNonce(org: Id, nonce: string) returns (rows: nat)
      modifies this`working
      ensures rows == (if (org, nonce) in old(working).nonces then 0 else 1)
      ensures working == old(working).(nonces := old(working).nonces + {(org, nonce)})
    {
      rows := if (org, nonce) in working.nonces then 0 else 1;
      working := working.(nonces := working.nonces + {(org, nonce)});
    }

    method InsertJti(jti: Id) returns (rows: nat)
      modifies this`working
      ensures rows == (if jti in old(working).jtis then 0 else 1)
      ensures working == old(working).(jtis := old(working).jtis + {jti})
    {
      rows := if jti in working.jtis then 0 else 1;
      working := working.(jtis := working.jtis + {jti});
    }

    method InsertSpend(token: Id)
      modifies this`working
      ensures working == old(working).(spends := old(working).spends[token := Spent(old(working), token)])
    {
      working := working.(spends := working.spends[token := Spent(working, token)]);
    }

    method UpdateSpend(token: Id, cents: nat)
      modifies this`working
      ensures working == old(working).(spends := old(working).spends[token := cents])
    {
      working := working.(spends := working.spends[token := cents]);
    }

    method CheckAndDebitExecution(c: Call) returns (reply: Reply)
      modifies this
      ensures (committed, reply) == Reserve(old(committed), c)
    {
      if !ValidCall(c) { return Invalid; }
      Begin();
      var rows := InsertNonce(c.org, c.nonce);
      if rows != 1 { return NonceReplay; }
      rows := InsertJti(c.jti);
      if rows != 1 { return JtiReplay; }
      var current := 0;
      if c.token.Some? {
        InsertSpend(c.token.value);
        current := working.spends[c.token.value];
        if OverLimit(current, c) { return OverBudget(current); }
        UpdateSpend(c.token.value, current + c.amount);
        current := current + c.amount;
      }
      assert working.nonces == Charge(old(committed), c).nonces && working.spends == Charge(old(committed), c).spends;
      Commit();
      return Success(current);
    }
  }

  // ----- Transactions in flight -----

  /** The statement a transaction is about to send. `AtRollback` carries the answer that the
      caller gets once the rollback is done. */
  datatype Pc = AtNonce | AtJti | AtInsertSpend | AtLockSpend | AtWrite | AtCommit | AtRollback(reply: Reply) | Finished

  /** `inserted`: this transaction has an uncommitted row for its token. */
  datatype Tx = Tx(call: Call, pc: Pc, inserted: bool, current: nat)

  datatype Entry = Entry(call: Call, reply: Reply)

  /** The committed tables, the transactions by connection, and the calls in the order in
      which they ended. */
  datatype Sys = Sys(db: Db, txs: map<nat, Tx>, ended: seq<Entry>)

  /** A unique-index entry belongs to its uncommitted inserter until the transaction ends. */
  predicate HoldsNonce(t: Tx) {
    match t.pc
    case AtNonce => false
    case Finished => false
    case AtRollback(reply) => reply != NonceReplay
    case _ => true
  }

  predicate HoldsJti(t: Tx) {
    match t.pc
    case AtNonce => false
    case AtJti => false
    case Finished => false
    case AtRollback(reply) => reply != NonceReplay && reply != JtiReplay
    case _ => true
  }

  /** The spend row: inserted and not yet committed, or locked by SELECT ... FOR UPDATE. */
  predicate HoldsRow(t: Tx) {
    && t.call.token.Some? && t.pc != Finished
    && (t.inserted || t.pc == AtWrite || t.pc == AtCommit || (t.pc.AtRollback? && t.pc.reply.OverBudget?))
  }

  /** `i` has to wait for `j` before its next statement. An insert that finds the row of a
      transaction still in flight waits for it, and so does FOR UPDATE. Whether an insert also
      waits for a mere row lock is left open: see Blocked and MayWait. */
  predicate Blocked(s: Sys, i: nat, j: nat)
    requires i in s.txs && j in s.txs
  {
    var t, u := s.txs[i], s.txs[j];
    i != j &&
    match t.pc
    case AtNonce => HoldsNonce(u) && NonceOf(t.call) == NonceOf(u.call)
    case AtJti => HoldsJti(u) && t.call.jti == u.call.jti
    case AtInsertSpend => u.pc != Finished && u.inserted && t.call.token == u.call.token
    case AtLockSpend => HoldsRow(u) && t.call.token == u.call.token
    case _ => false
  }

  /** The same with every wait the database could impose. */
  predicate MayWait(s: Sys, i: nat, j: nat)
    requires i in s.txs && j in s.txs
  {
    || Blocked(s, i, j)
    || (i != j && s.txs[i].pc == AtInsertSpend && HoldsRow(s.txs[j]) && s.txs[i].call.token == s.txs[j].call.token)
  }

  predicate Free(s: Sys, i: nat)
    requires i in s.txs
  {
    forall j :: j in s.txs ==> !Blocked(s, i, j)
  }

  datatype Move = Arrive(i: nat, call: Call) | Send(i: nat) | Break(i: nat)

  predicate Allowed(s: Sys, m: Move) {
    match m
    case Arrive(i, _) => i !in s.txs
    case Send(i) => i in s.txs && s.txs[i].pc != Finished && Free(s, i)
    case Break(i) => i in s.txs && s.txs[i].pc != Finished
  }

  function End(s: Sys, i: nat, reply: Reply): Sys
    requires i in s.txs
  {
    s.(txs := s.txs[i := s.txs[i].(pc := Finished)], ended := s.ended + [Entry(s.txs[i].call, reply)])
  }

  function Goto(s: Sys, i: nat, t: Tx): Sys {
    s.(txs := s.txs[i := t])
  }

  /** One statement reaches the database, or the connection breaks. A statement reads the
      tables as committed at that moment, together with the transaction's own writes. */
  function Next(s: Sys, m: Move): Sys
    requires Allowed(s, m)
  {
    match m
    case Arrive(i, c) =>
      if ValidCall(c) then s.(txs := s.txs[i := Tx(c, AtNonce, false, 0)])
      else s.(ended := s.ended + [Entry(c, Invalid)])
    case Break(i) => End(s, i, Failed)
    case Send(i) =>
      var t := s.txs[i];
      var c := t.call;
      match t.pc
      case AtNonce =>
        Goto(s, i, t.(pc := if NonceOf(c) in s.db.nonces then AtRollback(NonceReplay) else AtJti))
      case AtJti =>
        Goto(s, i, t.(pc := if c.jti in s.db.jtis then AtRollback(JtiReplay)
                            else if c.token.Some? then AtInsertSpend else AtCommit))
      case AtInsertSpend =>
        Goto(s, i, t.(inserted := c.token.Some? && c.token.value !in s.db.spends, pc := AtLockSpend))
      case AtLockSpend =>
        var current := if t.inserted || c.token.None? then 0 else Spent(s.db, c.token.value);
        Goto(s, i, t.(current := current,
                      pc := if ValidCall(c) && OverLimit(current, c) then AtRollback(OverBudget(current)) else AtWrite))
      case AtWrite => Goto(s, i, t.(pc := AtCommit))
      case AtCommit =>
        var total := if c.token.Some? && c.amount >= 0 then t.current + c.amount else 0;
        End(s.(db := Db(s.db.nonces + {NonceOf(c)}, s.db.jtis + {c.jti},
                        if c.token.Some? then s.db.spends[c.token.value := total] else s.db.spends)), i, Success(total))
      case AtRollback(reply) => End(s, i, reply)
      case Finished => s
  }

  // ----- What the locks guarantee -----

  /** A transaction against the committed tables. */
  ghost predicate TxOk(db: Db, t: Tx) {
    var c := t.call;
    && ValidCall(c)
    && (HoldsNonce(t) ==> NonceOf(c) !in db.nonces)
    && (HoldsJti(t) ==> c.jti !in db.jtis)
    && (t.inserted ==> t.pc != AtNonce && t.pc != AtJti && t.pc != AtInsertSpend)
    && (t.inserted && t.pc != Finished ==> c.token.Some? && c.token.value !in db.spends)
    && (t.pc == AtInsertSpend ==> c.token.Some?)
    && (t.pc == AtLockSpend ==> c.token.Some? && (t.inserted || c.token.value in db.spends))
    && (t.pc == AtWrite ==> c.token.Some?)
    && (HoldsRow(t) && !t.inserted ==> c.token.value in db.spends)
    && (t.pc == AtWrite || t.pc == AtCommit ==>
          c.token.Some? ==> t.current == Spent(db, c.token.value) && !OverLimit(t.current, c))
    && (t.pc.AtRollback? ==> Reserve(db, c) == (db, t.pc.reply))
  }

  /** No two transactions own the same nonce, credential or row. */
  ghost predicate Exclusive(txs: map<nat, Tx>) {
    forall i, j :: i in txs && j in txs && i != j ==>
      && !(HoldsNonce(txs[i]) && HoldsNonce(txs[j]) && NonceOf(txs[i].call) == NonceOf(txs[j].call))
      && !(HoldsJti(txs[i]) && HoldsJti(txs[j]) && txs[i].call.jti == txs[j].call.jti)
      && !(HoldsRow(txs[i]) && HoldsRow(txs[j]) && txs[i].call.token == txs[j].call.token)
  }

  ghost predicate SysOk(s: Sys) {
    && (forall i :: i in s.txs ==> TxOk(s.db, s.txs[i]))
    && Exclusive(s.txs)
  }

  /** A step that ends no call leaves the committed tables alone. A step that ends one does to
      them, and answers, exactly what the call on its own would at that moment; a broken
      connection does nothing. */
  lemma StepIsAtomic(s: Sys, m: Move)
    requires SysOk(s) && Allowed(s, m)
    ensures var s' := Next(s, m);
            || (s'.db == s.db && s'.ended == s.ended)
            || (exists c, reply :: s'.ended == s.ended + [Entry(c, reply)]
                  && (s'.db, reply) == if m.Break? then (s.db, Failed) else Reserve(s.db, c))
  {
    if m.Send? {
      var t := s.txs[m.i];
      OneIsOk(s, m.i);
      if t.pc == AtCommit { CommitIsReserve(s.db, t); }
      hide TxOk, Reserve, OverLimit;
    }
    hide SysOk, Free;
  }

  lemma CommitIsReserve(db: Db, t: Tx)
    requires TxOk(db, t) && t.pc == AtCommit
    ensures var c := t.call;
            var total := if c.token.Some? && c.amount >= 0 then t.current + c.amount else 0;
            Reserve(db, c) == (Db(db.nonces + {NonceOf(c)}, db.jtis + {c.jti},
                                  if c.token.Some? then db.spends[c.token.value := total] else db.spends),
                               Success(total))
  {
    hide OverLimit;
  }

  /** A step changes one transaction, and the tables only when that one commits. */
  lemma StepKeepsTx(s: Sys, m: Move)
    requires SysOk(s) && Allowed(s, m) && m.i in Next(s, m).txs
    ensures TxOk(Next(s, m).db, Next(s, m).txs[m.i])
  {
    hide SysOk, TxOk;
    if m.Send? {
      OneIsOk(s, m.i);
      SendKeepsTx(s, m.i);
    } else {
      if m.Break? { OneIsOk(s, m.i); }
      StartOrBreakKeepsTx(s, m);
    }
  }

  lemma StartOrBreakKeepsTx(s: Sys, m: Move)
    requires Allowed(s, m) && !m.Send? && m.i in Next(s, m).txs && (m.Break? ==> TxOk(s.db, s.txs[m.i]))
    ensures TxOk(Next(s, m).db, Next(s, m).txs[m.i])
  {
    hide Reserve, OverLimit;
  }

  lemma SendKeepsTx(s: Sys, i: nat)
    requires Allowed(s, Send(i)) && TxOk(s.db, s.txs[i])
    ensures TxOk(Next(s, Send(i)).db, Next(s, Send(i)).txs[i])
  {
    hide TxOk, Free;
    match s.txs[i].pc
    case AtNonce => InsertKeepsTx(s, i);
    case AtJti => InsertKeepsTx(s, i);
    case AtInsertSpend => SpendKeepsTx(s, i);
    case AtLockSpend => SpendKeepsTx(s, i);
    case _ => LastKeepsTx(s, i);
  }

  lemma InsertKeepsTx(s: Sys, i: nat)
    requires Allowed(s, Send(i)) && TxOk(s.db, s.txs[i]) && (s.txs[i].pc == AtNonce || s.txs[i].pc == AtJti)
    ensures TxOk(Next(s, Send(i)).db, Next(s, Send(i)).txs[i])
  {
    hide Free, OverLimit;
  }

  lemma SpendKeepsTx(s: Sys, i: nat)
    requires Allowed(s, Send(i)) && TxOk(s.db, s.txs[i]) && (s.txs[i].pc == AtInsertSpend || s.txs[i].pc == AtLockSpend)
    ensures TxOk(Next(s, Send(i)).db, Next(s, Send(i)).txs[i])
  {
    hide Free, OverLimit;
  }

  lemma LastKeepsTx(s: Sys, i: nat)
    requires Allowed(s, Send(i)) && TxOk(s.db, s.txs[i])
    requires s.txs[i].pc == AtWrite || s.txs[i].pc == AtCommit || s.txs[i].pc.AtRollback?
    ensures TxOk(Next(s, Send(i)).db, Next(s, Send(i)).txs[i])
  {
    hide Free, OverLimit, Reserve;
  }

  lemma OneIsOk(s: Sys, i: nat)
    requires SysOk(s) && i in s.txs
    ensures TxOk(s.db, s.txs[i])
  {
    hide TxOk, Exclusive;
  }

  lemma StepKeepsOthers(s: Sys, m: Move, j: nat)
    requires SysOk(s) && Allowed(s, m) && j in s.txs && j != m.i
    ensures j in Next(s, m).txs && Next(s, m).txs[j] == s.txs[j]
    ensures TxOk(Next(s, m).db, s.txs[j])
  {
    assert TxOk(s.db, s.txs[j]);
    if m.Send? {
      assert TxOk(s.db, s.txs[m.i]);
      if s.txs[m.i].pc == AtCommit { CommitKeepsOther(s, m.i, j); }
    }
  }

  lemma CommitKeepsOther(s: Sys, i: nat, j: nat)
    requires SysOk(s) && i in s.txs && j in s.txs && i != j && s.txs[i].pc == AtCommit && Allowed(s, Send(i))
    ensures TxOk(Next(s, Send(i)).db, s.txs[j])
  {
  }

  /** The locks a statement takes were free when it was sent. */
  lemma StepKeepsExclusive(s: Sys, m: Move, j: nat)
    requires SysOk(s) && Allowed(s, m) && m.i in Next(s, m).txs && j in s.txs && j != m.i
    ensures var t, u := Next(s, m).txs[m.i], s.txs[j];
            && !(HoldsNonce(t) && HoldsNonce(u) && NonceOf(t.call) == NonceOf(u.call))
            && !(HoldsJti(t) && HoldsJti(u) && t.call.jti == u.call.jti)
            && !(HoldsRow(t) && HoldsRow(u) && t.call.token == u.call.token)
  {
    if m.Send? {
      NotInTheWay(s, m.i, j);
      SendKeepsNonce(s, m.i, j);
      SendKeepsJti(s, m.i, j);
      SendKeepsRow(s, m.i, j);
    }
    hide SysOk;
  }

  /** What the invariant says of two transactions, the first about to send. */
  lemma NotInTheWay(s: Sys, i: nat, j: nat)
    requires SysOk(s) && Allowed(s, Send(i)) && j in s.txs && j != i
    ensures !Blocked(s, i, j) && TxOk(s.db, s.txs[i]) && TxOk(s.db, s.txs[j]) && Apart(s.txs[i], s.txs[j])
  {
    hide TxOk, Blocked;
  }

  /** They own no nonce, credential or row in common. */
  ghost predicate Apart(t: Tx, u: Tx) {
    && !(HoldsNonce(t) && HoldsNonce(u) && NonceOf(t.call) == NonceOf(u.call))
    && !(HoldsJti(t) && HoldsJti(u) && t.call.jti == u.call.jti)
    && !(HoldsRow(t) && HoldsRow(u) && t.call.token == u.call.token)
  }

  lemma SendKeepsNonce(s: Sys, i: nat, j: nat)
    requires Allowed(s, Send(i)) && j in s.txs && j != i && !Blocked(s, i, j) && Apart(s.txs[i], s.txs[j])
    ensures var t, u := Next(s, Send(i)).txs[i], s.txs[j];
            !(HoldsNonce(t) && HoldsNonce(u) && NonceOf(t.call) == NonceOf(u.call))
  {
    hide HoldsJti, HoldsRow, OverLimit, Free;
  }

  lemma SendKeepsJti(s: Sys, i: nat, j: nat)
    requires Allowed(s, Send(i)) && j in s.txs && j != i && !Blocked(s, i, j) && Apart(s.txs[i], s.txs[j])
    ensures var t, u := Next(s, Send(i)).txs[i], s.txs[j];
            !(HoldsJti(t) && HoldsJti(u) && t.call.jti == u.call.jti)
  {
    hide HoldsNonce, HoldsRow, OverLimit, Free, NonceOf;
  }

  lemma SendKeepsRow(s: Sys, i: nat, j: nat)
    requires Allowed(s, Send(i)) && j in s.txs && j != i && !Blocked(s, i, j) && Apart(s.txs[i], s.txs[j])
    requires TxOk(s.db, s.txs[i]) && TxOk(s.db, s.txs[j])
    ensures var t, u := Next(s, Send(i)).txs[i], s.txs[j];
            !(HoldsRow(t) && HoldsRow(u) && t.call.token == u.call.token)
  {
    hide HoldsNonce, HoldsJti, OverLimit, Free, NonceOf, Reserve;
    if s.txs[i].pc == AtInsertSpend && HoldsRow(s.txs[j]) && s.txs[i].call.token == s.txs[j].call.token {
      InsertedRowIsNew(s, i, j);
    }
  }

  /** Only an uncommitted insert can stand in the way of an insert: a row that is merely
      locked is committed, and then nothing is inserted. */
  lemma InsertedRowIsNew(s: Sys, i: nat, j: nat)
    requires i in s.txs && j in s.txs && s.txs[i].pc == AtInsertSpend && !Blocked(s, i, j) && i != j
    requires TxOk(s.db, s.txs[j])
    requires HoldsRow(s.txs[j]) && s.txs[i].call.token == s.txs[j].call.token
    ensures s.txs[i].call.token.Some? && s.txs[i].call.token.value in s.db.spends
  {
    hide Reserve, OverLimit;
  }

  lemma StepKeepsSys(s: Sys, m: Move)
    requires SysOk(s) && Allowed(s, m)
    ensures SysOk(Next(s, m))
  {
    var s' := Next(s, m);
    hide TxOk, Next, HoldsNonce, HoldsJti, HoldsRow, Blocked;
    forall j | j in s'.txs ensures TxOk(s'.db, s'.txs[j]) {
      OneChanges(s, m, j);
      if j == m.i { StepKeepsTx(s, m); } else { StepKeepsOthers(s, m, j); }
    }
    forall i, j | i in s'.txs && j in s'.txs && i != j
      ensures !(HoldsNonce(s'.txs[i]) && HoldsNonce(s'.txs[j]) && NonceOf(s'.txs[i].call) == NonceOf(s'.txs[j].call))
      ensures !(HoldsJti(s'.txs[i]) && HoldsJti(s'.txs[j]) && s'.txs[i].call.jti == s'.txs[j].call.jti)
      ensures !(HoldsRow(s'.txs[i]) && HoldsRow(s'.txs[j]) && s'.txs[i].call.token == s'.txs[j].call.token)
    {
      OneChanges(s, m, i);
      OneChanges(s, m, j);
      if i == m.i { StepKeepsExclusive(s, m, j); }
      else if j == m.i { StepKeepsExclusive(s, m, i); }
    }
  }

  lemma OneChanges(s: Sys, m: Move, j: nat)
    requires Allowed(s, m) && j in Next(s, m).txs
    ensures j != m.i ==> j in s.txs && Next(s, m).txs[j] == s.txs[j]
  {
  }

  // ----- Whole executions -----

  ghost predicate MoveAt(states: seq<Sys>, moves: seq<Move>, k: nat)
    requires k < |moves| && |states| == |moves| + 1
  {
    Allowed(states[k], moves[k]) && states[k + 1] == Next(states[k], moves[k])
  }

  /** Any interleaving, from tables in any state with no transaction open. */
  ghost predicate Execution(db: Db, states: seq<Sys>, moves: seq<Move>) {
    && |states| == |moves| + 1 && states[0] == Sys(db, map[], [])
    && forall k :: 0 <= k < |moves| ==> MoveAt(states, moves, k)
  }

  /** The calls that ended, one after another on their own: the tables they lead to, provided
      each got the answer it would have got there. */
  ghost predicate Serial(db: Db, ended: seq<Entry>, result: Db)
    decreases |ended|
  {
    if ended == [] then result == db
    else
      var n := |ended| - 1;
      exists before :: Serial(db, ended[..n], before)
        && (result, ended[n].reply) == if ended[n].reply == Failed then (before, Failed)
              else Reserve(before, ended[n].call)
  }

  lemma {:induction false} ExecutionOk(db: Db, states: seq<Sys>, moves: seq<Move>, k: nat)
    requires Execution(db, states, moves) && k < |states|
    ensures SysOk(states[k])
  {
    if k > 0 {
      ExecutionOk(db, states, moves, k - 1);
      assert MoveAt(states, moves, k - 1);
      StepKeepsSys(states[k - 1], moves[k - 1]);
    }
  }

  lemma SerialExtends(db: Db, ended: seq<Entry>, before: Db, e: Entry, after: Db)
    requires Serial(db, ended, before)
    requires (after, e.reply) == if e.reply == Failed then (before, Failed) else Reserve(before, e.call)
    ensures Serial(db, ended + [e], after)
  {
    assert (ended + [e])[..|ended|] == ended;
  }

  /** Serialisability: under every interleaving, at every moment, the committed tables are what
      the ended calls lead to one after another, in the order in which they ended, and every
      one of them got the answer it would have got there. */
  lemma {:induction false} Serialisable(db: Db, states: seq<Sys>, moves: seq<Move>, k: nat)
    requires Execution(db, states, moves) && k < |states|
    ensures Serial(db, states[k].ended, states[k].db)
  {
    if k > 0 {
      Serialisable(db, states, moves, k - 1);
      ExecutionOk(db, states, moves, k - 1);
      assert MoveAt(states, moves, k - 1);
      var s, s' := states[k - 1], states[k];
      StepIsAtomic(s, moves[k - 1]);
      if !(s'.db == s.db && s'.ended == s.ended) {
        var c, reply :| s'.ended == s.ended + [Entry(c, reply)]
          && (s'.db, reply) == if moves[k - 1].Break? then (s.db, Failed) else Reserve(s.db, c);
        ReserveNeverFails(s.db, c);
        SerialExtends(db, s.ended, s.db, Entry(c, reply), s'.db);
      }
    }
  }

  lemma ReserveNeverFails(db: Db, c: Call)
    ensures Reserve(db, c).1 != Failed
  {
  }

  // ----- What serial order buys -----

  predicate Committed(e: Entry) { e.reply.Success? }

  /** What the committed calls charged to a token. */
  function Charged(ended: seq<Entry>, token: Id): nat {
    if ended == [] then 0
    else
      var e := ended[|ended| - 1];
      Charged(ended[..|ended| - 1], token)
      + (if Committed(e) && e.call.token == Some(token) && e.call.amount >= 0 then e.call.amount else 0)
  }

  /** Every call for a token brings the same limit: the cap of an immutable token record. */
  ghost predicate FixedLimit(ended: seq<Entry>, token: Id, limit: nat) {
    forall n :: 0 <= n < |ended| && ended[n].call.token == Some(token) ==> ended[n].call.limit == limit
  }

  /** One call: refusals change nothing; a success was free to take and takes it. */
  lemma ReserveEffect(db: Db, c: Call, token: Id)
    ensures var (db', reply) := Reserve(db, c);
            && (!reply.Success? ==> db' == db)
            && (reply.Success? ==>
                  && NonceOf(c) !in db.nonces && c.jti !in db.jtis
                  && db'.nonces == db.nonces + {NonceOf(c)} && db'.jtis == db.jtis + {c.jti}
                  && c.amount >= 0
                  && Spent(db', token) == Spent(db, token) + (if c.token == Some(token) then c.amount else 0)
                  && (c.token == Some(token) ==> Spent(db', token) <= c.limit))
  {
    if Reserve(db, c).1.Success? && c.token.Some? {
      SumComparisonIsExact(Spent(db, c.token.value), c.amount, c.limit);
    }
  }

  function NoncesOf(ended: seq<Entry>): set<(Id, string)> {
    if ended == [] then {}
    else
      var e := ended[|ended| - 1];
      NoncesOf(ended[..|ended| - 1]) + if Committed(e) then {NonceOf(e.call)} else {}
  }

  function JtisOf(ended: seq<Entry>): set<Id> {
    if ended == [] then {}
    else
      var e := ended[|ended| - 1];
      JtisOf(ended[..|ended| - 1]) + if Committed(e) then {e.call.jti} else {}
  }

  /** The tables hold what they held at first and what the successful calls put there, no more:
      a call that did not succeed changed nothing. */
  ghost predicate Accounts(db: Db, ended: seq<Entry>, result: Db) {
    && result.nonces == db.nonces + NoncesOf(ended)
    && result.jtis == db.jtis + JtisOf(ended)
    && forall token :: Spent(result, token) == Spent(db, token) + Charged(ended, token)
  }

  /** The answer that the history calls for, in exact integers: a call is refused as a replay
      exactly if its nonce, or else its credential, was stored at first or by an earlier success,
      and refused for its budget exactly if it would exceed its limit. */
  function AnswerOf(db: Db, ended: seq<Entry>, c: Call): Reply {
    if !ValidCall(c) then Invalid
    else if NonceOf(c) in db.nonces + NoncesOf(ended) then NonceReplay
    else if c.jti in db.jtis + JtisOf(ended) then JtiReplay
    else
      match c.token
      case None => Success(0)
      case Some(token) =>
        var spent := Spent(db, token) + Charged(ended, token);
        if spent + c.amount > c.limit then OverBudget(spent) else Success(spent + c.amount)
  }

  lemma OneMoreEntry(db: Db, ended: seq<Entry>, e: Entry, before: Db, after: Db)
    requires Accounts(db, ended, before)
    requires (after, e.reply) == if e.reply == Failed then (before, Failed) else Reserve(before, e.call)
    ensures Accounts(db, ended + [e], after)
    ensures e.reply == Failed || e.reply == AnswerOf(db, ended, e.call)
  {
    var more := ended + [e];
    assert more[..|ended|] == ended;
    assert NoncesOf(more) == NoncesOf(ended) + if Committed(e) then {NonceOf(e.call)} else {};
    assert JtisOf(more) == JtisOf(ended) + if Committed(e) then {e.call.jti} else {};
    hide Accounts, NoncesOf, JtisOf;
    forall token ensures Spent(after, token) == Spent(before, token)
                           + (if Committed(e) && e.call.token == Some(token) && e.call.amount >= 0 then e.call.amount
                             else 0)
    {
      ReserveEffect(before, e.call, token);
    }
    ReserveEffect(before, e.call, "");
    AccountsExtend(db, ended, e, before, after);
    LimitIsExact(db, ended, e.call, before);
  }

  lemma AccountsExtend(db: Db, ended: seq<Entry>, e: Entry, before: Db, after: Db)
    requires Accounts(db, ended, before)
    requires after.nonces == before.nonces + (if Committed(e) then {NonceOf(e.call)} else {})
    requires after.jtis == before.jtis + (if Committed(e) then {e.call.jti} else {})
    requires forall token :: Spent(after, token) == Spent(before, token)
               + (if Committed(e) && e.call.token == Some(token) && e.call.amount >= 0 then e.call.amount else 0)
    requires NoncesOf(ended + [e]) == NoncesOf(ended) + if Committed(e) then {NonceOf(e.call)} else {}
    requires JtisOf(ended + [e]) == JtisOf(ended) + if Committed(e) then {e.call.jti} else {}
    ensures Accounts(db, ended + [e], after)
  {
    assert (ended + [e])[..|ended|] == ended;
    hide NoncesOf, JtisOf;
  }

  lemma LimitIsExact(db: Db, ended: seq<Entry>, c: Call, before: Db)
    requires Accounts(db, ended, before)
    ensures Reserve(before, c).1 == AnswerOf(db, ended, c)
  {
    hide NoncesOf, JtisOf;
    if ValidCall(c) && c.token.Some? { SumComparisonIsExact(Spent(before, c.token.value), c.amount, c.limit); }
  }

  /** Every ended call was answered as the calls that ended before it require, unless its
      connection broke. */
  ghost predicate Answered(db: Db, ended: seq<Entry>) {
    forall n :: 0 <= n < |ended| ==>
      ended[n].reply == Failed || ended[n].reply == AnswerOf(db, ended[..n], ended[n].call)
  }

  lemma {:induction false} SerialAccounts(db: Db, ended: seq<Entry>, result: Db)
    requires Serial(db, ended, result)
    ensures Accounts(db, ended, result) && Answered(db, ended)
    decreases |ended|
  {
    if ended == [] {
      assert NoncesOf([]) == {} && JtisOf([]) == {};
    } else {
      var n := |ended| - 1;
      var front := ended[..n];
      var before :| Serial(db, front, before)
        && (result, ended[n].reply) == if ended[n].reply == Failed then (before, Failed)
              else Reserve(before, ended[n].call);
      SerialAccounts(db, front, before);
      OneMoreEntry(db, front, ended[n], before, result);
      assert ended == front + [ended[n]];
      OneMoreAnswer(db, ended);
    }
  }

  lemma OneMoreAnswer(db: Db, ended: seq<Entry>)
    requires ended != [] && Answered(db, ended[..|ended| - 1])
    requires var e := ended[|ended| - 1]; e.reply == Failed || e.reply == AnswerOf(db, ended[..|ended| - 1], e.call)
    ensures Answered(db, ended)
  {
    hide AnswerOf;
    var front := ended[..|ended| - 1];
    forall m | 0 <= m < |front|
      ensures ended[m].reply == Failed || ended[m].reply == AnswerOf(db, ended[..m], ended[m].call)
    {
      assert front[m] == ended[m] && front[..m] == ended[..m];
    }
  }

  /** At every moment of every interleaving the tables account for exactly the successful calls,
      and every call was answered accordingly. */
  lemma AnswersExactly(db: Db, states: seq<Sys>, moves: seq<Move>, k: nat)
    requires Execution(db, states, moves) && k < |states|
    ensures Accounts(db, states[k].ended, states[k].db) && Answered(db, states[k].ended)
  {
    Serialisable(db, states, moves, k);
    SerialAccounts(db, states[k].ended, states[k].db);
  }

  lemma {:induction false} CommittedIsListed(ended: seq<Entry>, m: nat)
    requires m < |ended| && Committed(ended[m])
    ensures NonceOf(ended[m].call) in NoncesOf(ended) && ended[m].call.jti in JtisOf(ended)
  {
    if m < |ended| - 1 {
      assert ended[..|ended| - 1][m] == ended[m];
      CommittedIsListed(ended[..|ended| - 1], m);
    }
  }

  /** What commits is new, to the initial tables and to the calls before. */
  lemma CommittedIsNew(db: Db, ended: seq<Entry>, n: nat)
    requires Answered(db, ended) && n < |ended| && Committed(ended[n])
    ensures NonceOf(ended[n].call) !in db.nonces + NoncesOf(ended[..n]) &&
            ended[n].call.jti !in db.jtis + JtisOf(ended[..n])
  {
    hide NoncesOf, JtisOf, Charged;
  }

  lemma CommittedOnce(db: Db, ended: seq<Entry>, m: nat, n: nat)
    requires Answered(db, ended) && m < n < |ended| && Committed(ended[m]) && Committed(ended[n])
    ensures NonceOf(ended[m].call) != NonceOf(ended[n].call) && ended[m].call.jti != ended[n].call.jti
  {
    hide Answered;
    CommittedIsNew(db, ended, n);
    assert ended[..n][m] == ended[m];
    CommittedIsListed(ended[..n], m);
  }

  lemma {:induction false} WithinLimit(db: Db, ended: seq<Entry>, token: Id, limit: nat)
    requires Answered(db, ended) && FixedLimit(ended, token, limit) && Spent(db, token) <= limit
    ensures Spent(db, token) + Charged(ended, token) <= limit
    decreases |ended|
  {
    if ended != [] {
      var front, e := ended[..|ended| - 1], ended[|ended| - 1];
      FrontIsAnswered(db, ended, token, limit);
      hide Answered, NoncesOf, JtisOf, FixedLimit, Spent;
      WithinLimit(db, front, token, limit);
    }
  }

  lemma FrontIsAnswered(db: Db, ended: seq<Entry>, token: Id, limit: nat)
    requires ended != [] && Answered(db, ended) && FixedLimit(ended, token, limit)
    ensures Answered(db, ended[..|ended| - 1]) && FixedLimit(ended[..|ended| - 1], token, limit)
    ensures var e := ended[|ended| - 1];
      && (e.reply == Failed || e.reply == AnswerOf(db, ended[..|ended| - 1], e.call))
      && (e.call.token == Some(token) ==> e.call.limit == limit)
  {
    hide AnswerOf;
    var front := ended[..|ended| - 1];
    forall m | 0 <= m < |front| ensures front[m] == ended[m] && front[..m] == ended[..m] {}
  }

  /** Hence: nonces and credentials commit at most once, and never if they were stored at first;
      spend is the sum of the committed amounts and stays within a fixed limit; and the tables
      hold nothing that no call committed. */
  lemma ConcurrentSafety(db: Db, states: seq<Sys>, moves: seq<Move>, k: nat, token: Id, limit: nat)
    requires Execution(db, states, moves) && k < |states|
    ensures var ended := states[k].ended;
            forall m, n :: 0 <= m < n < |ended| && Committed(ended[m]) && Committed(ended[n]) ==>
              NonceOf(ended[m].call) != NonceOf(ended[n].call) && ended[m].call.jti != ended[n].call.jti
    ensures var ended := states[k].ended;
            forall n :: 0 <= n < |ended| && Committed(ended[n]) ==>
              NonceOf(ended[n].call) !in db.nonces && ended[n].call.jti !in db.jtis
    ensures states[k].db.nonces == db.nonces + NoncesOf(states[k].ended) &&
            states[k].db.jtis == db.jtis + JtisOf(states[k].ended)
    ensures Spent(states[k].db, token) == Spent(db, token) + Charged(states[k].ended, token)
    ensures FixedLimit(states[k].ended, token, limit) && Spent(db, token) <= limit ==>
            Spent(states[k].db, token) <= limit
  {
    AnswersExactly(db, states, moves, k);
    hide Execution, NoncesOf, JtisOf, Answered, FixedLimit, Spent, Charged;
    var ended := states[k].ended;
    forall m, n | 0 <= m < n < |ended| && Committed(ended[m]) && Committed(ended[n])
      ensures NonceOf(ended[m].call) != NonceOf(ended[n].call) && ended[m].call.jti != ended[n].call.jti
    {
      CommittedOnce(db, ended, m, n);
    }
    forall n | 0 <= n < |ended| && Committed(ended[n])
      ensures NonceOf(ended[n].call) !in db.nonces && ended[n].call.jti !in db.jtis
    {
      CommittedIsNew(db, ended, n);
    }
    if FixedLimit(ended, token, limit) && Spent(db, token) <= limit { WithinLimit(db, ended, token, limit); }
  }

  // ----- No deadlock -----

  /** Locks are taken in this order: nonce, credential, spend row. */
  function Rank(t: Tx): nat {
    match t.pc
    case AtNonce => 0
    case AtJti => 1
    case AtInsertSpend => 2
    case AtLockSpend => 3
    case _ => 4
  }

  lemma WaitsClimb(s: Sys, i: nat, j: nat)
    requires SysOk(s) && i in s.txs && j in s.txs && MayWait(s, i, j)
    ensures Rank(s.txs[i]) < Rank(s.txs[j]) && s.txs[j].pc != Finished
  {
    assert TxOk(s.db, s.txs[i]) && TxOk(s.db, s.txs[j]);
  }

  /** A chain of transactions each waiting for the next. */
  ghost predicate WaitPath(s: Sys, path: seq<nat>) {
    && (forall n :: 0 <= n < |path| ==> path[n] in s.txs)
    && forall n :: 0 <= n < |path| - 1 ==> MayWait(s, path[n], path[n + 1])
  }

  lemma {:induction false} WaitPathClimbs(s: Sys, path: seq<nat>)
    requires SysOk(s) && WaitPath(s, path) && |path| >= 2
    ensures Rank(s.txs[path[0]]) < Rank(s.txs[path[|path| - 1]])
  {
    WaitsClimb(s, path[0], path[1]);
    if |path| > 2 {
      assert WaitPath(s, path[1..]);
      WaitPathClimbs(s, path[1..]);
    }
  }

  /** No cycle of waits is possible, counting every wait the database could impose. */
  lemma NoDeadlock(db: Db, states: seq<Sys>, moves: seq<Move>, k: nat, path: seq<nat>)
    requires Execution(db, states, moves) && k < |states|
    requires WaitPath(states[k], path) && |path| >= 2
    ensures path[0] != path[|path| - 1]
  {
    ExecutionOk(db, states, moves, k);
    WaitPathClimbs(states[k], path);
  }

  /** Hence while a transaction is open, some open transaction waits for nobody. */
  lemma SomeoneCanMove(db: Db, states: seq<Sys>, moves: seq<Move>, k: nat)
    requires Execution(db, states, moves) && k < |states|
    requires exists i :: i in states[k].txs && states[k].txs[i].pc != Finished
    ensures exists i :: i in states[k].txs && states[k].txs[i].pc != Finished
                        && (forall j :: j in states[k].txs ==> !MayWait(states[k], i, j))
  {
    var s := states[k];
    ExecutionOk(db, states, moves, k);
    var i :| i in s.txs && s.txs[i].pc != Finished;
    ClimbToFree(s, i);
  }

  lemma {:induction false} ClimbToFree(s: Sys, i: nat)
    requires SysOk(s) && i in s.txs && s.txs[i].pc != Finished
    ensures exists j :: j in s.txs && s.txs[j].pc != Finished && (forall x :: x in s.txs ==> !MayWait(s, j, x))
    decreases 4 - Rank(s.txs[i])
  {
    if j :| j in s.txs && MayWait(s, i, j) {
      WaitsClimb(s, i, j);
      ClimbToFree(s, j);
    }
  }
}
