/** What the actor's answers mean, over any sequence of commands. */
module Answers {
  import opened Wrappers
  import opened Odbc
  import opened Transactions
  import opened StatementCache
  import opened Actor
  import Execution
  import Handle
  import Migrations
  import ResultSets
  import Tracking

  // ------------------------------------------------------------ one answer

  /** A begin is answered Ok exactly if the depth rose; it never moves data. */
  predicate BeginAnswered(t: Tx, t': Tx, r: Response) {
    && r == Answer(t'.depth == t.depth + 1)
    && (!r.ok ==> t' == t)
    && t'.session.data == t.session.data && t'.session.durable == t.session.durable
    && (r.ok ==> !t'.session.autocommit || t.depth > 0)
  }

  /** A commit is answered Ok exactly if the depth fell or was 0; at the outermost level the data is durable then. */
  predicate CommitAnswered(t: Tx, t': Tx, r: Response) {
    && r == Answer(t.depth == 0 || t'.depth == t.depth - 1)
    && (!r.ok ==> t'.depth == t.depth)
    && t'.session.data == t.session.data
    && (r.ok && t.depth == 1 ==> t'.session.autocommit && t'.session.durable == t.session.data)
    && (t.depth != 1 ==> t'.session == t.session)
  }

  /** A rollback likewise; at the outermost level the session is back at what is durable. */
  predicate RollbackAnswered(t: Tx, t': Tx, r: Response) {
    && r == Answer(t.depth == 0 || t'.depth == t.depth - 1)
    && (!r.ok ==> t'.depth == t.depth)
    && t'.session.durable == t.session.durable
    && (r.ok && t.depth == 1 ==> t'.session.autocommit && t'.session.data == t.session.durable)
    && (t.depth == 0 ==> t' == t)
  }

  /** A migration is answered Ok exactly if its mark was made and, in transactional mode, autocommit came back. */
  predicate MigrationAnswered(t: Tx, t': Tx, b: Migrations.Batch, mark: Event, noTx: bool, r: Response) {
    && r == Answer(
         && t'.session.data == t.session.data + Migrations.Completed(b.version, b.statements) + [mark]
         && (noTx || t'.session.autocommit))
    && t'.depth == t.depth
    && (r.ok && !noTx ==> t'.session.durable == t'.session.data)
  }

  /** The consumer gets as much as it takes of what its own text returns with its own arguments, or of one error. */
  predicate ExecuteAnswered(
    d: Execution.Driver, f: ResultSets.Fetch, st: Execution.ActorState, st': Execution.ActorState, q: Execution.Request, r: Response)
    requires q.Execute? && Execution.ValidDriver(d) && ResultSets.ValidFetch(f)
  {
    var data, a := st.tx.session.data, Execution.Given(q);
    if Execution.Had(st, d, q) && d.executes(data, q.sql, a) then
      && r == Stream(ResultSets.Prefix(ResultSets.Messages(ResultSets.Output(d.batch(data, q.sql, a), f)), q.room))
      && st'.tx == st.tx.(session := Write(st.tx.session, [Wrote(q.sql, a)]))
    else r == Stream(ResultSets.Prefix([ResultSets.Failed], q.room)) && st'.tx == st.tx
  }

  /** What the response to each command says of the states before and after it. */
  ghost predicate Answered(
    d: Execution.Driver, f: ResultSets.Fetch, st: Execution.ActorState, c: Command, st': Execution.ActorState, r: Response)
    requires Execution.ValidDriver(d) && ResultSets.ValidFetch(f)
  {
    match c
    case Begin(_) => BeginAnswered(st.tx, st'.tx, r)
    case Commit(_) => CommitAnswered(st.tx, st'.tx, r)
    case Rollback(_) => RollbackAnswered(st.tx, st'.tx, r)
    case StartRollback(_) => r == Silent && st'.tx.depth == if st.tx.depth == 0 then 0 else st.tx.depth - 1
    case ApplyMigration(b, noTx, _) => MigrationAnswered(st.tx, st'.tx, b, Recorded(b.version, b.statements), noTx, r)
    case RevertMigration(b, noTx, _) => MigrationAnswered(st.tx, st'.tx, b, Erased(b.version), noTx, r)
    case StatementCacheSize => r == Size(|Keys(st.cache.entries)|) && st' == st
    case ClearStatementCache => r == Silent && st'.tx == st.tx && forall k :: !Cached(st'.cache, k)
    case Shutdown => r == Silent && st' == st
    case Request(q) =>
      if q.Execute? then ExecuteAnswered(d, f, st, st', q, r)
      else
        var data := st.tx.session.data;
        && r == Described(if Cached(st.cache, q.sql) || d.prepares(data, q.sql) then d.describes(data, q.sql) else None)
        && st'.tx == st.tx
  }

  lemma TransactionIsAnswered(t: Tx, f: Fate)
    requires WellFormed(t.session)
    ensures BeginAnswered(t, HandleBegin(t, f).0, Answer(HandleBegin(t, f).1))
    ensures CommitAnswered(t, HandleCommit(t, f).0, Answer(HandleCommit(t, f).1))
    ensures RollbackAnswered(t, HandleRollback(t, f).0, Answer(HandleRollback(t, f).1))
  {
  }

  lemma MigrationIsAnswered(t: Tx, b: Migrations.Batch, mark: Event, noTx: bool, f: Migrations.MigrationFate)
    requires Tracking.Nested(t)
    ensures var (s, ok) := Migrations.Migrate(t.session, b, mark, noTx, f);
            MigrationAnswered(t, t.(session := s), b, mark, noTx, Answer(ok))
  {
    var data := t.session.data;
    var marked := data + Migrations.Completed(b.version, b.statements) + [mark];
    assert |marked| == |data| + b.statements + 1;
    assert t.session.durable <= data;
    if !Migrations.Succeeds(b) {
      assert (data + Migrations.Effects(b))[|data| + b.failsAt] == Broke(b.version, b.failsAt);
      assert marked[|data| + b.failsAt] == Ran(b.version, b.failsAt);
    }
  }

  lemma RequestIsAnswered(st: Execution.ActorState, d: Execution.Driver, f: ResultSets.Fetch, q: Execution.Request)
    requires Execution.ValidDriver(d) && ResultSets.ValidFetch(f) && Coherent(st.cache)
    ensures Answered(d, f, st, Request(q), ServeOne(st, d, f, Request(q)).0, ServeOne(st, d, f, Request(q)).1)
  {
    if q.Execute? {
      Execution.ExecutesItsRequest(st, d, f, q);
    } else {
      Execution.PreparesItsText(st, d, f, q.sql);
    }
  }

  /** The answer to one command, for every command and every failure. */
  lemma ServeOneIsAnswered(st: Execution.ActorState, d: Execution.Driver, f: ResultSets.Fetch, c: Command)
    requires Execution.ValidDriver(d) && ResultSets.ValidFetch(f) && Coherent(st.cache) && Tracking.Nested(st.tx)
    ensures Answered(d, f, st, c, ServeOne(st, d, f, c).0, ServeOne(st, d, f, c).1)
  {
    match c
    case Request(q) => RequestIsAnswered(st, d, f, q);
    case Begin(fate) => TransactionIsAnswered(st.tx, fate);
    case Commit(fate) => TransactionIsAnswered(st.tx, fate);
    case Rollback(fate) => TransactionIsAnswered(st.tx, fate);
    case ApplyMigration(b, noTx, calls) => MigrationIsAnswered(st.tx, b, Recorded(b.version, b.statements), noTx, calls);
    case RevertMigration(b, noTx, calls) => MigrationIsAnswered(st.tx, b, Erased(b.version), noTx, calls);
    case StatementCacheSize => KeysAreCounted(st.cache);
    case _ =>
  }

  // ------------------------------------------------------------ the two ends agree

  /** The same command as the handle queues it. */
  predicate SameCommand(c: Command, h: Handle.Command, fate: Fate) {
    match c
    case Begin(f) => h == Handle.Transact(Op.Begin) && f == fate
    case Commit(f) => h == Handle.Transact(Op.Commit) && f == fate
    case Rollback(f) => h == Handle.Transact(Op.Rollback) && f == fate
    case ApplyMigration(b, noTx, calls) => h == Handle.Migrate(b, Recorded(b.version, b.statements), noTx, calls)
    case RevertMigration(b, noTx, calls) => h == Handle.Migrate(b, Erased(b.version), noTx, calls)
    case _ => false
  }

  /** The actor answers as the handle's side of the system takes it. */
  lemma AnswersAsTheHandleTakesIt(
    st: Execution.ActorState, d: Execution.Driver, f: ResultSets.Fetch, c: Command, h: Handle.Command, fate: Fate)
    requires Execution.ValidDriver(d) && ResultSets.ValidFetch(f) && SameCommand(c, h, fate)
    ensures var (tx, ok) := Handle.Perform(st.tx, h, fate);
            ServeOne(st, d, f, c) == (st.(tx := tx), Answer(ok))
  {
  }

  // ------------------------------------------------------------ runs

  lemma OneStepKeepsNested(st: Execution.ActorState, d: Execution.Driver, f: ResultSets.Fetch, c: Command)
    requires Execution.ValidDriver(d) && ResultSets.ValidFetch(f) && Coherent(st.cache) && Tracking.Nested(st.tx)
    ensures Coherent(ServeOne(st, d, f, c).0.cache) && Tracking.Nested(ServeOne(st, d, f, c).0.tx)
    ensures forall m <- SessionSteps(st, d, f, c) :: Tracking.Fair(m)
  {
    ServeOneIsItsTrace(st, d, f, c);
    var steps := SessionSteps(st, d, f, c);
    assert |steps| <= 1;
    if steps != [] {
      Tracking.CommandMoves(st.tx, steps[0]);
      assert Migrations.ServeAll(Migrations.Serve(st.tx, steps[0]), steps[1..]) == Migrations.Serve(st.tx, steps[0]);
    }
  }

  /** How many commands are served: all of them, or up to the first shutdown. */
  function Served(rx: seq<Command>): (n: nat)
    ensures n <= |rx|
  {
    if rx == [] then 0 else if rx[0].Shutdown? then 1 else 1 + Served(rx[1..])
  }

  /** The actor after `n` commands. */
  function StateAfter(st: Execution.ActorState, d: Execution.Driver, f: ResultSets.Fetch, rx: seq<Command>, n: nat)
    : Execution.ActorState
    requires Execution.ValidDriver(d) && ResultSets.ValidFetch(f) && n <= |rx|
    decreases n
  {
    if n == 0 then st else StateAfter(ServeOne(st, d, f, rx[0]).0, d, f, rx[1..], n - 1)
  }

  /**
   * Over any command sequence, whatever fails: one response for each served
   * command, in order, and response `k` says what command `k` did.
   */
  lemma {:induction false} RunIsAnswered(
    st: Execution.ActorState, d: Execution.Driver, f: ResultSets.Fetch, rx: seq<Command>, k: nat)
    requires Execution.ValidDriver(d) && ResultSets.ValidFetch(f) && Coherent(st.cache) && Tracking.Nested(st.tx)
    ensures var (end, responses) := ServeAll(st, d, f, rx);
            && |responses| == Served(rx) && end == StateAfter(st, d, f, rx, Served(rx))
            && (k < Served(rx) ==>
                  Answered(d, f, StateAfter(st, d, f, rx, k), rx[k], StateAfter(st, d, f, rx, k + 1), responses[k]))
    decreases |rx|
  {
    if rx != [] {
      var next := ServeOne(st, d, f, rx[0]).0;
      ServeOneIsAnswered(st, d, f, rx[0]);
      OneStepKeepsNested(st, d, f, rx[0]);
      assert StateAfter(st, d, f, rx, 1) == next;
      RunIsAnswered(next, d, f, rx[1..], if k > 0 then k - 1 else 0);
    }
  }

  // ------------------------------------------------------------ the tracking table of a connection

  lemma {:induction false} TraceIsFair(st: Execution.ActorState, d: Execution.Driver, f: ResultSets.Fetch, rx: seq<Command>)
    requires Execution.ValidDriver(d) && ResultSets.ValidFetch(f) && Coherent(st.cache) && Tracking.Nested(st.tx)
    ensures Tracking.FairRun(st.tx, Trace(st, d, f, rx))
    decreases |rx|
  {
    if rx != [] && !rx[0].Shutdown? {
      OneStepKeepsNested(st, d, f, rx[0]);
      TraceIsFair(ServeOne(st, d, f, rx[0]).0, d, f, rx[1..]);
    }
  }

  /**
   * A connection's whole life on a database with any contents: a version
   * stands in the durable table exactly if its last migration that reached the
   * mark durably was an apply, or there was none and it stood before.
   */
  lemma TableTellsWhatStands(
    history: Data, capacity: nat, d: Execution.Driver, f: ResultSets.Fetch, rx: seq<Command>, version: int)
    requires Execution.ValidDriver(d) && ResultSets.ValidFetch(f)
    ensures var st := Execution.ActorState(Tx(Session(history, history, true, []), 0), Cache(capacity, []));
            var run := Trace(st, d, f, rx);
            Tracking.Stands(ServeAll(st, d, f, rx).0.tx.session.durable, version) <==>
            if Tracking.SomeDecides(st.tx, run, version) then Tracking.ApplyDecides(st.tx, run, version)
            else Tracking.Stands(history, version)
  {
    var st := Execution.ActorState(Tx(Session(history, history, true, []), 0), Cache(capacity, []));
    Tracking.ClearedIsNested(st.tx);
    TraceIsFair(st, d, f, rx);
    ActorRunIsItsTrace(st, d, f, rx);
    Tracking.StandsExactly(st.tx, Trace(st, d, f, rx), version);
  }
}
