/** The connection actor: one object owning the session, the cache and the depth, serving commands in order. */
module Actor {
  import opened Wrappers
  import opened Odbc
  import opened Transactions
  import Migrations
  import opened StatementCache
  import ResultSets
  import Execution

  datatype Command =
    | Request(q: Execution.Request)
    | Begin(fate: Fate)
    | Commit(fate: Fate)
    | Rollback(fate: Fate)
    | StartRollback(fate: Fate)
    | ApplyMigration(batch: Migrations.Batch, noTx: bool, calls: Migrations.MigrationFate)
    | RevertMigration(batch: Migrations.Batch, noTx: bool, calls: Migrations.MigrationFate)
    | StatementCacheSize
    | ClearStatementCache
    | Shutdown

  /** What the sender of a command receives; a stream only as far as its consumer listened. */
  datatype Response =
    | Stream(messages: seq<ResultSets.Item>)
    | Described(answer: Option<Execution.Description>)
    | Answer(ok: bool)
    | Size(n: nat)
    | Silent

  function ServeOne(st: Execution.ActorState, d: Execution.Driver, f: ResultSets.Fetch, c: Command)
    : (Execution.ActorState, Response)
    requires Execution.ValidDriver(d) && ResultSets.ValidFetch(f)
  {
    match c
    case Request(q) =>
      if q.Prepare? then
        var (st', answer) := Execution.HandlePrepare(st, d, q.sql);
        (st', Described(answer))
      else
        var (st', out) := Execution.HandleExecute(st, d, f, q);
        (st', Stream(ResultSets.Prefix(ResultSets.Messages(out), q.room)))
    case Begin(fate) => var (tx, ok) := HandleBegin(st.tx, fate); (st.(tx := tx), Answer(ok))
    case Commit(fate) => var (tx, ok) := HandleCommit(st.tx, fate); (st.(tx := tx), Answer(ok))
    case Rollback(fate) => var (tx, ok) := HandleRollback(st.tx, fate); (st.(tx := tx), Answer(ok))
    case StartRollback(fate) => (st.(tx := HandleStartRollback(st.tx, fate)), Silent)
    case ApplyMigration(b, noTx, calls) =>
      var (s, ok) := Migrations.Apply(st.tx.session, b, noTx, calls);
      (st.(tx := st.tx.(session := s)), Answer(ok))
    case RevertMigration(b, noTx, calls) =>
      var (s, ok) := Migrations.Revert(st.tx.session, b, noTx, calls);
      (st.(tx := st.tx.(session := s)), Answer(ok))
    case StatementCacheSize => (st, Size(|st.cache.entries|))
    case ClearStatementCache => (st.(cache := st.cache.(entries := [])), Silent)
    case Shutdown => (st, Silent)
  }

  /** Commands are served in queue order, up to a shutdown. */
  function ServeAll(st: Execution.ActorState, d: Execution.Driver, f: ResultSets.Fetch, rx: seq<Command>)
    : (Execution.ActorState, seq<Response>)
    requires Execution.ValidDriver(d) && ResultSets.ValidFetch(f)
    decreases |rx|
  {
    if rx == [] then (st, [])
    else
      var (st', r) := ServeOne(st, d, f, rx[0]);
      if rx[0].Shutdown? then (st', [r])
      else
        var (end, rs) := ServeAll(st', d, f, rx[1..]);
        (end, [r] + rs)
  }

  /** What a command does to the session, as the transaction and migration machines see it. */
  function SessionSteps(st: Execution.ActorState, d: Execution.Driver, f: ResultSets.Fetch, c: Command): seq<Migrations.Command>
    requires Execution.ValidDriver(d) && ResultSets.ValidFetch(f)
  {
    match c
    case Begin(fate) => [Migrations.Transactional(Call(Op.Begin, fate))]
    case Commit(fate) => [Migrations.Transactional(Call(Op.Commit, fate))]
    case Rollback(fate) => [Migrations.Transactional(Call(Op.Rollback, fate))]
    case StartRollback(fate) => [Migrations.Transactional(Call(Op.StartRollback, fate))]
    case ApplyMigration(b, noTx, calls) => [Migrations.ApplyMigration(b, noTx, calls)]
    case RevertMigration(b, noTx, calls) => [Migrations.RevertMigration(b, noTx, calls)]
    case Request(q) =>
      if ServeOne(st, d, f, c).0.tx == st.tx then []
      else [Migrations.Transactional(Call(Op.Execute([Wrote(q.sql, Execution.Parameters(q.args))]), Fate(true, true, 0)))]
    case _ => []
  }

  function Trace(st: Execution.ActorState, d: Execution.Driver, f: ResultSets.Fetch, rx: seq<Command>): seq<Migrations.Command>
    requires Execution.ValidDriver(d) && ResultSets.ValidFetch(f)
    decreases |rx|
  {
    if rx == [] then []
    else if rx[0].Shutdown? then []
    else SessionSteps(st, d, f, rx[0]) + Trace(ServeOne(st, d, f, rx[0]).0, d, f, rx[1..])
  }

  lemma {:induction false} ServeAllConcat(t: Tx, a: seq<Migrations.Command>, b: seq<Migrations.Command>)
    ensures Migrations.ServeAll(t, a + b) == Migrations.ServeAll(Migrations.ServeAll(t, a), b)
    decreases |a|
  {
    if a == [] {
      assert a + b == b;
    } else {
      assert (a + b)[1..] == a[1..] + b;
      ServeAllConcat(Migrations.Serve(t, a[0]), a[1..], b);
    }
  }

  lemma ServeOneIsItsTrace(st: Execution.ActorState, d: Execution.Driver, f: ResultSets.Fetch, c: Command)
    requires Execution.ValidDriver(d) && ResultSets.ValidFetch(f) && Coherent(st.cache)
    ensures ServeOne(st, d, f, c).0.tx == Migrations.ServeAll(st.tx, SessionSteps(st, d, f, c))
    ensures forall m <- SessionSteps(st, d, f, c) :: Migrations.PlainCommand(m)
    ensures Coherent(ServeOne(st, d, f, c).0.cache)
  {
    var steps := SessionSteps(st, d, f, c);
    if c.Request? {
      RequestIsItsTrace(st, d, f, c.q);
    } else if steps != [] {
      OneServed(st.tx, steps[0]);
    }
  }

  lemma OneServed(t: Tx, m: Migrations.Command)
    ensures Migrations.ServeAll(t, [m]) == Migrations.Serve(t, m)
  {
    assert [m][1..] == [] && Migrations.ServeAll(Migrations.Serve(t, m), []) == Migrations.Serve(t, m);
  }

  lemma RequestIsItsTrace(st: Execution.ActorState, d: Execution.Driver, f: ResultSets.Fetch, q: Execution.Request)
    requires Execution.ValidDriver(d) && ResultSets.ValidFetch(f) && Coherent(st.cache)
    ensures ServeOne(st, d, f, Request(q)).0.tx == Migrations.ServeAll(st.tx, SessionSteps(st, d, f, Request(q)))
    ensures forall m <- SessionSteps(st, d, f, Request(q)) :: Migrations.PlainCommand(m)
    ensures Coherent(ServeOne(st, d, f, Request(q)).0.cache)
  {
    Execution.ServeKeepsCache(st, d, f, q);
    if q.Execute? {
      var write := Migrations.Transactional(Call(Op.Execute([Wrote(q.sql, Execution.Given(q))]), Fate(true, true, 0)));
      Execution.ExecutesItsRequest(st, d, f, q);
      OneServed(st.tx, write);
    }
  }

  /**
   * The actor's loop, for any commands and failures, moves the session as the
   * transaction and migration machines do; so everything proved about their
   * runs holds of it.
   */
  lemma {:induction false} ActorRunIsItsTrace(st: Execution.ActorState, d: Execution.Driver, f: ResultSets.Fetch, rx: seq<Command>)
    requires Execution.ValidDriver(d) && ResultSets.ValidFetch(f) && Coherent(st.cache)
    ensures ServeAll(st, d, f, rx).0.tx == Migrations.ServeAll(st.tx, Trace(st, d, f, rx))
    ensures forall m <- Trace(st, d, f, rx) :: Migrations.PlainCommand(m)
    ensures Coherent(ServeAll(st, d, f, rx).0.cache)
    decreases |rx|
  {
    if rx != [] && !rx[0].Shutdown? {
      var next := ServeOne(st, d, f, rx[0]).0;
      ServeOneIsItsTrace(st, d, f, rx[0]);
      ActorRunIsItsTrace(next, d, f, rx[1..]);
      ServeAllConcat(st.tx, SessionSteps(st, d, f, rx[0]), Trace(next, d, f, rx[1..]));
    }
  }

  /** A connection's whole life: whatever is asked and whatever fails, durable tracking records are backed and the cache is bounded. */
  lemma ActorKeepsPromises(capacity: nat, d: Execution.Driver, f: ResultSets.Fetch, rx: seq<Command>)
    requires Execution.ValidDriver(d) && ResultSets.ValidFetch(f)
    ensures var st := Execution.ActorState(Tx(Session([], [], true, []), 0), Cache(capacity, []));
            var end := ServeAll(st, d, f, rx).0;
            && Migrations.Backed(end.tx.session.durable)
            && |end.cache.entries| <= end.cache.capacity
            && (Migrations.AtDepthZero(st.tx, Trace(st, d, f, rx)) && end.tx.depth > 0 ==> !end.tx.session.autocommit)
  {
    var st := Execution.ActorState(Tx(Session([], [], true, []), 0), Cache(capacity, []));
    ActorRunIsItsTrace(st, d, f, rx);
    Migrations.RecordsAreBacked(st.tx, Trace(st, d, f, rx));
    if Migrations.AtDepthZero(st.tx, Trace(st, d, f, rx)) {
      Migrations.PositiveDepthStaysManual(st.tx, Trace(st, d, f, rx));
    }
  }

  lemma WriteTwice(s: Session, a: Data, b: Data)
    ensures Write(Write(s, a), b) == Write(s, a + b)
  {
    assert s.data + a + b == s.data + (a + b);
  }

  class ConnectionActor {
    var conn: Session
    var transactionDepth: nat
    const stmtCache: LruCache
    const settings: ResultSets.Fetch
    const driver: Execution.Driver

    ghost predicate Valid()
      reads this, stmtCache
    {
      && Execution.ValidDriver(driver) && ResultSets.ValidFetch(settings)
      && WellFormed(conn) && Coherent(stmtCache.value)
    }

    function State(): Execution.ActorState
      reads this, stmtCache
    {
      Execution.ActorState(Tx(conn, transactionDepth), stmtCache.value)
    }

    constructor (conn: Session, stmtCache: LruCache, settings: ResultSets.Fetch, driver: Execution.Driver)
      requires Execution.ValidDriver(driver) && ResultSets.ValidFetch(settings)
      requires WellFormed(conn) && Coherent(stmtCache.value)
      ensures Valid() && this.stmtCache == stmtCache && this.settings == settings && this.driver == driver
      ensures State() == Execution.ActorState(Tx(conn, 0), stmtCache.value)
    {
      this.conn, transactionDepth, this.stmtCache, this.settings, this.driver := conn, 0, stmtCache, settings, driver;
    }

    // ---------------------------------------------------------- transactions

    method HandleBegin(f: Fate) returns (ok: bool)
      modifies this
      ensures (Tx(conn, transactionDepth), ok) == Transactions.HandleBegin(old(Tx(conn, transactionDepth)), f)
    {
      if !f.first {
        return false;
      }
      if transactionDepth == 0 {
        conn := SetAutocommit(conn, false, true);
      } else {
        if !CanSave(conn) {
          return false;
        }
        conn := Save(conn, SavepointName(transactionDepth), true);
      }
      transactionDepth := transactionDepth + 1;
      return true;
    }

    method HandleCommit(f: Fate) returns (ok: bool)
      modifies this
      ensures (Tx(conn, transactionDepth), ok) == Transactions.HandleCommit(old(Tx(conn, transactionDepth)), f)
    {
      if transactionDepth == 0 {
        return true;
      }
      if transactionDepth == 1 {
        if !f.first {
          return false;
        }
        conn := Odbc.Commit(conn, true);
        if !f.second {
          return false;
        }
        conn := SetAutocommit(conn, true, true);
        transactionDepth := 0;
      } else {
        transactionDepth := transactionDepth - 1;
      }
      return true;
    }

    method HandleRollback(f: Fate) returns (ok: bool)
      modifies this
      ensures (Tx(conn, transactionDepth), ok) == Transactions.HandleRollback(old(Tx(conn, transactionDepth)), f)
    {
      if transactionDepth == 0 {
        return true;
      }
      if transactionDepth == 1 {
        if !f.first {
          return false;
        }
        conn := Odbc.Rollback(conn, true);
        if !f.second {
          return false;
        }
        conn := SetAutocommit(conn, true, true);
        transactionDepth := 0;
      } else {
        var savepoint := SavepointName(transactionDepth - 1);
        if !f.first || !CanRollbackTo(conn, savepoint) {
          return false;
        }
        conn := RollbackTo(conn, savepoint, true, f.kept);
        transactionDepth := transactionDepth - 1;
      }
      return true;
    }

    method HandleStartRollback(f: Fate)
      modifies this
      ensures Tx(conn, transactionDepth) == Transactions.HandleStartRollback(old(Tx(conn, transactionDepth)), f)
    {
      if transactionDepth == 0 {
        return;
      }
      if transactionDepth == 1 {
        conn := Odbc.Rollback(conn, f.first);
        conn := SetAutocommit(conn, true, f.second);
        transactionDepth := 0;
      } else {
        conn := RollbackTo(conn, SavepointName(transactionDepth - 1), f.first, f.kept);
        transactionDepth := transactionDepth - 1;
      }
    }

    // ---------------------------------------------------------- migrations

    /** Executes a migration batch and drains every result; the first failing statement ends the walk. */
    method RunBatch(b: Migrations.Batch) returns (ok: bool)
      requires WellFormed(conn)
      modifies this
      ensures conn == Write(old(conn), Migrations.Effects(b)) && ok == Migrations.Succeeds(b)
      ensures transactionDepth == old(transactionDepth)
    {
      var i := 0;
      assert conn.data + [] == conn.data;
      while i < b.statements
        invariant 0 <= i <= b.statements && i <= b.failsAt
        invariant transactionDepth == old(transactionDepth)
        invariant conn == if i == 0 then old(conn) else Write(old(conn), Migrations.Completed(b.version, i))
      {
        ghost var done := Migrations.Completed(b.version, i);
        if i == b.failsAt {
          WriteTwice(old(conn), done, Migrations.Remains(b));
          assert i == 0 ==> done + Migrations.Remains(b) == Migrations.Remains(b);
          conn := Write(conn, Migrations.Remains(b));
          return false;
        }
        WriteTwice(old(conn), done, [Ran(b.version, i)]);
        assert Migrations.Completed(b.version, i + 1) == done + [Ran(b.version, i)];
        assert i == 0 ==> done + [Ran(b.version, i)] == [Ran(b.version, i)];
        conn := Write(conn, [Ran(b.version, i)]);
        i := i + 1;
      }
      return true;
    }

    /** The statement is allocated, the batch run and drained. */
    method RunMigrationBatch(b: Migrations.Batch, allocate: bool) returns (ok: bool)
      requires WellFormed(conn)
      modifies this
      ensures conn == (if allocate then Write(old(conn), Migrations.Effects(b)) else old(conn))
      ensures ok == (allocate && Migrations.Succeeds(b))
      ensures transactionDepth == old(transactionDepth)
    {
      if !allocate {
        return false;
      }
      ok := RunBatch(b);
    }

    method Migrate(b: Migrations.Batch, mark: Event, noTx: bool, f: Migrations.MigrationFate) returns (ok: bool)
      requires WellFormed(conn)
      modifies this
      ensures (conn, ok) == Migrations.Migrate(old(conn), b, mark, noTx, f)
      ensures transactionDepth == old(transactionDepth)
    {
      if !noTx {
        if !f.manual {
          return false;
        }
        conn := SetAutocommit(conn, false, true);
      }
      var batch := RunMigrationBatch(b, f.allocate);
      if !batch {
        if !noTx {
          conn := Odbc.Rollback(conn, f.undo);
          conn := SetAutocommit(conn, true, f.restore);
        }
        return false;
      }
      if !f.mark {
        return false;
      }
      conn := Write(conn, [mark]);
      if !noTx {
        if !f.commit {
          return false;
        }
        conn := Odbc.Commit(conn, true);
        if !f.restore {
          return false;
        }
        conn := SetAutocommit(conn, true, true);
      }
      return true;
    }

    method HandleApplyMigration(b: Migrations.Batch, noTx: bool, f: Migrations.MigrationFate) returns (ok: bool)
      requires WellFormed(conn)
      modifies this
      ensures (conn, ok) == Migrations.Apply(old(conn), b, noTx, f)
      ensures transactionDepth == old(transactionDepth)
    {
      ok := Migrate(b, Recorded(b.version, b.statements), noTx, f);
    }

    method HandleRevertMigration(b: Migrations.Batch, noTx: bool, f: Migrations.MigrationFate) returns (ok: bool)
      requires WellFormed(conn)
      modifies this
      ensures (conn, ok) == Migrations.Revert(old(conn), b, noTx, f)
      ensures transactionDepth == old(transactionDepth)
    {
      ok := Migrate(b, Erased(b.version), noTx, f);
    }

    // ---------------------------------------------------------- statements

    /** Executes `sql` once; `walked` is what the walk over its results reported. */
    method ExecuteOnce(sql: string, args: seq<Arg>, tx: ResultSets.ExecuteSender) returns (walked: bool, columnless: bool)
      requires Valid()
      modifies this, tx
      ensures stmtCache.value == old(stmtCache.value)
      ensures var (t, out) := Execution.RunSql(old(Tx(conn, transactionDepth)), driver, settings, sql, args);
              && Tx(conn, transactionDepth) == t
              && tx.channel == ResultSets.SendAll(old(tx.channel), out.items)
              && (tx.channel.room > 0 ==> (walked <==> out.ok))
      ensures walked && columnless <==>
              Execution.KeepsPrepared(old(Tx(conn, transactionDepth)), driver, settings, sql, args, old(tx.channel).room)
    {
      var data := conn.data;
      if !driver.executes(data, sql, args) {
        return false, false;
      }
      conn := Write(conn, [Wrote(sql, args)]);
      var b := driver.batch(data, sql, args);
      columnless := !b.results[0].ResultSet?;
      walked := ResultSets.DriveResultSets(b, settings, tx);
    }

    method HandleExecute(q: Execution.Request, tx: ResultSets.ExecuteSender) returns (ok: bool)
      requires q.Execute? && Valid() && tx.channel.room == q.room
      modifies this, stmtCache, tx
      ensures Valid()
      ensures var (st, out) := Execution.HandleExecute(old(State()), driver, settings, q);
              && State() == st
              && tx.channel == ResultSets.SendAll(old(tx.channel), out.items)
              && (tx.channel.room > 0 ==> (ok <==> out.ok))
    {
      var hasArguments := Execution.Parameters(q.args) != [];
      if q.persistent && hasArguments {
        ok := ExecutePersistent(q, tx);
      } else if q.allocates {
        var columnless;
        ok, columnless := ExecuteOnce(q.sql, Execution.Parameters(q.args), tx);
      } else {
        ok := false;
      }
    }

    method ExecutePersistent(q: Execution.Request, tx: ResultSets.ExecuteSender) returns (ok: bool)
      requires q.Execute? && Execution.UsesCache(q) && Valid() && tx.channel.room == q.room
      modifies this, stmtCache, tx
      ensures Valid()
      ensures var (st, out) := Execution.HandleExecute(old(State()), driver, settings, q);
              && State() == st
              && tx.channel == ResultSets.SendAll(old(tx.channel), out.items)
              && (tx.channel.room > 0 ==> (ok <==> out.ok))
    {
      var cached := stmtCache.GetMut(q.sql);
      if cached.Some? {
        var columnless;
        ok, columnless := ExecuteOnce(cached.value.sql, Execution.Parameters(q.args), tx);
      } else {
        ok := ExecuteAnew(q, tx);
      }
    }

    /** Prepares, executes once, and keeps the statement if it may be kept. */
    method ExecuteAnew(q: Execution.Request, tx: ResultSets.ExecuteSender) returns (ok: bool)
      requires q.Execute? && Execution.UsesCache(q) && Valid() && tx.channel.room == q.room && !Cached(stmtCache.value, q.sql)
      modifies this, stmtCache, tx
      ensures Valid()
      ensures var (st, out) := Execution.HandleExecute(old(State()), driver, settings, q);
              && State() == st
              && tx.channel == ResultSets.SendAll(old(tx.channel), out.items)
              && (tx.channel.room > 0 ==> (ok <==> out.ok))
    {
      if !driver.prepares(conn.data, q.sql) {
        return false;
      }
      var columnless;
      ok, columnless := ExecuteOnce(q.sql, Execution.Parameters(q.args), tx);
      if ok && columnless {
        stmtCache.Put(q.sql, Prepared(q.sql));
      }
    }

    method HandlePrepare(sql: string) returns (answer: Option<Execution.Description>)
      requires Valid()
      modifies stmtCache
      ensures Valid()
      ensures (State(), answer) == Execution.HandlePrepare(old(State()), driver, sql)
    {
      var cached := stmtCache.GetMut(sql);
      if cached.Some? {
        return driver.describes(conn.data, cached.value.sql);
      }
      answer := PrepareAnew(sql);
    }

    method PrepareAnew(sql: string) returns (answer: Option<Execution.Description>)
      requires Valid() && !Cached(stmtCache.value, sql)
      modifies stmtCache
      ensures Valid()
      ensures (State(), answer) == Execution.HandlePrepare(old(State()), driver, sql)
    {
      if !driver.prepares(conn.data, sql) {
        return None;
      }
      answer := driver.describes(conn.data, sql);
      if answer.Some? && stmtCache.IsEnabled() {
        stmtCache.Put(sql, Prepared(sql));
      }
    }

    // ---------------------------------------------------------- the loop

    /** Streams to a fresh consumer that takes `q.room` messages; an error the walk reports is forwarded. */
    method ServeExecute(q: Execution.Request) returns (r: Response)
      requires q.Execute? && Valid()
      modifies this, stmtCache
      ensures Valid()
      ensures (State(), r) == ServeOne(old(State()), driver, settings, Request(q))
    {
      var response := new ResultSets.ExecuteSender(q.room);
      ghost var out := Execution.HandleExecute(State(), driver, settings, q).1;
      StreamIsPrefix(out, q.room);
      var ok := HandleExecute(q, response);
      if !ok {
        var _ := response.Send(ResultSets.Failed);
      }
      return Stream(response.channel.delivered);
    }

    method Serve(c: Command) returns (r: Response)
      requires Valid()
      modifies this, stmtCache
      ensures Valid()
      ensures (State(), r) == ServeOne(old(State()), driver, settings, c)
    {
      StaysWellFormed(State(), driver, settings, c);
      match c
      case Request(q) =>
        if q.Prepare? {
          var answer := HandlePrepare(q.sql);
          r := Described(answer);
        } else {
          r := ServeExecute(q);
        }
      case Begin(fate) => var ok := HandleBegin(fate); r := Answer(ok);
      case Commit(fate) => var ok := HandleCommit(fate); r := Answer(ok);
      case Rollback(fate) => var ok := HandleRollback(fate); r := Answer(ok);
      case StartRollback(fate) => HandleStartRollback(fate); r := Silent;
      case ApplyMigration(b, noTx, calls) => var ok := HandleApplyMigration(b, noTx, calls); r := Answer(ok);
      case RevertMigration(b, noTx, calls) => var ok := HandleRevertMigration(b, noTx, calls); r := Answer(ok);
      case StatementCacheSize => r := Size(|stmtCache.value.entries|);
      case ClearStatementCache => stmtCache.Clear(); r := Silent;
      case Shutdown => r := Silent;
    }

    method Run(rx: seq<Command>) returns (responses: seq<Response>)
      requires Valid()
      modifies this, stmtCache
      ensures Valid()
      ensures (State(), responses) == ServeAll(old(State()), driver, settings, rx)
    {
      responses := [];
      var i := 0;
      ghost var all := ServeAll(State(), driver, settings, rx).1;
      assert rx[0..] == rx && responses + all == all;
      while i < |rx|
        invariant 0 <= i <= |rx| && Valid()
        invariant var (end, rest) := ServeAll(State(), driver, settings, rx[i..]);
                  ServeAll(old(State()), driver, settings, rx) == (end, responses + rest)
      {
        assert rx[i..][0] == rx[i] && rx[i..][1..] == rx[i + 1..];
        ghost var before, rest := responses, ServeAll(State(), driver, settings, rx[i..]).1;
        var r := Serve(rx[i]);
        responses := responses + [r];
        assert before + rest == responses + rest[1..];
        if rx[i].Shutdown? {
          assert rest == [r];
          return;
        }
        i := i + 1;
      }
      assert responses + [] == responses;
    }
  }

  /** The messages sent, and the forwarded error, are what the consumer gets of the whole output. */
  lemma StreamIsPrefix(out: ResultSets.Emission, room: nat)
    ensures var sent := ResultSets.SendAll(ResultSets.Channel([], room), out.items);
            var all := ResultSets.Prefix(ResultSets.Messages(out), room);
            && (sent.room == 0 ==> sent.delivered == all)
            && (out.ok ==> sent.delivered == all)
            && (!out.ok ==> ResultSets.SendOne(sent, ResultSets.Failed).delivered == all)
  {
    var start := ResultSets.Channel([], room);
    ResultSets.SendAllDeliversPrefix(start, out.items);
    ResultSets.SendAllDeliversPrefix(start, ResultSets.Messages(out));
    ResultSets.SendConcat(start, out.items, [ResultSets.Failed]);
    ResultSets.SendSingle(ResultSets.SendAll(start, out.items), ResultSets.Failed);
    assert out.items + [] == out.items;
    assert [] + ResultSets.Prefix(ResultSets.Messages(out), room) == ResultSets.Prefix(ResultSets.Messages(out), room);
  }

  lemma AtMostOneKeepsWellFormed(t: Tx, steps: seq<Migrations.Command>)
    requires WellFormed(t.session) && |steps| <= 1
    ensures WellFormed(Migrations.ServeAll(t, steps).session)
  {
    if steps != [] {
      Migrations.ServeKeepsWellFormed(t, steps[0]);
      assert Migrations.ServeAll(Migrations.Serve(t, steps[0]), steps[1..]) == Migrations.Serve(t, steps[0]);
    }
  }

  lemma StaysWellFormed(st: Execution.ActorState, d: Execution.Driver, f: ResultSets.Fetch, c: Command)
    requires Execution.ValidDriver(d) && ResultSets.ValidFetch(f) && Coherent(st.cache) && WellFormed(st.tx.session)
    ensures WellFormed(ServeOne(st, d, f, c).0.tx.session) && Coherent(ServeOne(st, d, f, c).0.cache)
  {
    ServeOneIsItsTrace(st, d, f, c);
    var steps := SessionSteps(st, d, f, c);
    assert |steps| <= 1;
    AtMostOneKeepsWellFormed(st.tx, steps);
  }
}
