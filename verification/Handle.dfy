/**
 * The connection handle and the actor as two machines joined by a FIFO queue.
 * The handle keeps its own transaction depth; `start_rollback` is queued
 * without waiting for the actor.
 */
module Handle {
  import opened Odbc
  import opened Transactions
  import Migrations

  /** `Ask` stands for every other command that is answered: prepare, ping, plain SQL and queries of the tracking table. */
  datatype Command =
    | Transact(op: Op)
    | Ask(events: Data)
    | Migrate(batch: Migrations.Batch, mark: Event, noTx: bool, calls: Migrations.MigrationFate)

  /** `waiting`: the caller is blocked on the answer to the last command queued. */
  datatype System = System(handle: nat, waiting: bool, queue: seq<Command>, tx: Tx)

  /** The caller issues a command, or the actor takes the oldest one. */
  datatype Move = Issue(c: Command) | Serve(fate: Fate)

  /** The caller waits for an answer. */
  predicate Waits(c: Command) {
    c.Transact? ==> c.op.Begin? || c.op.Commit? || c.op.Rollback?
  }

  /** Commit and rollback are not sent at handle depth 0. */
  predicate Sends(handle: nat, c: Command) {
    c.Transact? && (c.op.Commit? || c.op.Rollback?) ==> handle > 0
  }

  function DepthAfterOk(handle: nat, c: Command): nat {
    if !c.Transact? then handle
    else if c.op.Begin? then handle + 1
    else if handle == 0 then 0
    else handle - 1
  }

  /** The actor serves one command. */
  function Perform(t: Tx, c: Command, f: Fate): (Tx, bool) {
    match c
    case Transact(op) => Step(t, Call(op, f))
    case Ask(events) => (if f.first then t.(session := Write(t.session, events)) else t, f.first)
    case Migrate(b, mark, noTx, calls) =>
      var (s, ok) := Migrations.Migrate(t.session, b, mark, noTx, calls);
      (t.(session := s), ok)
  }

  function Work(t: Tx, commands: seq<Command>, fates: seq<Fate>): Tx
    requires |commands| == |fates|
    decreases |commands|
  {
    if commands == [] then t else Work(Perform(t, commands[0], fates[0]).0, commands[1..], fates[1..])
  }

  function Next(s: System, m: Move): System {
    match m
    case Issue(c) =>
      if s.waiting || !Sends(s.handle, c) then s
      else s.(queue := s.queue + [c], waiting := Waits(c), handle := if c == Transact(StartRollback) then 0 else s.handle)
    case Serve(fate) =>
      if s.queue == [] then s
      else
        var c := s.queue[0];
        var (tx, ok) := Perform(s.tx, c, fate);
        var s' := s.(queue := s.queue[1..], tx := tx);
        if Waits(c) then s'.(waiting := false, handle := if ok then DepthAfterOk(s.handle, c) else s.handle)
        else s'
  }

  function RunMoves(s: System, moves: seq<Move>): System
    decreases |moves|
  {
    if moves == [] then s else RunMoves(Next(s, moves[0]), moves[1..])
  }

  const CONNECTED := System(0, false, [], Tx(Session([], [], true, []), 0))

  // ------------------------------------------------------------ folding the queue

  /** The queued commands nobody waits for. */
  function Pending(s: System): seq<Command> {
    if s.waiting && s.queue != [] then s.queue[..|s.queue| - 1] else s.queue
  }

  function AfterOne(depth: nat, c: Command): nat {
    if c == Transact(StartRollback) && depth > 0 then depth - 1 else depth
  }

  /** The actor's depth once it has worked off `pending`. */
  function Folded(depth: nat, pending: seq<Command>): nat
    decreases |pending|
  {
    if pending == [] then depth else Folded(AfterOne(depth, pending[0]), pending[1..])
  }

  /** `Folded` is what the actor really reaches, however its ODBC calls end. */
  lemma {:induction false} FoldedIsTheDepthReached(t: Tx, pending: seq<Command>, fates: seq<Fate>)
    requires |pending| == |fates| && forall c <- pending :: !Waits(c)
    ensures Work(t, pending, fates).depth == Folded(t.depth, pending)
    decreases |pending|
  {
    if pending != [] {
      assert pending[0] in pending;
      FoldedIsTheDepthReached(Perform(t, pending[0], fates[0]).0, pending[1..], fates[1..]);
    }
  }

  lemma {:induction false} FoldedOfExtension(depth: nat, pending: seq<Command>, c: Command)
    ensures Folded(depth, pending + [c]) == AfterOne(Folded(depth, pending), c)
    decreases |pending|
  {
    if pending == [] {
      assert pending + [c] == [c] && [c][1..] == [];
      assert Folded(AfterOne(depth, c), []) == AfterOne(depth, c);
    } else {
      assert (pending + [c])[1..] == pending[1..] + [c];
      FoldedOfExtension(AfterOne(depth, pending[0]), pending[1..], c);
    }
  }

  // ------------------------------------------------------------ the two depths

  ghost predicate Sound(s: System) {
    && (s.waiting ==> s.queue != [])
    && (s.waiting ==> var c := s.queue[|s.queue| - 1]; Waits(c) && Sends(s.handle, c))
    && (forall c <- Pending(s) :: !Waits(c))
    && s.handle <= Folded(s.tx.depth, Pending(s))
  }

  lemma BlockingIsLast(s: System)
    requires Sound(s) && s.queue != []
    ensures Waits(s.queue[0]) <==> s.waiting && |s.queue| == 1
  {
    if !(s.waiting && |s.queue| == 1) {
      assert Pending(s)[0] == s.queue[0];
    }
  }

  predicate Agree(s: System) {
    s.handle == Folded(s.tx.depth, Pending(s))
  }

  predicate RashStartRollback(s: System, m: Move) {
    m == Issue(Transact(StartRollback)) && !s.waiting && s.handle >= 2
  }

  lemma IssueKeepsDepths(s: System, c: Command)
    requires Sound(s) && !s.waiting
    ensures Sound(Next(s, Issue(c)))
    ensures Agree(s) ==> (Agree(Next(s, Issue(c))) <==> !RashStartRollback(s, Issue(c)))
  {
    var s' := Next(s, Issue(c));
    FoldedOfExtension(s.tx.depth, s.queue, c);
    if s' != s {
      assert Waits(c) ==> Pending(s') == s.queue;
    }
  }

  lemma ServeKeepsDepths(s: System, fate: Fate)
    requires Sound(s) && s.queue != []
    ensures Sound(Next(s, Serve(fate)))
    ensures Agree(s) ==> Agree(Next(s, Serve(fate)))
  {
    var s' := Next(s, Serve(fate));
    BlockingIsLast(s);
    if !Waits(s.queue[0]) {
      assert Pending(s') == Pending(s)[1..];
    }
  }

  /** One move keeps the inequality; it keeps agreement exactly if it is not a start_rollback at depth 2 or more. */
  lemma MoveKeepsDepths(s: System, m: Move)
    requires Sound(s)
    ensures Sound(Next(s, m))
    ensures Agree(s) ==> (Agree(Next(s, m)) <==> !RashStartRollback(s, m))
  {
    match m
    case Issue(c) =>
      if !s.waiting {
        IssueKeepsDepths(s, c);
      }
    case Serve(fate) =>
      if s.queue != [] {
        ServeKeepsDepths(s, fate);
      }
  }

  /** In every reachable state the handle's depth is at most the one the actor will have. */
  lemma {:induction false} HandleNeverAhead(s: System, moves: seq<Move>, fates: seq<Fate>)
    requires Sound(s)
    requires |fates| == |Pending(RunMoves(s, moves))|
    ensures Sound(RunMoves(s, moves))
    ensures var end := RunMoves(s, moves);
            end.handle <= Work(end.tx, Pending(end), fates).depth
    decreases |moves|
  {
    if moves == [] {
      FoldedIsTheDepthReached(s.tx, Pending(s), fates);
    } else {
      MoveKeepsDepths(s, moves[0]);
      HandleNeverAhead(Next(s, moves[0]), moves[1..], fates);
    }
  }

  predicate AlwaysAgrees(s: System, moves: seq<Move>)
    decreases |moves|
  {
    Agree(s) && (moves == [] || AlwaysAgrees(Next(s, moves[0]), moves[1..]))
  }

  predicate NeverRash(s: System, moves: seq<Move>)
    decreases |moves|
  {
    moves == [] || (!RashStartRollback(s, moves[0]) && NeverRash(Next(s, moves[0]), moves[1..]))
  }

  /** The depths agree throughout a run exactly when every start_rollback is issued at handle depth 0 or 1. */
  lemma {:induction false} DepthsAgreeExactly(s: System, moves: seq<Move>)
    requires Sound(s) && Agree(s)
    ensures AlwaysAgrees(s, moves) <==> NeverRash(s, moves)
    decreases |moves|
  {
    if moves != [] {
      MoveKeepsDepths(s, moves[0]);
      if !RashStartRollback(s, moves[0]) {
        DepthsAgreeExactly(Next(s, moves[0]), moves[1..]);
      }
    }
  }

  /** A commit that the handle takes for the outermost one publishes the data exactly when the depths agree. */
  lemma OutermostCommitPublishes(s: System, f: Fate)
    requires Sound(s) && !s.waiting && s.queue == [] && s.handle == 1
    requires WellFormed(s.tx.session)
    ensures var end := RunMoves(s, [Issue(Transact(Commit)), Serve(f)]);
            end.handle == 0 ==>
              end.tx.session.durable == if Agree(s) then s.tx.session.data else s.tx.session.durable
  {
    var issued := Next(s, Issue(Transact(Commit)));
    assert issued.queue == [Transact(Commit)];
    assert [Issue(Transact(Commit)), Serve(f)][1..] == [Serve(f)];
    assert RunMoves(issued, [Serve(f)]) == Next(issued, Serve(f));
  }

  /** A command issued on an idle connection and served at once. */
  function Exchange(s: System, op: Op, f: Fate): System {
    Next(Next(s, Issue(Transact(op))), Serve(f))
  }

  /** The inequality can be strict: here a whole transaction is answered Ok and is not durable. */
  lemma CommitLostAfterNestedStartRollback(w: Event)
    ensures var f := Fate(true, true, 0);
            var outer := Exchange(Exchange(CONNECTED, Begin, f), Execute([w]), f);
            var dropped := Exchange(Exchange(outer, Begin, f), StartRollback, f);
            var written := Exchange(Exchange(dropped, Begin, f), Execute([w]), f);
            var end := Exchange(written, Commit, f);
            && end.handle == 0 && end.queue == [] && !end.waiting
            && end.tx.depth == 1
            && end.tx.session.data == [w, w] && end.tx.session.durable == []
  {
    var f := Fate(true, true, 0);
    var outer := Exchange(Exchange(CONNECTED, Begin, f), Execute([w]), f);
    assert outer == System(1, false, [], Tx(Session([], [w], false, []), 1));
    var nested := Exchange(outer, Begin, f);
    assert nested == System(2, false, [], Tx(Session([], [w], false, [Savepoint(SavepointName(1), [w])]), 2));
    var dropped := Exchange(nested, StartRollback, f);
    assert Newest(nested.tx.session.savepoints, SavepointName(1)) == 0;
    assert dropped == System(0, false, [], Tx(Session([], [w], false, []), 1));
  }

  // ------------------------------------------------------------ start_rollback rewinds

  function Serves(moves: seq<Move>): nat
    decreases |moves|
  {
    if moves == [] then 0 else (if moves[0].Serve? then 1 else 0) + Serves(moves[1..])
  }

  /**
   * A start_rollback queued at actor depth 1 behind `k` executes: in whatever
   * order the caller goes on issuing and the actor serving, once the rollback
   * is served the session reads exactly the data of the outermost begin, and
   * that is what every later command runs on.
   */
  lemma {:induction false} StartRollbackRewinds(s: System, r: Stack, k: nat, moves: seq<Move>)
    requires Refines(s.tx, r) && s.tx.depth == 1
    requires k < |s.queue| && s.queue[k] == Transact(StartRollback)
    requires forall i :: 0 <= i < k ==> s.queue[i].Transact? && s.queue[i].op.Execute?
    requires moves != [] && Serves(moves) == k + 1
    requires var last := moves[|moves| - 1]; last.Serve? && last.fate.first
    ensures var end := RunMoves(s, moves);
            && end.tx.depth == 0
            && end.tx.session.data == r.levels[0]
            && end.tx.session.durable == r.levels[0]
            && (end.tx.session.autocommit <==> moves[|moves| - 1].fate.second)
    decreases |moves|
  {
    var s' := Next(s, moves[0]);
    var rest := moves[1..];
    if rest == [] {
      assert moves == [moves[0]] && Serves(moves[1..]) == 0;
      assert RunMoves(s, moves) == s';
    } else {
      assert rest[|rest| - 1] == moves[|moves| - 1];
      if moves[0].Issue? {
        StartRollbackRewinds(s', r, k, rest);
      } else if k == 0 {
        ServesCountsLast(rest);
      } else {
        StepRefines(s.tx, r, Call(s.queue[0].op, moves[0].fate));
        StackRunTwo(r, s.queue[0].op, Begin);
        StartRollbackRewinds(s', StackStep(r, s.queue[0].op), k - 1, rest);
      }
    }
  }

  lemma {:induction false} ServesCountsLast(moves: seq<Move>)
    requires moves != [] && moves[|moves| - 1].Serve?
    ensures Serves(moves) >= 1
    decreases |moves|
  {
    if |moves| > 1 {
      assert moves[1..][|moves| - 2] == moves[|moves| - 1];
      ServesCountsLast(moves[1..]);
    }
  }

  // ------------------------------------------------------------ the handle itself

  /** How the actor answers a command that is queued now: after all that is pending. */
  function AnswerTo(s: System, c: Command, fates: seq<Fate>): bool
    requires |fates| == |s.queue| + 1
  {
    Perform(Work(s.tx, s.queue, fates[..|s.queue|]), c, fates[|s.queue|]).1
  }

  /** The handle's end of the connection; `actor` is what runs at the other end of the queue. */
  class MssqlConnection {
    var transactionDepth: nat
    var cmdTx: seq<Command>
    var actor: Tx

    ghost predicate Valid()
      reads this
    {
      Sound(Sys()) && forall c <- cmdTx :: !Waits(c)
    }

    function Sys(): System
      reads this
    {
      System(transactionDepth, false, cmdTx, actor)
    }

    constructor ()
      ensures Valid() && Sys() == CONNECTED
    {
      transactionDepth, cmdTx, actor := 0, [], CONNECTED.tx;
    }

    /** Queues `c` and blocks: the actor works off the queue, then answers. */
    method SendCommandBlocking(c: Command, fates: seq<Fate>) returns (ok: bool)
      requires |fates| == |cmdTx| + 1
      modifies this`cmdTx, this`actor
      ensures cmdTx == []
      ensures var n := |old(cmdTx)|;
              (actor, ok) == Perform(Work(old(actor), old(cmdTx), fates[..n]), c, fates[n])
    {
      ghost var pending, start := cmdTx, actor;
      cmdTx := cmdTx + [c];
      var i, n := 0, |fates| - 1;
      ok := true;
      while |cmdTx| > 1
        invariant 0 <= i <= n == |pending|
        invariant cmdTx == pending[i..] + [c]
        invariant Work(start, pending, fates[..n]) == Work(actor, pending[i..], fates[i..n])
      {
        assert pending[i..][0] == cmdTx[0] && fates[i..n][0] == fates[i];
        assert pending[i..][1..] == pending[i + 1..] && fates[i..n][1..] == fates[i + 1..n];
        assert cmdTx[1..] == pending[i + 1..] + [c];
        var (tx, _) := Perform(actor, cmdTx[0], fates[i]);
        actor, cmdTx, i := tx, cmdTx[1..], i + 1;
      }
      assert pending[i..] == [];
      var (tx, answer) := Perform(actor, cmdTx[0], fates[i]);
      actor, cmdTx, ok := tx, [], answer;
    }

    method BeginBlocking(fates: seq<Fate>) returns (ok: bool)
      requires Valid() && |fates| == |cmdTx| + 1
      modifies this
      ensures Valid()
      ensures Sys() == RunMoves(old(Sys()), Blocked(Transact(Begin), fates))
      ensures transactionDepth == old(transactionDepth) + if ok then 1 else 0
      ensures ok == AnswerTo(old(Sys()), Transact(Begin), fates)
    {
      BlockedCall(Sys(), Transact(Begin), fates);
      ok := SendCommandBlocking(Transact(Begin), fates);
      if ok {
        transactionDepth := transactionDepth + 1;
      }
    }

    method CommitBlocking(fates: seq<Fate>) returns (ok: bool)
      requires Valid() && |fates| == |cmdTx| + 1
      modifies this
      ensures Valid()
      ensures Sys() ==
              if old(transactionDepth) == 0 then old(Sys()) else RunMoves(old(Sys()), Blocked(Transact(Commit), fates))
      ensures transactionDepth == old(transactionDepth) - if ok && old(transactionDepth) > 0 then 1 else 0
      ensures ok == (old(transactionDepth) == 0 || AnswerTo(old(Sys()), Transact(Commit), fates))
    {
      var depth := transactionDepth;
      if depth == 0 {
        return true;
      }
      BlockedCall(Sys(), Transact(Commit), fates);
      ok := SendCommandBlocking(Transact(Commit), fates);
      if ok {
        if depth == 1 {
          transactionDepth := 0;
        } else {
          transactionDepth := transactionDepth - 1;
        }
      }
    }

    method RollbackBlocking(fates: seq<Fate>) returns (ok: bool)
      requires Valid() && |fates| == |cmdTx| + 1
      modifies this
      ensures Valid()
      ensures Sys() ==
              if old(transactionDepth) == 0 then old(Sys()) else RunMoves(old(Sys()), Blocked(Transact(Rollback), fates))
      ensures transactionDepth == old(transactionDepth) - if ok && old(transactionDepth) > 0 then 1 else 0
      ensures ok == (old(transactionDepth) == 0 || AnswerTo(old(Sys()), Transact(Rollback), fates))
    {
      var depth := transactionDepth;
      if depth == 0 {
        return true;
      }
      BlockedCall(Sys(), Transact(Rollback), fates);
      ok := SendCommandBlocking(Transact(Rollback), fates);
      if ok {
        if depth == 1 {
          transactionDepth := 0;
        } else {
          transactionDepth := transactionDepth - 1;
        }
      }
    }

    method StartRollback()
      requires Valid()
      modifies this
      ensures Valid()
      ensures Sys() == Next(old(Sys()), Issue(Transact(Op.StartRollback)))
    {
      MoveKeepsDepths(Sys(), Issue(Transact(Op.StartRollback)));
      cmdTx := cmdTx + [Transact(Op.StartRollback)];
      transactionDepth := 0;
    }

    /** Preparing, plain SQL and migrations: answered, and no business of the depth. */
    method AskBlocking(c: Command, fates: seq<Fate>) returns (ok: bool)
      requires Valid() && |fates| == |cmdTx| + 1 && !c.Transact?
      modifies this
      ensures Valid()
      ensures Sys() == RunMoves(old(Sys()), Blocked(c, fates))
      ensures transactionDepth == old(transactionDepth)
      ensures ok == AnswerTo(old(Sys()), c, fates)
    {
      BlockedCall(Sys(), c, fates);
      ok := SendCommandBlocking(c, fates);
    }

    /** An execute is queued; its results come through a channel of their own. */
    method ExecuteReceiver(events: Data)
      requires Valid()
      modifies this
      ensures Valid()
      ensures Sys() == Next(old(Sys()), Issue(Transact(Execute(events))))
    {
      MoveKeepsDepths(Sys(), Issue(Transact(Execute(events))));
      cmdTx := cmdTx + [Transact(Execute(events))];
    }
  }

  /** Issuing a command that is answered, and the actor's work until then. */
  function Blocked(c: Command, fates: seq<Fate>): seq<Move> {
    [Issue(c)] + AllServed(fates)
  }

  function AllServed(fates: seq<Fate>): seq<Move> {
    seq(|fates|, i requires 0 <= i < |fates| => Serve(fates[i]))
  }

  /** The system after the answer to the last of the queued commands. */
  function Answered(s: System, c: Command, pending: seq<Command>, fates: seq<Fate>): System
    requires |fates| == |pending| + 1
  {
    var n := |pending|;
    var (tx, ok) := Perform(Work(s.tx, pending, fates[..n]), c, fates[n]);
    System(if ok then DepthAfterOk(s.handle, c) else s.handle, false, [], tx)
  }

  lemma BlockedCall(s: System, c: Command, fates: seq<Fate>)
    requires Sound(s) && !s.waiting && Waits(c) && Sends(s.handle, c)
    requires |fates| == |s.queue| + 1
    ensures RunMoves(s, Blocked(c, fates)) == Answered(s, c, s.queue, fates) && Sound(Answered(s, c, s.queue, fates))
  {
    var issued := Next(s, Issue(c));
    MoveKeepsDepths(s, Issue(c));
    assert Blocked(c, fates)[1..] == AllServed(fates);
    assert issued.queue[..|s.queue|] == s.queue;
    ServeAll(issued, c, fates);
  }

  lemma {:induction false} ServeAll(s: System, c: Command, fates: seq<Fate>)
    requires Sound(s) && s.waiting && s.queue[|s.queue| - 1] == c && |fates| == |s.queue|
    ensures var end := Answered(s, c, s.queue[..|s.queue| - 1], fates);
            RunMoves(s, AllServed(fates)) == end && Sound(end)
    decreases |fates|
  {
    var n := |s.queue| - 1;
    var s' := Next(s, Serve(fates[0]));
    MoveKeepsDepths(s, Serve(fates[0]));
    assert AllServed(fates)[1..] == AllServed(fates[1..]);
    if n == 0 {
      assert RunMoves(s', AllServed(fates[1..])) == s';
    } else {
      assert Pending(s)[0] == s.queue[0];
      ServeAll(s', c, fates[1..]);
      assert s.queue[..n][1..] == s'.queue[..n - 1] && fates[..n][1..] == fates[1..][..n - 1];
    }
  }

  /** The second writer of the depth stores what the blocking call already left there. */
  method ManagerBegin(conn: MssqlConnection, fates: seq<Fate>) returns (ok: bool)
    requires conn.Valid() && |fates| == |conn.cmdTx| + 1
    modifies conn
    ensures conn.Valid()
    ensures conn.Sys() == RunMoves(old(conn.Sys()), Blocked(Transact(Begin), fates))
    ensures ok == AnswerTo(old(conn.Sys()), Transact(Begin), fates)
    ensures conn.transactionDepth == old(conn.transactionDepth) + if ok then 1 else 0
  {
    var depth := conn.transactionDepth;
    ok := conn.BeginBlocking(fates);
    if ok {
      conn.transactionDepth := depth + 1;
    }
  }

  method ManagerCommit(conn: MssqlConnection, fates: seq<Fate>) returns (ok: bool)
    requires conn.Valid() && |fates| == |conn.cmdTx| + 1
    modifies conn
    ensures conn.Valid()
    ensures conn.Sys() == if old(conn.transactionDepth) == 0 then old(conn.Sys())
                          else RunMoves(old(conn.Sys()), Blocked(Transact(Commit), fates))
    ensures ok == (old(conn.transactionDepth) == 0 || AnswerTo(old(conn.Sys()), Transact(Commit), fates))
    ensures conn.transactionDepth == old(conn.transactionDepth) - if ok && old(conn.transactionDepth) > 0 then 1 else 0
  {
    var depth := conn.transactionDepth;
    if depth == 0 {
      return true;
    }
    ok := conn.CommitBlocking(fates);
    if ok {
      conn.transactionDepth := if depth == 1 then 0 else depth - 1;
    }
  }

  method ManagerRollback(conn: MssqlConnection, fates: seq<Fate>) returns (ok: bool)
    requires conn.Valid() && |fates| == |conn.cmdTx| + 1
    modifies conn
    ensures conn.Valid()
    ensures conn.Sys() == if old(conn.transactionDepth) == 0 then old(conn.Sys())
                          else RunMoves(old(conn.Sys()), Blocked(Transact(Rollback), fates))
    ensures ok == (old(conn.transactionDepth) == 0 || AnswerTo(old(conn.Sys()), Transact(Rollback), fates))
    ensures conn.transactionDepth == old(conn.transactionDepth) - if ok && old(conn.transactionDepth) > 0 then 1 else 0
  {
    var depth := conn.transactionDepth;
    if depth == 0 {
      return true;
    }
    ok := conn.RollbackBlocking(fates);
    if ok {
      conn.transactionDepth := if depth == 1 then 0 else depth - 1;
    }
  }
}
