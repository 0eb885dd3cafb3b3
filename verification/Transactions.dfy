/**
 * Nested transactions of the connection actor: a depth counter turned into
 * SAVE TRANSACTION / ROLLBACK TRANSACTION, against a plain stack of snapshots.
 */
module Transactions {
  import opened Text
  import opened Odbc

  datatype Tx = Tx(session: Session, depth: nat)

  /** Outcomes of the ODBC calls of one handler, and the server's choice of savepoints to keep. */
  datatype Fate = Fate(first: bool, second: bool, kept: nat)

  datatype Op = Begin | Commit | Rollback | StartRollback | Execute(events: Data)

  datatype Call = Call(op: Op, fate: Fate)

  function SavepointName(k: nat): string {
    "sqlx_sp_" + Decimal(k)
  }

  lemma SavepointNameInjective(j: nat, k: nat)
    requires SavepointName(j) == SavepointName(k)
    ensures j == k
  {
    assert Decimal(j) == SavepointName(j)[|"sqlx_sp_"|..];
    assert Decimal(k) == SavepointName(k)[|"sqlx_sp_"|..];
    DecimalInjective(j, k);
  }

  // ------------------------------------------------------------ the handlers

  function HandleBegin(t: Tx, f: Fate): (Tx, bool) {
    if !f.first then (t, false)
    else if t.depth == 0 then (Tx(SetAutocommit(t.session, false, true), 1), true)
    else if !CanSave(t.session) then (t, false)
    else (Tx(Save(t.session, SavepointName(t.depth), true), t.depth + 1), true)
  }

  function HandleCommit(t: Tx, f: Fate): (Tx, bool) {
    if t.depth == 0 then (t, true)
    else if t.depth == 1 then
      if !f.first then (t, false)
      else
        var s := Odbc.Commit(t.session, true);
        if !f.second then (Tx(s, 1), false) else (Tx(SetAutocommit(s, true, true), 0), true)
    else (Tx(t.session, t.depth - 1), true)
  }

  function HandleRollback(t: Tx, f: Fate): (Tx, bool) {
    if t.depth == 0 then (t, true)
    else if t.depth == 1 then
      if !f.first then (t, false)
      else
        var s := Odbc.Rollback(t.session, true);
        if !f.second then (Tx(s, 1), false) else (Tx(SetAutocommit(s, true, true), 0), true)
    else
      var name := SavepointName(t.depth - 1);
      if f.first && CanRollbackTo(t.session, name)
      then (Tx(RollbackTo(t.session, name, true, f.kept), t.depth - 1), true)
      else (t, false)
  }

  /** Fire and forget: errors are dropped, the depth always falls. */
  function HandleStartRollback(t: Tx, f: Fate): Tx {
    if t.depth == 0 then t
    else if t.depth == 1 then Tx(SetAutocommit(Odbc.Rollback(t.session, f.first), true, f.second), 0)
    else Tx(RollbackTo(t.session, SavepointName(t.depth - 1), f.first, f.kept), t.depth - 1)
  }

  function Step(t: Tx, c: Call): (Tx, bool) {
    match c.op
    case Begin => HandleBegin(t, c.fate)
    case Commit => HandleCommit(t, c.fate)
    case Rollback => HandleRollback(t, c.fate)
    case StartRollback => (HandleStartRollback(t, c.fate), true)
    case Execute(events) => (Tx(Write(t.session, events), t.depth), true)
  }

  function Run(t: Tx, calls: seq<Call>): Tx
    decreases |calls|
  {
    if calls == [] then t else Run(Step(t, calls[0]).0, calls[1..])
  }

  // ------------------------------------------------------------ the reference: a stack of snapshots

  datatype Stack = Stack(durable: Data, data: Data, levels: seq<Data>)

  function StackStep(r: Stack, op: Op): Stack {
    var n := |r.levels|;
    match op
    case Begin => r.(levels := r.levels + [r.data])
    case Commit =>
      if n == 0 then r
      else r.(durable := if n == 1 then r.data else r.durable, levels := r.levels[..n - 1])
    case Rollback => if n == 0 then r else r.(data := r.levels[n - 1], levels := r.levels[..n - 1])
    case StartRollback => r
    case Execute(events) =>
      r.(data := r.data + events, durable := if n == 0 then r.data + events else r.durable)
  }

  function StackRun(r: Stack, ops: seq<Op>): Stack
    decreases |ops|
  {
    if ops == [] then r else StackRun(StackStep(r, ops[0]), ops[1..])
  }

  /**
   * What one handler call amounts to on the stack.  A commit or rollback whose
   * autocommit restore fails leaves the next implicit transaction open at
   * depth 1; a dropped savepoint rollback behaves as a nested commit.
   */
  function Meaning(depth: nat, c: Call): seq<Op> {
    var f := c.fate;
    match c.op
    case Begin => if f.first then [Begin] else []
    case Commit =>
      if depth == 0 then []
      else if depth > 1 then [Commit]
      else if !f.first then [] else if f.second then [Commit] else [Commit, Begin]
    case Rollback =>
      if depth == 0 || !f.first then []
      else if depth > 1 || f.second then [Rollback] else [Rollback, Begin]
    case StartRollback =>
      if depth == 0 then [] else if f.first then [Rollback] else [Commit]
    case Execute(_) => [c.op]
  }

  function Meanings(t: Tx, calls: seq<Call>): seq<Op>
    decreases |calls|
  {
    if calls == [] then [] else Meaning(t.depth, calls[0]) + Meanings(Step(t, calls[0]).0, calls[1..])
  }

  // ------------------------------------------------------------ refinement

  /** The newest `sqlx_sp_k` holds level k, and these savepoints lie in increasing log order. */
  ghost predicate Marks(log: seq<Savepoint>, levels: seq<Data>) {
    && (forall k :: 1 <= k < |levels| ==>
          var at := Newest(log, SavepointName(k)); at >= 0 && log[at].data == levels[k])
    && (forall j, k :: 1 <= j < k < |levels| ==>
          Newest(log, SavepointName(j)) < Newest(log, SavepointName(k)))
  }

  ghost predicate Refines(t: Tx, r: Stack) {
    && WellFormed(t.session)
    && t.session.durable == r.durable
    && t.session.data == r.data
    && t.depth == |r.levels|
    && (t.depth == 0 <==> t.session.autocommit)
    && (t.depth > 0 ==> r.levels[0] == r.durable)
    && Marks(t.session.savepoints, r.levels)
  }

  lemma NewestOfExtension(log: seq<Savepoint>, p: Savepoint, name: string)
    ensures Newest(log + [p], name) == if p.name == name then |log| else Newest(log, name)
  {
    assert (log + [p])[..|log|] == log;
  }

  lemma MarksPush(log: seq<Savepoint>, levels: seq<Data>, data: Data)
    requires |levels| > 0 && Marks(log, levels)
    ensures Marks(log + [Savepoint(SavepointName(|levels|), data)], levels + [data])
  {
    var p := Savepoint(SavepointName(|levels|), data);
    forall k | 1 <= k <= |levels|
      ensures Newest(log + [p], SavepointName(k)) ==
              if k == |levels| then |log| else Newest(log, SavepointName(k))
    {
      NewestOfExtension(log, p, SavepointName(k));
      if p.name == SavepointName(k) {
        SavepointNameInjective(|levels|, k);
      }
    }
  }

  lemma NewestBelowCut(log: seq<Savepoint>, name: string, cut: nat)
    requires 0 <= Newest(log, name) < cut <= |log|
    ensures Newest(log[..cut], name) == Newest(log, name)
  {
    assert log[..cut][Newest(log, name)].name == name;
  }

  /** Cutting the log at or above the newest mark of the top level keeps the levels below it. */
  lemma MarksCut(log: seq<Savepoint>, levels: seq<Data>, cut: nat)
    requires |levels| > 1 && Marks(log, levels)
    requires Newest(log, SavepointName(|levels| - 1)) <= cut <= |log|
    ensures Marks(log[..cut], levels[..|levels| - 1])
  {
    forall k | 1 <= k < |levels| - 1
      ensures Newest(log[..cut], SavepointName(k)) == Newest(log, SavepointName(k))
    {
      assert Newest(log, SavepointName(k)) < Newest(log, SavepointName(|levels| - 1));
      NewestBelowCut(log, SavepointName(k), cut);
    }
  }

  /** The one call after which the actor and the stack part: a dropped autocommit restore. */
  predicate Leaks(t: Tx, c: Call) {
    c.op.StartRollback? && t.depth == 1 && !c.fate.second
  }

  predicate NoLeak(t: Tx, calls: seq<Call>)
    decreases |calls|
  {
    calls == [] || (!Leaks(t, calls[0]) && NoLeak(Step(t, calls[0]).0, calls[1..]))
  }

  lemma StackRunTwo(r: Stack, a: Op, b: Op)
    ensures StackRun(r, [a, b]) == StackStep(StackStep(r, a), b)
    ensures StackRun(r, [a]) == StackStep(r, a)
  {
    assert [a, b][1..] == [b];
    assert StackRun(StackStep(r, a), [b]) == StackStep(StackStep(r, a), b);
  }

  lemma StepRefines(t: Tx, r: Stack, c: Call)
    requires Refines(t, r) && !Leaks(t, c)
    ensures Refines(Step(t, c).0, StackRun(r, Meaning(t.depth, c)))
  {
    var n := |r.levels|;
    StackRunTwo(r, Commit, Begin);
    StackRunTwo(r, Rollback, Begin);
    StackRunTwo(r, c.op, Begin);
    match c.op
    case Begin =>
      if n > 0 {
        MarksPush(t.session.savepoints, r.levels, r.data);
      }
    case Commit =>
    case Rollback =>
      if n > 1 {
        MarksRollback(t, r, c.fate);
      }
    case StartRollback =>
      if n > 1 {
        MarksRollback(t, r, c.fate);
      }
    case Execute(_) =>
  }

  lemma MarksRollback(t: Tx, r: Stack, f: Fate)
    requires Refines(t, r) && t.depth > 1
    ensures CanRollbackTo(t.session, SavepointName(t.depth - 1))
    ensures var s := RollbackTo(t.session, SavepointName(t.depth - 1), true, f.kept);
            s.data == r.levels[t.depth - 1] && Marks(s.savepoints, r.levels[..t.depth - 1])
  {
    var log := t.session.savepoints;
    var at := Newest(log, SavepointName(t.depth - 1));
    var cut := if f.kept < at then at else if f.kept > |log| then |log| else f.kept;
    MarksCut(log, r.levels, cut);
  }

  lemma {:induction false} StackRunConcat(r: Stack, a: seq<Op>, b: seq<Op>)
    ensures StackRun(r, a + b) == StackRun(StackRun(r, a), b)
    decreases |a|
  {
    if a == [] {
      assert a + b == b;
    } else {
      assert (a + b)[1..] == a[1..] + b;
      StackRunConcat(StackStep(r, a[0]), a[1..], b);
    }
  }

  /** Every run refines the stack of snapshots, whatever ODBC calls fail. */
  lemma {:induction false} RunRefinesStack(t: Tx, r: Stack, calls: seq<Call>)
    requires Refines(t, r) && NoLeak(t, calls)
    ensures Refines(Run(t, calls), StackRun(r, Meanings(t, calls)))
    decreases |calls|
  {
    if calls != [] {
      var c := calls[0];
      StepRefines(t, r, c);
      RunRefinesStack(Step(t, c).0, StackRun(r, Meaning(t.depth, c)), calls[1..]);
      StackRunConcat(r, Meaning(t.depth, c), Meanings(Step(t, c).0, calls[1..]));
    }
  }

  ghost predicate Refinable(t: Tx) {
    exists r :: Refines(t, r)
  }

  /** The refinement holds at every point of a run exactly when no autocommit restore of a start_rollback was dropped. */
  lemma {:induction false} RefinableExactlyWithoutLeaks(t: Tx, calls: seq<Call>)
    requires Refinable(t)
    ensures NoLeak(t, calls) <==> forall n :: 0 <= n <= |calls| ==> Refinable(Run(t, calls[..n]))
    decreases |calls|
  {
    assert Run(t, calls[..0]) == t;
    if calls != [] {
      var c := calls[0];
      var next := Step(t, c).0;
      var r :| Refines(t, r);
      forall n | 1 <= n <= |calls|
        ensures Run(t, calls[..n]) == Run(next, calls[1..][..n - 1])
      {
        assert calls[..n][1..] == calls[1..][..n - 1];
      }
      if Leaks(t, c) {
        assert next.depth == 0 && !next.session.autocommit;
        assert !Refinable(Run(t, calls[..1]));
      } else {
        StepRefines(t, r, c);
        RefinableExactlyWithoutLeaks(next, calls[1..]);
        if forall n :: 0 <= n <= |calls| ==> Refinable(Run(t, calls[..n])) {
          forall n | 0 <= n <= |calls[1..]|
            ensures Refinable(Run(next, calls[1..][..n]))
          {
            assert Refinable(Run(t, calls[..n + 1]));
          }
        }
      }
    }
  }

  // ------------------------------------------------------------ what a caller gets from it

  function Height(n: nat, op: Op): nat {
    match op
    case Begin => n + 1
    case Commit => if n == 0 then 0 else n - 1
    case Rollback => if n == 0 then 0 else n - 1
    case _ => n
  }

  /** The stack, n levels high before `ops`, never gets lower than `floor`. */
  predicate StaysAbove(n: nat, floor: nat, ops: seq<Op>)
    decreases |ops|
  {
    floor <= n && (ops == [] || StaysAbove(Height(n, ops[0]), floor, ops[1..]))
  }

  lemma {:induction false} LevelsBelowAreKept(r: Stack, floor: nat, ops: seq<Op>)
    requires 0 < floor && StaysAbove(|r.levels|, floor, ops)
    ensures floor <= |StackRun(r, ops).levels|
    ensures StackRun(r, ops).levels[..floor] == r.levels[..floor]
    ensures StackRun(r, ops).durable == r.durable
    decreases |ops|
  {
    if ops != [] {
      assert |StackStep(r, ops[0]).levels| == Height(|r.levels|, ops[0]);
      assert StaysAbove(Height(|r.levels|, ops[0]), floor, ops[1..]);
      LevelsBelowAreKept(StackStep(r, ops[0]), floor, ops[1..]);
    }
  }

  /**
   * A transaction, at any nesting depth, is undone exactly: after its body, in
   * which transactions nest properly, rollback and start_rollback both restore
   * the data found at its begin, and nothing became durable in between.
   */
  lemma RollbackRestoresBegin(t: Tx, r: Stack, begin: Fate, body: seq<Call>, end: Fate)
    requires Refines(t, r) && begin.first
    requires var inside := HandleBegin(t, begin).0;
             && NoLeak(inside, body)
             && StaysAbove(t.depth + 1, t.depth + 1, Meanings(inside, body))
             && Run(inside, body).depth == t.depth + 1
    ensures var atEnd := Run(HandleBegin(t, begin).0, body);
            && atEnd.session.durable == t.session.durable
            && (HandleRollback(atEnd, end).1 <==> end.first && (t.depth == 0 ==> end.second))
            && (HandleRollback(atEnd, end).1 ==> HandleRollback(atEnd, end).0.depth == t.depth)
            && (end.first ==>
                  && HandleRollback(atEnd, end).0.session.data == t.session.data
                  && HandleStartRollback(atEnd, end).session.data == t.session.data
                  && HandleStartRollback(atEnd, end).session.durable == t.session.durable)
  {
    var inside := HandleBegin(t, begin).0;
    var ops := Meanings(inside, body);
    StackRunTwo(r, Begin, Begin);
    StepRefines(t, r, Call(Begin, begin));
    var pushed := StackStep(r, Begin);
    RunRefinesStack(inside, pushed, body);
    LevelsBelowAreKept(pushed, t.depth + 1, ops);
    var atEnd := Run(inside, body);
    var closing := StackRun(pushed, ops);
    assert closing.levels[t.depth] == closing.levels[..t.depth + 1][t.depth] == t.session.data;
    if t.depth > 0 {
      MarksRollback(atEnd, closing, end);
    }
  }

  /** With any call failing, also the leaking ones: a positive depth means manual commit mode. */
  lemma {:induction false} PositiveDepthIsManual(t: Tx, calls: seq<Call>)
    requires t.depth > 0 ==> !t.session.autocommit
    ensures Run(t, calls).depth > 0 ==> !Run(t, calls).session.autocommit
    decreases |calls|
  {
    if calls != [] {
      PositiveDepthIsManual(Step(t, calls[0]).0, calls[1..]);
    }
  }

  lemma StepKeepsWellFormed(t: Tx, c: Call)
    requires WellFormed(t.session)
    ensures WellFormed(Step(t, c).0.session)
  {
  }
}
