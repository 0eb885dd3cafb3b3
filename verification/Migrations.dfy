/** Applying and reverting a migration: fallible ODBC calls around a multi-statement batch. */
module Migrations {
  import opened Odbc
  import opened Transactions

  /** Outcomes of the calls around the batch. */
  datatype MigrationFate = MigrationFate(
    manual: bool,     // set_autocommit(false)
    allocate: bool,   // allocating the statement
    mark: bool,       // the tracking INSERT or DELETE
    commit: bool,
    undo: bool,       // rollback after a failed batch
    restore: bool     // set_autocommit(true)
  )

  /**
   * A batch of `statements` statements of which number `failsAt` (if any)
   * fails; `beyond` are statements that the server ran all the same before
   * the failure was seen.
   */
  datatype Batch = Batch(version: int, statements: nat, failsAt: nat, beyond: seq<nat>)

  predicate Succeeds(b: Batch) {
    b.failsAt >= b.statements
  }

  function Completed(version: int, n: nat): Data {
    seq(n, i requires 0 <= i < n => Ran(version, i))
  }

  /** What a failing statement leaves behind. */
  function Remains(b: Batch): Data {
    [Broke(b.version, b.failsAt)] + seq(|b.beyond|, i requires 0 <= i < |b.beyond| => Ran(b.version, b.beyond[i]))
  }

  function Effects(b: Batch): Data {
    if Succeeds(b) then Completed(b.version, b.statements)
    else Completed(b.version, b.failsAt) + Remains(b)
  }

  /** Both handlers; `mark` is the change to the tracking table. */
  function Migrate(s: Session, b: Batch, mark: Event, noTx: bool, f: MigrationFate): (Session, bool) {
    if !noTx && !f.manual then (s, false)
    else
      var started := if noTx then s else SetAutocommit(s, false, true);
      var walked := if f.allocate then Write(started, Effects(b)) else started;
      if !f.allocate || !Succeeds(b) then
        (if noTx then walked else SetAutocommit(Odbc.Rollback(walked, f.undo), true, f.restore), false)
      else if !f.mark then (walked, false)
      else
        var marked := Write(walked, [mark]);
        if noTx then (marked, true)
        else if !f.commit then (marked, false)
        else
          var committed := Odbc.Commit(marked, true);
          if !f.restore then (committed, false) else (SetAutocommit(committed, true, true), true)
  }

  function Apply(s: Session, b: Batch, noTx: bool, f: MigrationFate): (Session, bool) {
    Migrate(s, b, Recorded(b.version, b.statements), noTx, f)
  }

  function Revert(s: Session, b: Batch, noTx: bool, f: MigrationFate): (Session, bool) {
    Migrate(s, b, Erased(b.version), noTx, f)
  }

  // ------------------------------------------------------------ all or nothing

  /** Ok means batch and mark are durable, Err means nothing happened, and autocommit is on again. */
  predicate AllOrNothing(s: Session, s': Session, ok: bool, b: Batch, mark: Event) {
    && s'.autocommit
    && (ok ==> s'.durable == s'.data == s.data + Completed(b.version, b.statements) + [mark])
    && (!ok ==> s' == s)
  }

  /** In transactional mode, with only the calls inside the batch failing. */
  lemma MigrationIsAtomic(s: Session, b: Batch, mark: Event, allocate: bool)
    requires WellFormed(s) && s.autocommit
    ensures var (s', ok) := Migrate(s, b, mark, false, MigrationFate(true, allocate, true, true, true, true));
            AllOrNothing(s, s', ok, b, mark) && (ok <==> allocate && Succeeds(b))
  {
    AtomicExactly(s, b, mark, MigrationFate(true, allocate, true, true, true, true));
  }

  /** Over all failures: exactly which leave the migration all-or-nothing. */
  lemma AtomicExactly(s: Session, b: Batch, mark: Event, f: MigrationFate)
    requires WellFormed(s) && s.autocommit
    ensures var (s', ok) := Migrate(s, b, mark, false, f);
            AllOrNothing(s, s', ok, b, mark) <==>
              !f.manual ||
              (f.restore && if f.allocate && Succeeds(b) then f.mark && f.commit else f.undo || !f.allocate)
  {
    if !Succeeds(b) {
      assert |s.data + Effects(b)| > |s.data|;
    }
    assert s.data + Effects(b) + [mark] != s.data by {
      assert |s.data + Effects(b) + [mark]| > |s.data|;
    }
  }

  /** An outcome that is reported as an error although the migration is durable, or half durable. */
  lemma ErrorYetDurable(s: Session, b: Batch, mark: Event, f: MigrationFate)
    requires WellFormed(s) && s.autocommit
    requires !Migrate(s, b, mark, false, f).1
    ensures Migrate(s, b, mark, false, f).0.durable != s.durable <==>
            && f.manual && f.allocate
            && if Succeeds(b) then f.mark && f.commit else !f.undo && f.restore
  {
  }

  /** Without a transaction every statement that ran sticks, and a failed mark leaves the whole batch unrecorded. */
  lemma WithoutTransaction(s: Session, b: Batch, mark: Event, f: MigrationFate)
    requires WellFormed(s) && s.autocommit
    ensures var (s', ok) := Migrate(s, b, mark, true, f);
            && (ok <==> f.allocate && Succeeds(b) && f.mark)
            && s'.autocommit && s'.durable == s'.data
            && s'.data == s.data + (if f.allocate then Effects(b) else []) + (if ok then [mark] else [])
  {
  }

  // ------------------------------------------------------------ runs

  /** Everything the actor can be asked that touches the session. */
  datatype Command =
    | Transactional(call: Call)
    | ApplyMigration(batch: Batch, noTx: bool, fate: MigrationFate)
    | RevertMigration(batch: Batch, noTx: bool, fate: MigrationFate)

  function Serve(t: Tx, c: Command): Tx {
    match c
    case Transactional(call) => Step(t, call).0
    case ApplyMigration(b, noTx, f) => t.(session := Apply(t.session, b, noTx, f).0)
    case RevertMigration(b, noTx, f) => t.(session := Revert(t.session, b, noTx, f).0)
  }

  function ServeAll(t: Tx, commands: seq<Command>): Tx
    decreases |commands|
  {
    if commands == [] then t else ServeAll(Serve(t, commands[0]), commands[1..])
  }

  /** Every tracking record directly follows a complete, error-free run of its own batch. */
  ghost predicate Backed(h: Data) {
    forall i :: 0 <= i < |h| && h[i].Recorded? ==>
      && h[i].statements <= i
      && h[i - h[i].statements..i] == Completed(h[i].version, h[i].statements)
  }

  ghost predicate AllBacked(s: Session) {
    && Backed(s.durable) && Backed(s.data)
    && forall p <- s.savepoints :: Backed(p.data)
  }

  /** User SQL leaves the tracking table alone. */
  predicate Plain(events: Data) {
    forall e <- events :: !e.Recorded?
  }

  predicate PlainCommand(c: Command) {
    c.Transactional? && c.call.op.Execute? ==> Plain(c.call.op.events)
  }

  lemma BackedPlain(h: Data, events: Data)
    requires Backed(h) && Plain(events)
    ensures Backed(h + events)
  {
    var g := h + events;
    assert forall j :: 0 <= j < |events| ==> !events[j].Recorded?;
    forall i | 0 <= i < |g| && g[i].Recorded?
      ensures g[i].statements <= i && g[i - g[i].statements..i] == Completed(g[i].version, g[i].statements)
    {
      assert i < |h|;
      assert g[i - g[i].statements..i] == h[i - h[i].statements..i];
    }
  }

  lemma BackedRecord(h: Data, version: int, n: nat)
    requires Backed(h)
    ensures Backed(h + Completed(version, n) + [Recorded(version, n)])
  {
    var walked := h + Completed(version, n);
    BackedPlain(h, Completed(version, n));
    var g := walked + [Recorded(version, n)];
    forall i | 0 <= i < |g| && g[i].Recorded?
      ensures g[i].statements <= i && g[i - g[i].statements..i] == Completed(g[i].version, g[i].statements)
    {
      if i < |walked| {
        assert g[i - g[i].statements..i] == walked[i - walked[i].statements..i];
      } else {
        assert g[i - n..i] == Completed(version, n);
      }
    }
  }

  lemma WriteBacked(s: Session, events: Data)
    requires AllBacked(s) && Plain(events)
    ensures AllBacked(Write(s, events))
  {
    BackedPlain(s.data, events);
  }

  lemma MigrateBacked(s: Session, b: Batch, mark: Event, noTx: bool, f: MigrationFate)
    requires AllBacked(s)
    requires mark == Recorded(b.version, b.statements) || mark == Erased(b.version)
    ensures AllBacked(Migrate(s, b, mark, noTx, f).0)
  {
    var started := if noTx then s else SetAutocommit(s, false, f.manual);
    assert AllBacked(started);
    WriteBacked(started, Effects(b));
    if Succeeds(b) {
      if mark.Recorded? {
        BackedRecord(started.data, b.version, b.statements);
      } else {
        WriteBacked(Write(started, Effects(b)), [mark]);
      }
    }
  }

  /**
   * Over every run, with any ODBC call failing, in either transaction mode and
   * mixed with any transactions: what is durable holds a tracking record only
   * right behind the complete batch it records.
   */
  lemma {:induction false} RecordsAreBacked(t: Tx, commands: seq<Command>)
    requires AllBacked(t.session)
    requires forall c <- commands :: PlainCommand(c)
    ensures AllBacked(ServeAll(t, commands).session)
    decreases |commands|
  {
    if commands != [] {
      var c := commands[0];
      match c {
        case Transactional(call) =>
          assert PlainCommand(c);
          if call.op.Execute? {
            WriteBacked(t.session, call.op.events);
          }
          StepBacked(t, call);
        case ApplyMigration(b, noTx, f) => MigrateBacked(t.session, b, Recorded(b.version, b.statements), noTx, f);
        case RevertMigration(b, noTx, f) => MigrateBacked(t.session, b, Erased(b.version), noTx, f);
      }
      RecordsAreBacked(Serve(t, c), commands[1..]);
    }
  }

  lemma StepBacked(t: Tx, call: Call)
    requires AllBacked(t.session) && (call.op.Execute? ==> AllBacked(Write(t.session, call.op.events)))
    ensures AllBacked(Step(t, call).0.session)
  {
    var at := Newest(t.session.savepoints, SavepointName(if t.depth > 0 then t.depth - 1 else 0));
    assert at >= 0 ==> t.session.savepoints[at] in t.session.savepoints;
  }

  lemma ServeKeepsWellFormed(t: Tx, c: Command)
    requires WellFormed(t.session)
    ensures WellFormed(Serve(t, c).session)
  {
    if c.Transactional? {
      StepKeepsWellFormed(t, c.call);
    }
  }

  // ------------------------------------------------------------ autocommit

  /** In transactional mode a migration ends in autocommit mode exactly when it got as far as restoring it. */
  predicate Restores(b: Batch, f: MigrationFate) {
    f.manual && f.restore && (f.allocate && Succeeds(b) ==> f.mark && f.commit)
  }

  predicate AtDepthZero(t: Tx, commands: seq<Command>)
    decreases |commands|
  {
    commands == [] ||
    ((!commands[0].Transactional? ==> t.depth == 0) && AtDepthZero(Serve(t, commands[0]), commands[1..]))
  }

  /** With migrations only at depth 0 and any call failing, a positive depth means manual commit mode. */
  lemma {:induction false} PositiveDepthStaysManual(t: Tx, commands: seq<Command>)
    requires (t.depth > 0 ==> !t.session.autocommit) && AtDepthZero(t, commands)
    ensures var end := ServeAll(t, commands); end.depth > 0 ==> !end.session.autocommit
    decreases |commands|
  {
    if commands != [] {
      var c := commands[0];
      if c.Transactional? {
        PositiveDepthIsManual(t, [c.call]);
        assert Run(Step(t, c.call).0, [c.call][1..]) == Step(t, c.call).0;
      }
      PositiveDepthStaysManual(Serve(t, c), commands[1..]);
    }
  }

  /** Inside a transaction a migration breaks that exactly when it restores autocommit. */
  lemma MigrationInsideTransaction(t: Tx, b: Batch, mark: Event, noTx: bool, f: MigrationFate)
    requires t.depth > 0 && !t.session.autocommit
    ensures Migrate(t.session, b, mark, noTx, f).0.autocommit <==> !noTx && Restores(b, f)
  {
  }
}
