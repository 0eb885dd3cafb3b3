/** Which migrations stand as recorded: read from the tracking table, and told from the run that filled it. */
module Tracking {
  import opened Text
  import opened Odbc
  import opened Transactions
  import opened Migrations

  // ------------------------------------------------------------ what the table says

  predicate IsMark(e: Event) {
    e.Recorded? || e.Erased?
  }

  predicate MarksVersion(e: Event, version: int) {
    IsMark(e) && e.version == version
  }

  /** Position of the last mark of a version, or -1. */
  function LastMark(h: Data, version: int): (r: int)
    ensures -1 <= r < |h|
    ensures r >= 0 ==> MarksVersion(h[r], version)
    ensures forall i :: r < i < |h| ==> !MarksVersion(h[i], version)
  {
    if h == [] then -1
    else if MarksVersion(h[|h| - 1], version) then |h| - 1
    else LastMark(h[..|h| - 1], version)
  }

  /** The version counts as applied: its last mark is a record. */
  predicate Stands(h: Data, version: int) {
    LastMark(h, version) >= 0 && h[LastMark(h, version)].Recorded?
  }

  predicate Unmarked(events: Data) {
    forall i :: 0 <= i < |events| ==> !IsMark(events[i])
  }

  lemma LastMarkIs(h: Data, version: int, at: int)
    requires -1 <= at < |h| && (at >= 0 ==> MarksVersion(h[at], version))
    requires forall i :: at < i < |h| ==> !MarksVersion(h[i], version)
    ensures LastMark(h, version) == at
  {
  }

  lemma UnmarkedChangesNothing(h: Data, events: Data, version: int)
    requires Unmarked(events)
    ensures LastMark(h + events, version) == LastMark(h, version) && (Stands(h + events, version) <==> Stands(h, version))
  {
    var g := h + events;
    forall i | |h| <= i < |g|
      ensures !IsMark(g[i])
    {
      assert g[i] == events[i - |h|];
    }
    LastMarkIs(g, version, LastMark(h, version));
  }

  lemma MarkDecides(h: Data, mark: Event, version: int)
    requires IsMark(mark)
    ensures Stands(h + [mark], version) <==> if mark.version == version then mark.Recorded? else Stands(h, version)
  {
    var g := h + [mark];
    LastMarkIs(g, version, if mark.version == version then |h| else LastMark(h, version));
  }

  lemma BatchIsUnmarked(b: Batch)
    ensures Unmarked(Completed(b.version, b.statements)) && Unmarked(Effects(b)) && Unmarked(Remains(b))
  {
    assert Unmarked(Completed(b.version, b.failsAt)) && Unmarked(Remains(b));
  }

  // ------------------------------------------------------------ one migration

  lemma MarkedData(h: Data, b: Batch, mark: Event, version: int)
    requires IsMark(mark)
    ensures Stands(h + Completed(b.version, b.statements) + [mark], version) <==>
            if mark.version == version then mark.Recorded? else Stands(h, version)
  {
    BatchIsUnmarked(b);
    UnmarkedChangesNothing(h, Completed(b.version, b.statements), version);
    MarkDecides(h + Completed(b.version, b.statements), mark, version);
  }

  /** An apply that is answered Ok leaves its version standing right behind its complete batch, durably unless inside a transaction. */
  lemma AppliedStands(s: Session, b: Batch, noTx: bool, f: MigrationFate)
    requires WellFormed(s) && Apply(s, b, noTx, f).1
    ensures var s' := Apply(s, b, noTx, f).0;
            && s'.data == s.data + Completed(b.version, b.statements) + [Recorded(b.version, b.statements)]
            && Stands(s'.data, b.version)
            && (s.autocommit || !noTx ==> s'.autocommit && s'.durable == s'.data)
  {
    MarkedData(s.data, b, Recorded(b.version, b.statements), b.version);
  }

  /** After a revert that is answered Ok the version does not stand. */
  lemma RevertedDoesNotStand(s: Session, b: Batch, noTx: bool, f: MigrationFate)
    requires WellFormed(s) && Revert(s, b, noTx, f).1
    ensures var s' := Revert(s, b, noTx, f).0;
            && s'.data == s.data + Completed(b.version, b.statements) + [Erased(b.version)]
            && !Stands(s'.data, b.version)
            && (s.autocommit || !noTx ==> s'.autocommit && s'.durable == s'.data)
  {
    MarkedData(s.data, b, Erased(b.version), b.version);
  }

  /** Nothing, the batch as far as it ran, or that and the mark. */
  predicate OneOfThree(h: Data, before: Data, b: Batch, mark: Event) {
    h == before || h == before + Effects(b) || h == before + Effects(b) + [mark]
  }

  lemma WhereItEnds(s: Session, b: Batch, mark: Event, noTx: bool, f: MigrationFate)
    requires WellFormed(s) && s.autocommit
    ensures var s' := Migrate(s, b, mark, noTx, f).0;
            OneOfThree(s'.data, s.data, b, mark) && OneOfThree(s'.durable, s.data, b, mark)
  {
  }

  /** However it ends, a migration from autocommit mode changes nothing for any other version. */
  lemma OtherVersionsStay(s: Session, b: Batch, mark: Event, noTx: bool, f: MigrationFate, version: int)
    requires WellFormed(s) && s.autocommit && IsMark(mark) && mark.version == b.version != version
    ensures var s' := Migrate(s, b, mark, noTx, f).0;
            (Stands(s'.durable, version) <==> Stands(s.durable, version)) && (Stands(s'.data, version) <==> Stands(s.data, version))
  {
    WhereItEnds(s, b, mark, noTx, f);
    ThreeStandAlike(s.data, b, mark, version);
  }

  lemma ThreeStandAlike(h: Data, b: Batch, mark: Event, version: int)
    requires IsMark(mark) && mark.version != version
    ensures Stands(h + Effects(b), version) <==> Stands(h, version)
    ensures Stands(h + Effects(b) + [mark], version) <==> Stands(h, version)
  {
    BatchIsUnmarked(b);
    UnmarkedChangesNothing(h, Effects(b), version);
    MarkDecides(h + Effects(b), mark, version);
  }

  // ------------------------------------------------------------ the data of a run

  /**
   * What is durable comes first in all that the session can return to, and
   * the savepoints that a rollback can name hold ever longer stretches of the
   * data.  This survives every failure, also those that leak a transaction.
   */
  ghost predicate Nested(t: Tx) {
    Grounded(t.session) && Layered(t.session, t.depth)
  }

  ghost predicate Grounded(s: Session) {
    && WellFormed(s) && s.durable <= s.data
    && forall p <- s.savepoints :: s.durable <= p.data
  }

  ghost predicate Layered(s: Session, depth: nat) {
    && (forall k :: 1 <= k < depth && Named(s, k) >= 0 ==> s.savepoints[Named(s, k)].data <= s.data)
    && (forall j, k :: 1 <= j < k < depth && Named(s, j) >= 0 && Named(s, k) >= 0 ==>
          Named(s, j) < Named(s, k) && s.savepoints[Named(s, j)].data <= s.savepoints[Named(s, k)].data)
  }

  function Named(s: Session, k: nat): (r: int)
    ensures -1 <= r < |s.savepoints|
  {
    Newest(s.savepoints, SavepointName(k))
  }

  lemma WriteKeepsNested(t: Tx, events: Data)
    requires Nested(t)
    ensures Nested(t.(session := Write(t.session, events)))
    ensures t.session.durable <= Write(t.session, events).durable
  {
    WriteKeepsGrounded(t.session, events);
    WriteKeepsLayered(t.session, t.depth, events);
  }

  lemma WriteKeepsGrounded(s: Session, events: Data)
    requires Grounded(s)
    ensures Grounded(Write(s, events))
  {
    PrefixOfMore(s.durable, s.data, events);
  }

  lemma WriteKeepsLayered(s: Session, depth: nat, events: Data)
    requires Layered(s, depth)
    ensures Layered(Write(s, events), depth)
  {
    var s' := Write(s, events);
    forall k: nat
      ensures Named(s', k) == Named(s, k)
    {
    }
    forall k: nat | 1 <= k < depth && Named(s', k) >= 0
      ensures s'.savepoints[Named(s', k)].data <= s'.data
    {
      PrefixOfMore(s.savepoints[Named(s, k)].data, s.data, events);
    }
  }

  lemma PrefixOfMore(a: Data, b: Data, c: Data)
    requires a <= b
    ensures a <= b + c
  {
  }

  lemma ClearedIsNested(t: Tx)
    requires WellFormed(t.session) && t.session.savepoints == [] && t.session.durable <= t.session.data
    ensures Nested(t)
  {
    forall k: nat
      ensures Named(t.session, k) == -1
    {
    }
  }

  lemma LowerIsNested(t: Tx, depth: nat)
    requires Nested(t) && depth <= t.depth
    ensures Nested(t.(depth := depth))
  {
  }

  lemma SaveKeepsNested(t: Tx)
    requires Nested(t) && t.depth > 0
    ensures Nested(Tx(Save(t.session, SavepointName(t.depth), true), t.depth + 1)) || !CanSave(t.session)
  {
    if CanSave(t.session) {
      var p := Savepoint(SavepointName(t.depth), t.session.data);
      var s' := Save(t.session, SavepointName(t.depth), true);
      forall k: nat | 1 <= k <= t.depth
        ensures Named(s', k) == if k == t.depth then |t.session.savepoints| else Named(t.session, k)
      {
        NewestOfExtension(t.session.savepoints, p, SavepointName(k));
        if p.name == SavepointName(k) {
          SavepointNameInjective(t.depth, k);
        }
      }
    }
  }

  lemma NewestOfCut(log: seq<Savepoint>, name: string, cut: nat)
    requires cut <= |log| && Newest(log, name) < cut
    ensures Newest(log[..cut], name) == Newest(log, name)
  {
    if Newest(log, name) >= 0 {
      NewestBelowCut(log, name, cut);
    }
  }

  lemma RollbackToKeepsNested(t: Tx, ok: bool, kept: nat)
    requires Nested(t) && t.depth > 1
    ensures var s' := RollbackTo(t.session, SavepointName(t.depth - 1), ok, kept);
            Nested(Tx(s', t.depth - 1)) && s'.data <= t.session.data
  {
    var s, top := t.session, Named(t.session, t.depth - 1);
    var s' := RollbackTo(s, SavepointName(t.depth - 1), ok, kept);
    if ok && top >= 0 {
      CutKeepsLayered(s, t.depth - 1, top, |s'.savepoints|);
      CutKeepsGrounded(s, top, |s'.savepoints|);
    } else {
      LowerIsNested(t, t.depth - 1);
    }
  }

  /** The session back at savepoint `at`, with the log cut. */
  function CutBack(s: Session, at: nat, cut: nat): Session
    requires at < |s.savepoints| && cut <= |s.savepoints|
  {
    s.(data := s.savepoints[at].data, savepoints := s.savepoints[..cut])
  }

  lemma CutKeepsGrounded(s: Session, at: nat, cut: nat)
    requires Grounded(s) && at < |s.savepoints| && cut <= |s.savepoints|
    ensures Grounded(CutBack(s, at, cut))
  {
    assert forall p <- s.savepoints[..cut] :: p in s.savepoints;
    assert s.savepoints[at] in s.savepoints;
  }

  lemma CutKeepsLayered(s: Session, depth: nat, at: nat, cut: nat)
    requires depth > 0 && Layered(s, depth + 1) && Named(s, depth) == at <= cut <= |s.savepoints|
    ensures Layered(CutBack(s, at, cut), depth)
  {
    var s' := CutBack(s, at, cut);
    forall k: nat | 1 <= k < depth
      ensures Named(s', k) == Named(s, k) < at
    {
      assert Named(s, k) >= 0 ==> Named(s, k) < Named(s, depth);
      NewestOfCut(s.savepoints, SavepointName(k), cut);
    }
  }

  // ------------------------------------------------------------ steps and runs

  /** A command that user SQL plays no tricks with. */
  predicate Fair(c: Command) {
    c.Transactional? && c.call.op.Execute? ==> Unmarked(c.call.op.events)
  }

  function MarkOf(c: Command): Event
    requires !c.Transactional?
  {
    if c.ApplyMigration? then Recorded(c.batch.version, c.batch.statements) else Erased(c.batch.version)
  }

  /** The migration ran its whole batch and made its mark. */
  predicate Reaches(t: Tx, c: Command) {
    && !c.Transactional?
    && Serve(t, c).session.data == t.session.data + Completed(c.batch.version, c.batch.statements) + [MarkOf(c)]
  }

  /** What one command does to the data: takes back, adds without a mark, or makes exactly its mark. */
  ghost predicate Moves(t: Tx, c: Command) {
    var before, after := t.session.data, Serve(t, c).session.data;
    after <= before || Reaches(t, c) || (before <= after && Unmarked(after[|before|..]))
  }

  lemma TransactionMoves(t: Tx, call: Call)
    requires Nested(t) && Fair(Transactional(call))
    ensures Nested(Step(t, call).0) && Moves(t, Transactional(call))
    ensures t.session.durable <= Step(t, call).0.session.durable
  {
    match call.op
    case Begin =>
      if t.depth > 0 && call.fate.first {
        SaveKeepsNested(t);
      }
    case Commit =>
      CommitMoves(t, call.fate);
    case Rollback =>
      RollbackMoves(t, call.fate);
    case StartRollback =>
      StartRollbackMoves(t, call.fate);
    case Execute(events) =>
      WriteKeepsNested(t, events);
      assert (t.session.data + events)[|t.session.data|..] == events;
  }

  lemma CommitMoves(t: Tx, f: Fate)
    requires Nested(t)
    ensures Nested(HandleCommit(t, f).0) && HandleCommit(t, f).0.session.data == t.session.data
    ensures t.session.durable <= HandleCommit(t, f).0.session.durable
  {
    if t.depth == 1 && f.first {
      ClearedIsNested(HandleCommit(t, f).0);
    } else if t.depth > 1 {
      LowerIsNested(t, t.depth - 1);
    }
  }

  lemma RollbackMoves(t: Tx, f: Fate)
    requires Nested(t)
    ensures Nested(HandleRollback(t, f).0) && HandleRollback(t, f).0.session.data <= t.session.data
    ensures t.session.durable <= HandleRollback(t, f).0.session.durable
  {
    if t.depth == 1 && f.first {
      ClearedIsNested(HandleRollback(t, f).0);
    } else if t.depth > 1 {
      RollbackToKeepsNested(t, true, f.kept);
    }
  }

  lemma StartRollbackMoves(t: Tx, f: Fate)
    requires Nested(t)
    ensures Nested(HandleStartRollback(t, f)) && HandleStartRollback(t, f).session.data <= t.session.data
    ensures t.session.durable <= HandleStartRollback(t, f).session.durable
  {
    if t.depth == 1 {
      if f.first || f.second {
        ClearedIsNested(HandleStartRollback(t, f));
      } else {
        LowerIsNested(t, 0);
      }
    } else if t.depth > 1 {
      RollbackToKeepsNested(t, f.first, f.kept);
    }
  }

  lemma ManualKeepsNested(t: Tx)
    requires Nested(t)
    ensures Nested(t.(session := SetAutocommit(t.session, false, true)))
  {
  }

  /** A migration gives up its batch: to the durable data, or not at all. */
  lemma GivenUp(t: Tx, walked: Session, f: MigrationFate)
    requires Nested(t.(session := walked))
    ensures var s' := SetAutocommit(Odbc.Rollback(walked, f.undo), true, f.restore);
            Nested(t.(session := s')) && (s'.data == walked.data || s'.data == walked.durable) && walked.durable <= s'.durable
  {
    var s' := SetAutocommit(Odbc.Rollback(walked, f.undo), true, f.restore);
    if f.undo || f.restore {
      ClearedIsNested(t.(session := s'));
    }
  }

  lemma SealedIsNested(t: Tx, marked: Session, f: MigrationFate)
    requires Nested(t.(session := marked))
    ensures var committed := Odbc.Commit(marked, true);
            Nested(t.(session := if f.restore then SetAutocommit(committed, true, true) else committed))
  {
    var committed := Odbc.Commit(marked, true);
    ClearedIsNested(t.(session := if f.restore then SetAutocommit(committed, true, true) else committed));
  }

  /** The session when the batch is to run. */
  function Started(s: Session, noTx: bool): Session {
    if noTx then s else SetAutocommit(s, false, true)
  }

  lemma StartedIsNested(t: Tx, noTx: bool)
    requires Nested(t)
    ensures Nested(t.(session := Started(t.session, noTx))) && Started(t.session, noTx).data == t.session.data
  {
    ManualKeepsNested(t);
  }

  lemma FailedBatchMoves(t: Tx, b: Batch, noTx: bool, f: MigrationFate)
    requires Nested(t)
    ensures var started := Started(t.session, noTx);
            var walked := if f.allocate then Write(started, Effects(b)) else started;
            var s' := if noTx then walked else SetAutocommit(Odbc.Rollback(walked, f.undo), true, f.restore);
            && Nested(t.(session := s'))
            && (s'.data <= t.session.data || s'.data == t.session.data + Effects(b))
            && t.session.durable <= s'.durable
  {
    var started := Started(t.session, noTx);
    var walked := if f.allocate then Write(started, Effects(b)) else started;
    StartedIsNested(t, noTx);
    WriteKeepsNested(t.(session := started), Effects(b));
    if !noTx {
      GivenUp(t, walked, f);
    }
  }

  lemma MarkedBatchMoves(t: Tx, b: Batch, mark: Event, noTx: bool, f: MigrationFate)
    requires Nested(t)
    ensures var walked := Write(Started(t.session, noTx), Effects(b));
            var marked := Write(walked, [mark]);
            var committed := Odbc.Commit(marked, true);
            && Nested(t.(session := walked)) && Nested(t.(session := marked))
            && Nested(t.(session := if f.restore then SetAutocommit(committed, true, true) else committed))
            && walked.data == t.session.data + Effects(b) && marked.data == t.session.data + Effects(b) + [mark]
            && t.session.durable <= walked.durable <= marked.durable <= committed.durable
  {
    var started := Started(t.session, noTx);
    var walked := Write(started, Effects(b));
    StartedIsNested(t, noTx);
    WriteKeepsNested(t.(session := started), Effects(b));
    WriteKeepsNested(t.(session := walked), [mark]);
    SealedIsNested(t, Write(walked, [mark]), f);
  }

  lemma FailedMigrationMoves(t: Tx, c: Command)
    requires Nested(t) && !c.Transactional? && (c.noTx || c.fate.manual) && !(c.fate.allocate && Succeeds(c.batch))
    ensures Nested(Serve(t, c)) && Moves(t, c) && t.session.durable <= Serve(t, c).session.durable
  {
    BatchIsUnmarked(c.batch);
    AddedAre(t.session.data, Effects(c.batch));
    FailedBatchMoves(t, c.batch, c.noTx, c.fate);
  }

  lemma RunMigrationMoves(t: Tx, c: Command)
    requires Nested(t) && !c.Transactional? && (c.noTx || c.fate.manual) && c.fate.allocate && Succeeds(c.batch)
    ensures Nested(Serve(t, c)) && Moves(t, c) && t.session.durable <= Serve(t, c).session.durable
  {
    BatchIsUnmarked(c.batch);
    AddedAre(t.session.data, Effects(c.batch));
    MarkedBatchMoves(t, c.batch, MarkOf(c), c.noTx, c.fate);
  }

  lemma MigrationMoves(t: Tx, c: Command)
    requires Nested(t) && !c.Transactional?
    ensures Nested(Serve(t, c)) && Moves(t, c) && t.session.durable <= Serve(t, c).session.durable
  {
    if !c.noTx && !c.fate.manual {
      assert Serve(t, c) == t;
    } else if c.fate.allocate && Succeeds(c.batch) {
      RunMigrationMoves(t, c);
    } else {
      FailedMigrationMoves(t, c);
    }
  }

  lemma AddedAre(before: Data, events: Data)
    ensures before <= before + events && (before + events)[|before|..] == events
  {
  }

  lemma CommandMoves(t: Tx, c: Command)
    requires Nested(t) && Fair(c)
    ensures Nested(Serve(t, c)) && Moves(t, c) && t.session.durable <= Serve(t, c).session.durable
  {
    if c.Transactional? {
      TransactionMoves(t, c.call);
    } else {
      MigrationMoves(t, c);
    }
  }

  /** The state after the first `n` commands. */
  function After(t: Tx, commands: seq<Command>, n: nat): Tx
    requires n <= |commands|
  {
    if n == 0 then t else Serve(After(t, commands, n - 1), commands[n - 1])
  }

  lemma {:induction false} AfterIsServed(t: Tx, commands: seq<Command>, n: nat)
    requires n <= |commands|
    ensures After(t, commands, n) == ServeAll(t, commands[..n])
    decreases n
  {
    if n > 0 {
      AfterIsServed(t, commands, n - 1);
      LastServed(t, commands[..n - 1], commands[n - 1]);
      assert commands[..n] == commands[..n - 1] + [commands[n - 1]];
    }
  }

  lemma {:induction false} LastServed(t: Tx, commands: seq<Command>, c: Command)
    ensures ServeAll(t, commands + [c]) == Serve(ServeAll(t, commands), c)
    decreases |commands|
  {
    if commands == [] {
      assert (commands + [c])[1..] == [];
      assert ServeAll(Serve(t, c), []) == Serve(t, c);
    } else {
      RestOfConcat(commands, [c]);
      LastServed(Serve(t, commands[0]), commands[1..], c);
    }
  }

  ghost predicate FairRun(t: Tx, commands: seq<Command>) {
    Nested(t) && forall i :: 0 <= i < |commands| ==> Fair(commands[i])
  }

  lemma {:induction false} RunIsNested(t: Tx, commands: seq<Command>, n: nat)
    requires FairRun(t, commands) && n <= |commands|
    ensures Nested(After(t, commands, n)) && t.session.durable <= After(t, commands, n).session.durable
    decreases n
  {
    if n > 0 {
      RunIsNested(t, commands, n - 1);
      CommandMoves(After(t, commands, n - 1), commands[n - 1]);
    }
  }

  function DataAt(t: Tx, commands: seq<Command>, n: nat): Data
    requires n <= |commands|
  {
    After(t, commands, n).session.data
  }

  /** Command `i` made its mark, as the last event at that moment. */
  predicate MarkMade(t: Tx, commands: seq<Command>, i: nat)
    requires i < |commands|
  {
    Reaches(After(t, commands, i), commands[i])
  }

  function MarkPosition(t: Tx, commands: seq<Command>, i: nat): int
    requires i < |commands|
  {
    |DataAt(t, commands, i + 1)| - 1
  }

  /** Nothing took the event at `p` back between two moments. */
  ghost predicate Untouched(t: Tx, commands: seq<Command>, p: int, lo: nat, hi: nat)
    requires hi <= |commands|
  {
    forall j :: lo <= j <= hi ==> p < |DataAt(t, commands, j)|
  }

  lemma KeptEvent(t: Tx, c: Command, p: nat)
    requires Nested(t) && Fair(c) && p < |t.session.data| && p < |Serve(t, c).session.data|
    ensures Serve(t, c).session.data[p] == t.session.data[p]
  {
    CommandMoves(t, c);
  }

  lemma KeptInRun(t: Tx, commands: seq<Command>, p: nat, n: nat)
    requires FairRun(t, commands) && 0 < n <= |commands|
    requires p < |DataAt(t, commands, n - 1)| && p < |DataAt(t, commands, n)|
    ensures DataAt(t, commands, n)[p] == DataAt(t, commands, n - 1)[p]
  {
    RunIsNested(t, commands, n - 1);
    KeptEvent(After(t, commands, n - 1), commands[n - 1], p);
  }

  /** An event that is not taken back stays what it is. */
  lemma {:induction false} UntouchedStays(t: Tx, commands: seq<Command>, p: nat, lo: nat, hi: nat)
    requires FairRun(t, commands) && lo <= hi <= |commands| && Untouched(t, commands, p, lo, hi)
    ensures DataAt(t, commands, hi)[p] == DataAt(t, commands, lo)[p]
    decreases hi
  {
    if lo != hi {
      UntouchedStays(t, commands, p, lo, hi - 1);
      assert p < |DataAt(t, commands, hi)| && p < |DataAt(t, commands, hi - 1)|;
      KeptInRun(t, commands, p, hi);
    }
  }

  /** Every mark that the run added to the data was made by some migration and not taken back since. */
  lemma {:induction false} MarkHasOrigin(t: Tx, commands: seq<Command>, p: nat, n: nat) returns (i: nat)
    requires FairRun(t, commands) && n <= |commands|
    requires |t.session.data| <= p < |DataAt(t, commands, n)| && IsMark(DataAt(t, commands, n)[p])
    ensures i < n && MarkMade(t, commands, i) && MarkPosition(t, commands, i) == p && Untouched(t, commands, p, i + 1, n)
    ensures DataAt(t, commands, n)[p] == MarkOf(commands[i])
    decreases n
  {
    i := 0;
    if n > 0 {
      if p < |DataAt(t, commands, n - 1)| {
        KeptInRun(t, commands, p, n);
        i := MarkHasOrigin(t, commands, p, n - 1);
        UntouchedOnceMore(t, commands, p, i + 1, n);
      } else {
        i := n - 1;
        MarkOriginatesNow(t, commands, p, n);
      }
    }
  }

  lemma UntouchedOnceMore(t: Tx, commands: seq<Command>, p: nat, lo: nat, hi: nat)
    requires 0 < hi <= |commands| && Untouched(t, commands, p, lo, hi - 1) && p < |DataAt(t, commands, hi)|
    ensures Untouched(t, commands, p, lo, hi)
  {
  }

  lemma MarkOriginatesNow(t: Tx, commands: seq<Command>, p: nat, n: nat)
    requires FairRun(t, commands) && 0 < n <= |commands|
    requires |DataAt(t, commands, n - 1)| <= p < |DataAt(t, commands, n)| && IsMark(DataAt(t, commands, n)[p])
    ensures MarkMade(t, commands, n - 1) && MarkPosition(t, commands, n - 1) == p && Untouched(t, commands, p, n, n)
    ensures DataAt(t, commands, n)[p] == MarkOf(commands[n - 1])
  {
    RunIsNested(t, commands, n - 1);
    CommandMoves(After(t, commands, n - 1), commands[n - 1]);
    NewMarkIsLast(After(t, commands, n - 1), commands[n - 1], p);
  }

  lemma NewMarkIsLast(t: Tx, c: Command, p: nat)
    requires Moves(t, c) && |t.session.data| <= p < |Serve(t, c).session.data| && IsMark(Serve(t, c).session.data[p])
    ensures Reaches(t, c) && p == |Serve(t, c).session.data| - 1 && Serve(t, c).session.data[p] == MarkOf(c)
  {
    var before, after := t.session.data, Serve(t, c).session.data;
    if Reaches(t, c) {
      BatchIsUnmarked(c.batch);
      forall q | |before| <= q < |after| - 1
        ensures !IsMark(after[q])
      {
        assert after[q] == Completed(c.batch.version, c.batch.statements)[q - |before|];
      }
    } else if before <= after && Unmarked(after[|before|..]) {
      AddedUnmarked(before, after);
    }
  }

  lemma AddedUnmarked(before: Data, after: Data)
    requires before <= after && Unmarked(after[|before|..])
    ensures forall q :: |before| <= q < |after| ==> !IsMark(after[q])
  {
    var added := after[|before|..];
    assert after == before + added;
  }

  // ------------------------------------------------------------ the migration that decides

  /** Migration `i` of that version made its mark and the mark is among what is durable in the end. */
  ghost predicate ReachedDurably(t: Tx, commands: seq<Command>, version: int, i: nat) {
    && i < |commands| && !commands[i].Transactional? && commands[i].batch.version == version
    && MarkMade(t, commands, i)
    && MarkPosition(t, commands, i) < |After(t, commands, |commands|).session.durable|
    && Untouched(t, commands, MarkPosition(t, commands, i), i + 1, |commands|)
  }

  /** It is the last one of that version. */
  ghost predicate Decides(t: Tx, commands: seq<Command>, version: int, i: nat) {
    && ReachedDurably(t, commands, version, i)
    && forall k :: i < k < |commands| ==> !ReachedDurably(t, commands, version, k)
  }

  lemma MarkAtMaking(t: Tx, commands: seq<Command>, i: nat)
    requires i < |commands| && MarkMade(t, commands, i)
    ensures MarkPosition(t, commands, i) >= |DataAt(t, commands, i)|
    ensures DataAt(t, commands, i + 1)[MarkPosition(t, commands, i)] == MarkOf(commands[i])
  {
  }

  lemma DurableMark(t: Tx, commands: seq<Command>, version: int, i: nat)
    requires FairRun(t, commands) && ReachedDurably(t, commands, version, i)
    ensures var durable, p := After(t, commands, |commands|).session.durable, MarkPosition(t, commands, i);
            0 <= p < |durable| && durable[p] == MarkOf(commands[i]) && MarksVersion(durable[p], version)
  {
    var n, p := |commands|, MarkPosition(t, commands, i);
    MarkAtMaking(t, commands, i);
    UntouchedStays(t, commands, p, i + 1, n);
    RunIsNested(t, commands, n);
    assert After(t, commands, n).session.durable <= DataAt(t, commands, n);
  }

  /** Later marks that stay stand further back. */
  lemma LaterMarksFurther(t: Tx, commands: seq<Command>, version: int, i: nat, k: nat)
    requires i < k && ReachedDurably(t, commands, version, i) && ReachedDurably(t, commands, version, k)
    ensures MarkPosition(t, commands, i) < MarkPosition(t, commands, k)
  {
    assert MarkPosition(t, commands, i) < |DataAt(t, commands, k)|;
  }

  lemma LastMarkDecides(t: Tx, commands: seq<Command>, version: int) returns (i: nat)
    requires FairRun(t, commands)
    requires LastMark(After(t, commands, |commands|).session.durable, version) >= |t.session.data|
    ensures Decides(t, commands, version, i)
    ensures MarkPosition(t, commands, i) == LastMark(After(t, commands, |commands|).session.durable, version)
  {
    var n := |commands|;
    var durable := After(t, commands, n).session.durable;
    var p := LastMark(durable, version);
    RunIsNested(t, commands, n);
    assert durable <= DataAt(t, commands, n);
    i := MarkHasOrigin(t, commands, p, n);
    forall k | i < k < n
      ensures !ReachedDurably(t, commands, version, k)
    {
      if ReachedDurably(t, commands, version, k) {
        DurableMark(t, commands, version, k);
        LaterMarksFurther(t, commands, version, i, k);
      }
    }
  }

  lemma OneDecides(t: Tx, commands: seq<Command>, version: int, i: nat, k: nat)
    requires Decides(t, commands, version, i) && Decides(t, commands, version, k)
    ensures i == k
  {
  }

  /** An apply decides on the version. */
  ghost predicate ApplyDecides(t: Tx, commands: seq<Command>, version: int) {
    exists i: nat :: i < |commands| && commands[i].ApplyMigration? && Decides(t, commands, version, i)
  }

  /** Some migration of the version decides on it. */
  ghost predicate SomeDecides(t: Tx, commands: seq<Command>, version: int) {
    exists i: nat :: i < |commands| && Decides(t, commands, version, i)
  }

  /** A mark that a run makes durably stands behind all that was durable before. */
  lemma NewMarksBehind(t: Tx, commands: seq<Command>, version: int, i: nat)
    requires FairRun(t, commands) && ReachedDurably(t, commands, version, i)
    ensures MarkPosition(t, commands, i) >= |t.session.durable|
  {
    RunIsNested(t, commands, i);
    assert After(t, commands, i).session.durable <= DataAt(t, commands, i);
  }

  /** What was durable before keeps its last mark, if no migration decides. */
  lemma OldMarkStays(old_: Data, durable: Data, version: int)
    requires old_ <= durable && LastMark(durable, version) < |old_|
    ensures LastMark(old_, version) == LastMark(durable, version) && (Stands(old_, version) <==> Stands(durable, version))
  {
    LastMarkIs(old_, version, LastMark(durable, version));
  }

  /**
   * Over every run on a table with any contents, whatever calls fail: a
   * version stands in the durable table exactly if the last migration of it
   * that reached its mark durably was an apply, or there was no such migration
   * and it stood before.
   */
  lemma StandsExactly(t: Tx, commands: seq<Command>, version: int)
    requires FairRun(t, commands) && t.session.data == t.session.durable
    ensures Stands(ServeAll(t, commands).session.durable, version) <==>
            if SomeDecides(t, commands, version) then ApplyDecides(t, commands, version) else Stands(t.session.durable, version)
  {
    var n := |commands|;
    var durable := After(t, commands, n).session.durable;
    AfterIsServed(t, commands, n);
    RunIsNested(t, commands, n);
    assert commands[..n] == commands;
    if LastMark(durable, version) >= |t.session.data| {
      var i := LastMarkDecides(t, commands, version);
      DurableMark(t, commands, version, i);
      if ApplyDecides(t, commands, version) {
        var k: nat :| k < n && commands[k].ApplyMigration? && Decides(t, commands, version, k);
        OneDecides(t, commands, version, i, k);
      }
    } else {
      OldMarkStays(t.session.durable, durable, version);
      forall k: nat | k < n
        ensures !Decides(t, commands, version, k)
      {
        if ReachedDurably(t, commands, version, k) {
          DurableMark(t, commands, version, k);
          NewMarksBehind(t, commands, version, k);
        }
      }
    }
  }
}
