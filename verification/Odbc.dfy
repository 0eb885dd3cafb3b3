/** The ODBC connection as the driver sees it: one server session. */
module Odbc {

  /** A parameter value bound to a statement; its contents play no role here. */
  type Arg = int

  /**
   * One effect on the database.  The contents of a database are a function of
   * the effects applied to it, so a snapshot is the list of effects so far.
   */
  datatype Event =
    | Wrote(sql: string, args: seq<Arg>)           // a user statement was executed
    | Ran(version: int, index: nat)                // statement `index` of a migration batch ran to the end
    | Broke(version: int, index: nat)              // statement `index` failed, perhaps half way
    | Recorded(version: int, statements: nat)      // tracking record of a batch of so many statements inserted
    | Erased(version: int)                         // tracking record deleted

  type Data = seq<Event>

  datatype Savepoint = Savepoint(name: string, data: Data)

  /**
   * `durable` is what a crash would leave behind, `data` what this session
   * reads, `savepoints` the SAVE TRANSACTION log of the open transaction.
   */
  datatype Session = Session(durable: Data, data: Data, autocommit: bool, savepoints: seq<Savepoint>)

  predicate WellFormed(s: Session) {
    s.autocommit ==> s.durable == s.data && s.savepoints == []
  }

  // Each call takes `ok`, the outcome the driver reports; a call that fails
  // leaves the session as it was.

  /** SQLEndTran(SQL_COMMIT). */
  function Commit(s: Session, ok: bool): Session {
    if ok then s.(durable := s.data, savepoints := []) else s
  }

  /** SQLEndTran(SQL_ROLLBACK). */
  function Rollback(s: Session, ok: bool): Session {
    if ok then s.(data := s.durable, savepoints := []) else s
  }

  /** SQL_ATTR_AUTOCOMMIT.  Switching to autocommit commits an open transaction. */
  function SetAutocommit(s: Session, on: bool, ok: bool): Session {
    if !ok then s
    else if on then Commit(s, true).(autocommit := true)
    else s.(autocommit := false)
  }

  /** Statements that change data: at once durable in autocommit mode. */
  function Write(s: Session, events: Data): Session {
    s.(data := s.data + events, durable := if s.autocommit then s.data + events else s.durable)
  }

  /** SAVE TRANSACTION is refused outside a transaction. */
  predicate CanSave(s: Session) {
    !s.autocommit
  }

  /** SAVE TRANSACTION: names may repeat. */
  function Save(s: Session, name: string, ok: bool): Session {
    if ok && CanSave(s) then s.(savepoints := s.savepoints + [Savepoint(name, s.data)]) else s
  }

  /** Index of the most recent savepoint called `name`, or -1. */
  function Newest(log: seq<Savepoint>, name: string): (r: int)
    ensures -1 <= r < |log|
    ensures r >= 0 ==> log[r].name == name
    ensures forall j :: r < j < |log| ==> log[j].name != name
  {
    if log == [] then -1
    else if log[|log| - 1].name == name then |log| - 1
    else Newest(log[..|log| - 1], name)
  }

  /** Whether ROLLBACK TRANSACTION name is accepted: the name must be in the log. */
  predicate CanRollbackTo(s: Session, name: string) {
    Newest(s.savepoints, name) >= 0
  }

  /**
   * ROLLBACK TRANSACTION name: the most recent savepoint of that name wins.
   * Every savepoint below it survives; how many of the others do is left to
   * the server (`kept`).
   */
  function RollbackTo(s: Session, name: string, ok: bool, kept: nat): Session {
    var at := Newest(s.savepoints, name);
    if ok && at >= 0 then
      var cut := if kept < at then at else if kept > |s.savepoints| then |s.savepoints| else kept;
      s.(data := s.savepoints[at].data, savepoints := s.savepoints[..cut])
    else s
  }
}
