/** Executing and preparing statements, with and without the statement cache. */
module Execution {
  import opened Text
  import opened Wrappers
  import opened Odbc
  import opened Transactions
  import opened StatementCache
  import ResultSets

  /** Column and parameter descriptions, opaque here. */
  type Description = int

  /**
   * The driver and server as functions of the data: whether a text can be
   * prepared, whether executing it fails outright, what it returns, and how
   * it is described.
   */
  datatype Driver = Driver(
    prepares: (Data, string) -> bool,
    executes: (Data, string, seq<Arg>) -> bool,
    batch: (Data, string, seq<Arg>) -> ResultSets.Batch,
    describes: (Data, string) -> Option<Description>)

  ghost predicate ValidDriver(d: Driver) {
    forall data, sql, args :: ResultSets.ValidBatch(d.batch(data, sql, args))
  }

  datatype ActorState = ActorState(tx: Tx, cache: Cache)

  /** `allocates`: the one-shot statement could be allocated; `room`: messages the consumer takes. */
  datatype Request =
    | Execute(sql: string, args: Option<seq<Arg>>, persistent: bool, allocates: bool, room: nat)
    | Prepare(sql: string)

  function Parameters(args: Option<seq<Arg>>): seq<Arg> {
    match args
    case None => []
    case Some(a) => a
  }

  /** Whether a request goes through a prepared statement. */
  predicate UsesCache(q: Request) {
    q.Prepare? || (q.persistent && Parameters(q.args) != [])
  }

  /** Runs `sql` once on the session and walks its results; a call that fails outright changes nothing. */
  function RunSql(t: Tx, d: Driver, f: ResultSets.Fetch, sql: string, args: seq<Arg>): (Tx, ResultSets.Emission)
    requires ValidDriver(d) && ResultSets.ValidFetch(f)
  {
    var data := t.session.data;
    if d.executes(data, sql, args) then
      (t.(session := Write(t.session, [Wrote(sql, args)])), ResultSets.Output(d.batch(data, sql, args), f))
    else (t, ResultSets.Emission([], false))
  }

  /** What the walk reported back: only then is a freshly prepared statement kept, and only if its first result had no columns. */
  predicate KeepsPrepared(t: Tx, d: Driver, f: ResultSets.Fetch, sql: string, args: seq<Arg>, room: nat)
    requires ValidDriver(d) && ResultSets.ValidFetch(f)
  {
    var data := t.session.data;
    var b := d.batch(data, sql, args);
    d.executes(data, sql, args) && !b.results[0].ResultSet? && ResultSets.WalkVerdict(b, f, 0, room)
  }

  function HandleExecute(st: ActorState, d: Driver, f: ResultSets.Fetch, q: Request): (ActorState, ResultSets.Emission)
    requires q.Execute? && ValidDriver(d) && ResultSets.ValidFetch(f)
  {
    var args := Parameters(q.args);
    var nothing := ResultSets.Emission([], false);
    if UsesCache(q) then
      if Cached(st.cache, q.sql) then
        var prepared := st.cache.entries[IndexOf(st.cache.entries, q.sql)].prepared;
        var (tx, out) := RunSql(st.tx, d, f, prepared.sql, args);
        (ActorState(tx, Touch(st.cache, q.sql)), out)
      else if !d.prepares(st.tx.session.data, q.sql) then (st, nothing)
      else
        var (tx, out) := RunSql(st.tx, d, f, q.sql, args);
        (ActorState(tx, if KeepsPrepared(st.tx, d, f, q.sql, args, q.room)
                        then Insert(st.cache, q.sql, Prepared(q.sql)) else st.cache), out)
    else if !q.allocates then (st, nothing)
    else
      var (tx, out) := RunSql(st.tx, d, f, q.sql, args);
      (st.(tx := tx), out)
  }

  function HandlePrepare(st: ActorState, d: Driver, sql: string): (ActorState, Option<Description>) {
    var data := st.tx.session.data;
    if Cached(st.cache, sql) then
      var prepared := st.cache.entries[IndexOf(st.cache.entries, sql)].prepared;
      (st.(cache := Touch(st.cache, sql)), d.describes(data, prepared.sql))
    else if !d.prepares(data, sql) then (st, None)
    else
      var answer := d.describes(data, sql);
      (if answer.Some? && st.cache.capacity > 0 then st.(cache := Insert(st.cache, sql, Prepared(sql))) else st, answer)
  }

  /** What the consumer of a request is told. */
  datatype Response = Stream(messages: seq<ResultSets.Item>) | Described(answer: Option<Description>)

  function Serve(st: ActorState, d: Driver, f: ResultSets.Fetch, q: Request): (ActorState, Response)
    requires ValidDriver(d) && ResultSets.ValidFetch(f)
  {
    match q
    case Execute(_, _, _, _, _) =>
      var (st', out) := HandleExecute(st, d, f, q);
      (st', Stream(ResultSets.Messages(out)))
    case Prepare(sql) =>
      var (st', answer) := HandlePrepare(st, d, sql);
      (st', Described(answer))
  }

  // ------------------------------------------------------------ the reference: no cache

  /** Prepare if need be, then run; nothing is remembered. */
  function PlainServe(t: Tx, d: Driver, f: ResultSets.Fetch, q: Request): (Tx, Response)
    requires ValidDriver(d) && ResultSets.ValidFetch(f)
  {
    if UsesCache(q) && !d.prepares(t.session.data, q.sql) then
      (t, if q.Prepare? then Described(None) else Stream([ResultSets.Failed]))
    else
      match q
      case Prepare(sql) => (t, Described(d.describes(t.session.data, sql)))
      case Execute(sql, args, _, allocates, _) =>
        if !UsesCache(q) && !allocates then (t, Stream([ResultSets.Failed]))
        else
          var (t', out) := RunSql(t, d, f, sql, Parameters(args));
          (t', Stream(ResultSets.Messages(out)))
  }

  // ------------------------------------------------------------ transparency

  /** A cached text that the server would no longer prepare. */
  predicate Stale(st: ActorState, d: Driver, q: Request) {
    UsesCache(q) && Cached(st.cache, q.sql) && !d.prepares(st.tx.session.data, q.sql)
  }

  /** Serving leaves the cache alone, touches the entry that was hit, or adds one for a text that was just prepared. */
  lemma CacheAfterServe(st: ActorState, d: Driver, f: ResultSets.Fetch, q: Request)
    requires ValidDriver(d) && ResultSets.ValidFetch(f)
    ensures var cache := Serve(st, d, f, q).0.cache;
            || cache == st.cache
            || (Cached(st.cache, q.sql) && cache == Touch(st.cache, q.sql))
            || (UsesCache(q) && d.prepares(st.tx.session.data, q.sql) && cache == Insert(st.cache, q.sql, Prepared(q.sql)))
  {
  }

  lemma ServeKeepsCache(st: ActorState, d: Driver, f: ResultSets.Fetch, q: Request)
    requires Coherent(st.cache) && ValidDriver(d) && ResultSets.ValidFetch(f)
    ensures var cache := Serve(st, d, f, q).0.cache;
            && Coherent(cache) && cache.capacity == st.cache.capacity
            && forall k :: Cached(cache, k) ==>
                 Cached(st.cache, k) || (UsesCache(q) && k == q.sql && d.prepares(st.tx.session.data, k))
  {
    CacheAfterServe(st, d, f, q);
    InsertKeepsExactly(st.cache, q.sql);
    if Cached(st.cache, q.sql) {
      TouchKeeps(st.cache, q.sql);
    }
  }

  /**
   * A stale entry that shows: the cached statement still does what a
   * statement prepared anew could not.
   */
  predicate Misled(st: ActorState, d: Driver, q: Request) {
    && Stale(st, d, q)
    && match q
       case Prepare(sql) => d.describes(st.tx.session.data, sql).Some?
       case Execute(sql, args, _, _, _) => d.executes(st.tx.session.data, sql, Parameters(args))
  }

  /** One request: the cache changes neither the session nor the response, except exactly for a stale entry that shows. */
  lemma ServeIsTransparent(st: ActorState, d: Driver, f: ResultSets.Fetch, q: Request)
    requires Coherent(st.cache) && ValidDriver(d) && ResultSets.ValidFetch(f)
    ensures var (st', response) := Serve(st, d, f, q);
            (st'.tx, response) == PlainServe(st.tx, d, f, q) <==> !Misled(st, d, q)
  {
    assert ResultSets.Messages(ResultSets.Emission([], false)) == [ResultSets.Failed];
    var (st', response) := Serve(st, d, f, q);
    if Misled(st, d, q) && q.Execute? {
      assert |st'.tx.session.data| == |st.tx.session.data| + 1;
    }
  }

  /** The arguments as given, or none. */
  function Given(q: Request): seq<Arg>
    requires q.Execute?
  {
    if q.args.Some? then q.args.value else []
  }

  /** The statement of an execute could be had: from the cache, by preparing it, or as a one-shot statement. */
  predicate Had(st: ActorState, d: Driver, q: Request)
    requires q.Execute?
  {
    if q.persistent && Given(q) != [] then Cached(st.cache, q.sql) || d.prepares(st.tx.session.data, q.sql) else q.allocates
  }

  /**
   * Each execute runs its own text with its own arguments, once, and streams
   * what that returns on the data before it, if its statement could be had and
   * the call does not fail outright.  Otherwise it changes nothing and answers
   * one error.
   */
  lemma ExecutesItsRequest(st: ActorState, d: Driver, f: ResultSets.Fetch, q: Request)
    requires Coherent(st.cache) && ValidDriver(d) && ResultSets.ValidFetch(f) && q.Execute?
    ensures var data, a := st.tx.session.data, Given(q);
            var (st', response) := Serve(st, d, f, q);
            if Had(st, d, q) && d.executes(data, q.sql, a) then
              && st'.tx == st.tx.(session := Write(st.tx.session, [Wrote(q.sql, a)]))
              && response == Stream(ResultSets.Messages(ResultSets.Output(d.batch(data, q.sql, a), f)))
            else st'.tx == st.tx && response == Stream([ResultSets.Failed])
  {
    assert ResultSets.Messages(ResultSets.Emission([], false)) == [ResultSets.Failed];
  }

  /** A prepare describes its own text if it could be had, and changes no data. */
  lemma PreparesItsText(st: ActorState, d: Driver, f: ResultSets.Fetch, sql: string)
    requires Coherent(st.cache) && ValidDriver(d) && ResultSets.ValidFetch(f)
    ensures var data := st.tx.session.data;
            var (st', response) := Serve(st, d, f, Prepare(sql));
            && st'.tx == st.tx
            && response == Described(if Cached(st.cache, sql) || d.prepares(data, sql) then d.describes(data, sql) else None)
  {
  }

  /** With room in the cache a text that was prepared and described is there for the next request. */
  lemma PreparedIsCached(st: ActorState, d: Driver, f: ResultSets.Fetch, sql: string)
    requires Coherent(st.cache) && ValidDriver(d) && ResultSets.ValidFetch(f) && st.cache.capacity > 0
    requires d.prepares(st.tx.session.data, sql) && d.describes(st.tx.session.data, sql).Some?
    ensures Cached(Serve(st, d, f, Prepare(sql)).0.cache, sql)
  {
    if Cached(st.cache, sql) {
      TouchKeeps(st.cache, sql);
    } else {
      InsertKeepsExactly(st.cache, sql);
    }
  }

  /** A new statement is kept by an execute exactly if its first result had no columns and the walk reported no error. */
  lemma ExecutedIsCachedExactly(st: ActorState, d: Driver, f: ResultSets.Fetch, q: Request)
    requires Coherent(st.cache) && ValidDriver(d) && ResultSets.ValidFetch(f) && st.cache.capacity > 0
    requires q.Execute? && q.persistent && Given(q) != [] && !Cached(st.cache, q.sql)
    ensures var data := st.tx.session.data;
            var b := d.batch(data, q.sql, Given(q));
            Cached(Serve(st, d, f, q).0.cache, q.sql) <==>
              && d.prepares(data, q.sql) && d.executes(data, q.sql, Given(q))
              && !b.results[0].ResultSet? && ResultSets.WalkVerdict(b, f, 0, q.room)
  {
    InsertKeepsExactly(st.cache, q.sql);
  }

  // ------------------------------------------------------------ runs

  /** Requests, interleaved with anything else that happens to the session, and with clearing the cache. */
  datatype Step = Requested(q: Request) | Meanwhile(call: Call) | Cleared

  function StepOne(st: ActorState, d: Driver, f: ResultSets.Fetch, s: Step): (ActorState, seq<Response>)
    requires ValidDriver(d) && ResultSets.ValidFetch(f)
  {
    match s
    case Requested(q) => var (st', r) := Serve(st, d, f, q); (st', [r])
    case Meanwhile(call) => (st.(tx := Transactions.Step(st.tx, call).0), [])
    case Cleared => (st.(cache := st.cache.(entries := [])), [])
  }

  function PlainOne(t: Tx, d: Driver, f: ResultSets.Fetch, s: Step): (Tx, seq<Response>)
    requires ValidDriver(d) && ResultSets.ValidFetch(f)
  {
    match s
    case Requested(q) => var (t', r) := PlainServe(t, d, f, q); (t', [r])
    case Meanwhile(call) => (Transactions.Step(t, call).0, [])
    case Cleared => (t, [])
  }

  /** The actor after some steps, and all responses so far. */
  function Replies(st: ActorState, d: Driver, f: ResultSets.Fetch, steps: seq<Step>): (ActorState, seq<Response>)
    requires ValidDriver(d) && ResultSets.ValidFetch(f)
    decreases |steps|
  {
    if steps == [] then (st, [])
    else
      var (next, now) := StepOne(st, d, f, steps[0]);
      var (end, later) := Replies(next, d, f, steps[1..]);
      (end, now + later)
  }

  function PlainReplies(t: Tx, d: Driver, f: ResultSets.Fetch, steps: seq<Step>): (Tx, seq<Response>)
    requires ValidDriver(d) && ResultSets.ValidFetch(f)
    decreases |steps|
  {
    if steps == [] then (t, [])
    else
      var (next, now) := PlainOne(t, d, f, steps[0]);
      var (end, later) := PlainReplies(next, d, f, steps[1..]);
      (end, now + later)
  }

  predicate NeverMisled(st: ActorState, d: Driver, f: ResultSets.Fetch, steps: seq<Step>)
    requires ValidDriver(d) && ResultSets.ValidFetch(f)
    decreases |steps|
  {
    steps == [] ||
    ((steps[0].Requested? ==> !Misled(st, d, steps[0].q)) && NeverMisled(StepOne(st, d, f, steps[0]).0, d, f, steps[1..]))
  }

  /** Session and responses so far are those of the actor without a cache. */
  predicate SameAsPlain(st: ActorState, d: Driver, f: ResultSets.Fetch, steps: seq<Step>)
    requires ValidDriver(d) && ResultSets.ValidFetch(f)
  {
    var (end, responses) := Replies(st, d, f, steps);
    (end.tx, responses) == PlainReplies(st.tx, d, f, steps)
  }

  /** One step: the cache shows exactly if it misleads, and stays coherent. */
  lemma StepIsTransparent(st: ActorState, d: Driver, f: ResultSets.Fetch, s: Step)
    requires Coherent(st.cache) && ValidDriver(d) && ResultSets.ValidFetch(f)
    ensures var (next, now) := StepOne(st, d, f, s);
            && Coherent(next.cache)
            && ((next.tx, now) == PlainOne(st.tx, d, f, s) <==> !(s.Requested? && Misled(st, d, s.q)))
  {
    if s.Requested? {
      ServeIsTransparent(st, d, f, s.q);
      ServeKeepsCache(st, d, f, s.q);
      var a, b := Serve(st, d, f, s.q).1, PlainServe(st.tx, d, f, s.q).1;
      assert [a] == [b] <==> a == b;
    }
  }

  lemma SameBehindStep(st: ActorState, d: Driver, f: ResultSets.Fetch, steps: seq<Step>, n: nat)
    requires Coherent(st.cache) && ValidDriver(d) && ResultSets.ValidFetch(f)
    requires 1 <= n <= |steps| && !(steps[0].Requested? && Misled(st, d, steps[0].q))
    ensures SameAsPlain(st, d, f, steps[..n]) <==> SameAsPlain(StepOne(st, d, f, steps[0]).0, d, f, steps[1..][..n - 1])
  {
    StepIsTransparent(st, d, f, steps[0]);
    assert steps[..n][1..] == steps[1..][..n - 1];
    var (next, now) := StepOne(st, d, f, steps[0]);
    var a, b := Replies(next, d, f, steps[1..][..n - 1]).1, PlainReplies(next.tx, d, f, steps[1..][..n - 1]).1;
    assert now + a == now + b ==> a == b by {
      DropConcat(now, a, 0);
      DropConcat(now, b, 0);
    }
  }

  /** For any run, capacity and coherent cache: the cache never shows exactly if no request is misled. */
  lemma {:induction false} CacheIsTransparentExactly(st: ActorState, d: Driver, f: ResultSets.Fetch, steps: seq<Step>)
    requires Coherent(st.cache) && ValidDriver(d) && ResultSets.ValidFetch(f)
    ensures NeverMisled(st, d, f, steps) <==> forall n :: 0 <= n <= |steps| ==> SameAsPlain(st, d, f, steps[..n])
    decreases |steps|
  {
    assert SameAsPlain(st, d, f, steps[..0]);
    if steps != [] {
      var next := StepOne(st, d, f, steps[0]).0;
      StepIsTransparent(st, d, f, steps[0]);
      if steps[0].Requested? && Misled(st, d, steps[0].q) {
        OneStepSame(st, d, f, steps[0]);
        assert steps[..1] == [steps[0]];
        assert !SameAsPlain(st, d, f, steps[..1]);
      } else {
        CacheIsTransparentExactly(next, d, f, steps[1..]);
        forall n | 1 <= n <= |steps|
          ensures SameAsPlain(st, d, f, steps[..n]) <==> SameAsPlain(next, d, f, steps[1..][..n - 1])
        {
          SameBehindStep(st, d, f, steps, n);
        }
        if forall n :: 0 <= n <= |steps| ==> SameAsPlain(st, d, f, steps[..n]) {
          forall n | 0 <= n <= |steps[1..]|
            ensures SameAsPlain(next, d, f, steps[1..][..n])
          {
            assert SameAsPlain(st, d, f, steps[..n + 1]);
          }
        }
      }
    }
  }

  lemma OneStepSame(st: ActorState, d: Driver, f: ResultSets.Fetch, s: Step)
    requires ValidDriver(d) && ResultSets.ValidFetch(f)
    ensures SameAsPlain(st, d, f, [s]) <==> (StepOne(st, d, f, s).0.tx, StepOne(st, d, f, s).1) == PlainOne(st.tx, d, f, s)
  {
    var (next, now) := StepOne(st, d, f, s);
    var (tx, plain) := PlainOne(st.tx, d, f, s);
    assert [s][1..] == [] && now + [] == now && plain + [] == plain;
    assert Replies(next, d, f, []) == (next, []) && PlainReplies(tx, d, f, []) == (tx, []);
    assert Replies(st, d, f, [s]) == (next, now) && PlainReplies(st.tx, d, f, [s]) == (tx, plain);
  }

  /** Whether a text can be prepared does not change with the data. */
  ghost predicate StablePreparation(d: Driver) {
    forall a, b, sql :: d.prepares(a, sql) ==> d.prepares(b, sql)
  }

  /** Under such a driver a run from an empty cache never meets a stale entry. */
  lemma {:induction false} StableDriverNeverMisleads(st: ActorState, d: Driver, f: ResultSets.Fetch, steps: seq<Step>)
    requires Coherent(st.cache) && ValidDriver(d) && ResultSets.ValidFetch(f) && StablePreparation(d)
    requires forall k :: Cached(st.cache, k) ==> d.prepares(st.tx.session.data, k)
    ensures NeverMisled(st, d, f, steps)
    decreases |steps|
  {
    if steps != [] {
      if steps[0].Requested? {
        ServeKeepsCache(st, d, f, steps[0].q);
      }
      StableDriverNeverMisleads(StepOne(st, d, f, steps[0]).0, d, f, steps[1..]);
    }
  }
}
