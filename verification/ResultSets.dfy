/** Walking the result sets of a batch and streaming them to a consumer. */
module ResultSets {
  import opened Text
  import opened Values
  import opened DataTypes
  import opened Rows

  /** One message on the response channel. */
  datatype Item = Done(rowsAffected: nat) | Row(values: seq<ValueKind>) | Failed

  /** How fetching is configured: row by row, or in batches with a buffer size. */
  datatype Fetch = Unbuffered | Buffered(batchSize: nat, maxColumnSize: nat)

  predicate ValidFetch(f: Fetch) {
    f.Buffered? ==> f.batchSize > 0
  }

  /**
   * One result set: the rows that can be fetched, and whether fetching then
   * breaks instead of ending.  The other flags are calls that may fail.
   */
  datatype RowSet = RowSet(
    columns: seq<Column>, rows: seq<seq<Cell>>, breaks: bool,
    described: bool, bindable: bool, unbindable: bool)

  predicate ValidRowSet(s: RowSet) {
    forall i :: 0 <= i < |s.rows| ==> |s.rows[i]| == |s.columns|
  }

  datatype BatchResult =
    | ColumnCountFails
    | Count(rowCount: int)
    | RowCountFails
    | ResultSet(rowSet: RowSet)

  /** What SQLMoreResults says after the last result. */
  datatype Ending = NoData | ErrorStatus

  datatype Batch = Batch(results: seq<BatchResult>, ending: Ending)

  predicate ValidResults(results: seq<BatchResult>) {
    forall i :: 0 <= i < |results| && results[i].ResultSet? ==> ValidRowSet(results[i].rowSet)
  }

  predicate ValidBatch(b: Batch) {
    b.results != [] && ValidResults(b.results)
  }

  // ------------------------------------------------------------ the sequential output

  function FetchedRow(row: seq<Cell>, columns: seq<Column>, f: Fetch): seq<ValueKind>
    requires |row| == |columns|
  {
    seq(|columns|, c requires 0 <= c < |columns| =>
      if f.Buffered? then BufferedValue(row[c], columns[c], f.maxColumnSize)
      else FetchValue(row[c], columns[c].dataType))
  }

  /** Rows that reach the consumer; a fetch that breaks loses its whole buffer. */
  function RowCountSent(s: RowSet, f: Fetch): nat
    requires ValidFetch(f)
    ensures RowCountSent(s, f) <= |s.rows|
  {
    if f.Buffered? && s.breaks then WholeBatches(|s.rows|, f.batchSize) else |s.rows|
  }

  /** The largest multiple of the batch size that is at most `rows`. */
  function WholeBatches(rows: nat, batchSize: nat): (n: nat)
    requires batchSize > 0
    ensures n <= rows < n + batchSize
  {
    if rows < batchSize then 0 else batchSize + WholeBatches(rows - batchSize, batchSize)
  }

  function RowItems(s: RowSet, f: Fetch): (items: seq<Item>)
    requires ValidFetch(f) && ValidRowSet(s)
    ensures |items| == RowCountSent(s, f)
  {
    seq(RowCountSent(s, f), i requires 0 <= i < RowCountSent(s, f) => Row(FetchedRow(s.rows[i], s.columns, f)))
  }

  /** Messages sent in order, and whether the stretch ended without an error. */
  datatype Emission = Emission(items: seq<Item>, ok: bool)

  /** One result: a count for a column-less one, all rows and a zero count for a result set. */
  function ResultOutput(r: BatchResult, f: Fetch): Emission
    requires ValidFetch(f) && (r.ResultSet? ==> ValidRowSet(r.rowSet))
  {
    match r
    case ColumnCountFails => Emission([], false)
    case RowCountFails => Emission([], false)
    case Count(n) => Emission([Done(if n < 0 then 0 else n)], true)
    case ResultSet(s) =>
      if !s.described || (f.Buffered? && !s.bindable) then Emission([], false)
      else if s.breaks then Emission(RowItems(s, f), false)
      else Emission(RowItems(s, f) + [Done(0)], f.Buffered? ==> s.unbindable)
  }

  /** The results from number `i` on, up to the first that fails. */
  function OutputFrom(b: Batch, f: Fetch, i: nat): Emission
    requires ValidBatch(b) && ValidFetch(f) && i <= |b.results|
    decreases |b.results| - i
  {
    if i == |b.results| then Emission([], b.ending == NoData)
    else
      var now := ResultOutput(b.results[i], f);
      if !now.ok then now
      else
        var rest := OutputFrom(b, f, i + 1);
        Emission(now.items + rest.items, rest.ok)
  }

  function Output(b: Batch, f: Fetch): Emission
    requires ValidBatch(b) && ValidFetch(f)
  {
    OutputFrom(b, f, 0)
  }

  /** What the consumer reads: an error, if any, is the last message. */
  function Messages(e: Emission): seq<Item> {
    e.items + if e.ok then [] else [Failed]
  }

  function Prefix(items: seq<Item>, n: nat): seq<Item> {
    if n < |items| then items[..n] else items
  }

  // ------------------------------------------------------------ the channel's sending end

  /** Messages delivered so far, and how many more the consumer takes before it is gone. */
  datatype Channel = Channel(delivered: seq<Item>, room: nat)

  function SendOne(ch: Channel, item: Item): Channel {
    if ch.room > 0 then Channel(ch.delivered + [item], ch.room - 1) else ch
  }

  function SendAll(ch: Channel, items: seq<Item>): Channel {
    if items == [] then ch else SendOne(SendAll(ch, items[..|items| - 1]), items[|items| - 1])
  }

  /** Sending a sequence delivers the prefix there is room for. */
  lemma {:induction false} SendAllDeliversPrefix(ch: Channel, items: seq<Item>)
    ensures SendAll(ch, items) ==
            Channel(ch.delivered + Prefix(items, ch.room), if ch.room < |items| then 0 else ch.room - |items|)
    decreases |items|
  {
    if items != [] {
      SendAllDeliversPrefix(ch, items[..|items| - 1]);
      PrefixGrows(ch.delivered, items, ch.room);
    }
  }

  lemma PrefixGrows(delivered: seq<Item>, items: seq<Item>, room: nat)
    requires items != []
    ensures var n := |items| - 1;
            SendOne(Channel(delivered + Prefix(items[..n], room), if room < n then 0 else room - n), items[n]) ==
            Channel(delivered + Prefix(items, room), if room < |items| then 0 else room - |items|)
  {
    var n := |items| - 1;
    if room < n {
      assert items[..n][..room] == items[..room];
    } else if room > n {
      assert items == items[..n] + [items[n]];
      ConcatAssociates(delivered, items[..n], [items[n]]);
    }
  }

  lemma {:induction false} SendAllConcat(ch: Channel, a: seq<Item>, b: seq<Item>)
    ensures SendAll(ch, a + b) == SendAll(SendAll(ch, a), b)
    decreases |b|
  {
    if b == [] {
      assert a + b == a;
    } else {
      assert (a + b)[..|a + b| - 1] == a + b[..|b| - 1];
      SendAllConcat(ch, a, b[..|b| - 1]);
    }
  }

  class ExecuteSender {
    var channel: Channel

    constructor (room: nat)
      ensures channel == Channel([], room)
    {
      channel := Channel([], room);
    }

    /** Whether the receiver was still there. */
    method Send(item: Item) returns (ok: bool)
      modifies this
      ensures ok == (old(channel).room > 0)
      ensures channel == SendOne(old(channel), item)
    {
      ok := channel.room > 0;
      if ok {
        channel := Channel(channel.delivered + [item], channel.room - 1);
      }
    }
  }

  // ------------------------------------------------------------ streaming one result set

  /** How streaming one result set ended. */
  datatype Streamed = Open | Closed | Error | TooFewValues

  /** With `room` messages still taken: a row that finds the consumer gone ends the stream; the closing count does not look. */
  function StreamVerdict(s: RowSet, f: Fetch, room: nat): Streamed
    requires ValidRowSet(s) && ValidFetch(f)
  {
    if !s.described || (f.Buffered? && !s.bindable) then Error
    else if room < |RowItems(s, f)| then (if f.Buffered? && !s.unbindable then Error else Closed)
    else if s.breaks || (f.Buffered? && !s.unbindable) then Error
    else Open
  }

  /** What is left to send once the consumer is gone does not matter. */
  lemma ClosedAbsorbs(ch: Channel, items: seq<Item>, n: nat)
    requires n <= |items| && SendAll(ch, items[..n]).room == 0
    ensures SendAll(ch, items) == SendAll(ch, items[..n])
  {
    assert items == items[..n] + items[n..];
    SendAllConcat(ch, items[..n], items[n..]);
    SendAllDeliversPrefix(SendAll(ch, items[..n]), items[n..]);
  }

  method FetchRow(row: seq<Cell>, columns: seq<Column>) returns (values: seq<ValueKind>)
    requires |row| == |columns|
    ensures values == FetchedRow(row, columns, Unbuffered)
  {
    values := [];
    var c := 0;
    while c < |columns|
      invariant 0 <= c <= |columns|
      invariant values == FetchedRow(row, columns, Unbuffered)[..c]
    {
      values := values + [FetchValue(row[c], columns[c].dataType)];
      c := c + 1;
    }
  }

  /** Fetching row by row; `Open` as for SendBatches. */
  method SendRows(s: RowSet, tx: ExecuteSender) returns (r: Streamed)
    requires ValidRowSet(s)
    modifies tx
    ensures r == if old(tx.channel).room < |RowItems(s, Unbuffered)| then Closed else Open
    ensures tx.channel == SendAll(old(tx.channel), RowItems(s, Unbuffered))
  {
    ghost var start, items := tx.channel, RowItems(s, Unbuffered);
    var i := 0;
    while i < |s.rows|
      invariant 0 <= i <= |s.rows| && i <= start.room
      invariant tx.channel == SendAll(start, items[..i])
    {
      var values := FetchRow(s.rows[i], s.columns);
      SendStep(start, items, i);
      var ok := tx.Send(Row(values));
      if !ok {
        return Closed;
      }
      i := i + 1;
    }
    assert items[..i] == items;
    return Open;
  }

  /** The closing count of a result set: sent after the rows, in vain if they met a closed channel. */
  lemma CountAfterRows(s: RowSet, f: Fetch, start: Channel)
    requires ValidRowSet(s) && ValidFetch(f)
    ensures var items := RowItems(s, f);
            && SendAll(start, items + [Done(0)]) == SendOne(SendAll(start, items), Done(0))
            && SendAll(start, items).room == (if start.room < |items| then 0 else start.room - |items|)
  {
    var items := RowItems(s, f);
    assert (items + [Done(0)])[..|items|] == items;
    SendAllDeliversPrefix(start, items);
  }

  method StreamRowsUnbuffered(s: RowSet, tx: ExecuteSender) returns (r: Streamed)
    requires ValidRowSet(s)
    modifies tx
    ensures tx.channel == SendAll(old(tx.channel), ResultOutput(ResultSet(s), Unbuffered).items)
    ensures r == StreamVerdict(s, Unbuffered, old(tx.channel).room)
  {
    if !s.described {
      return Error;
    }
    CountAfterRows(s, Unbuffered, tx.channel);
    var sent := SendRows(s, tx);
    if sent == Closed {
      return Closed;
    }
    if s.breaks {
      return Error;
    }
    var _ := tx.Send(Done(0));
    return Open;
  }

  /** The bound column buffers after fetching rows[from..to]. */
  function ColumnBuffers(s: RowSet, maxColumnSize: nat, from: nat, to: nat): (buffers: seq<seq<Cell>>)
    requires ValidRowSet(s) && from <= to <= |s.rows|
  {
    seq(|s.columns|, c requires 0 <= c < |s.columns| =>
      seq(to - from, j requires 0 <= j < to - from => Stored(s.rows[from + j][c], Desc(s.columns[c], maxColumnSize))))
  }

  /** Converts one column buffer. */
  function BufferedColumnValues(slots: seq<Cell>, desc: BufferDesc, t: DataType): seq<ValueKind> {
    seq(|slots|, j requires 0 <= j < |slots| => SlotValue(slots[j], desc, t))
  }

  /** All columns of one fetched batch, converted: entry (c, i) is entry c of row i. */
  function ColumnValues(s: RowSet, f: Fetch, from: nat, to: nat): (columns: seq<seq<ValueKind>>)
    requires ValidRowSet(s) && f.Buffered? && from <= to <= |s.rows|
    ensures |columns| == |s.columns|
    ensures forall c :: 0 <= c < |columns| ==> |columns[c]| == to - from
    ensures forall c, i :: 0 <= c < |columns| && 0 <= i < to - from ==>
              columns[c][i] == FetchedRow(s.rows[from + i], s.columns, f)[c]
  {
    var buffers := ColumnBuffers(s, f.maxColumnSize, from, to);
    seq(|s.columns|, c requires 0 <= c < |s.columns| =>
      BufferedColumnValues(buffers[c], Desc(s.columns[c], f.maxColumnSize), s.columns[c].dataType))
  }

  /** The next row of the column iterators, each advanced by one. */
  method NextRow(iters: seq<seq<ValueKind>>) returns (values: seq<ValueKind>, rest: seq<seq<ValueKind>>, enough: bool)
    ensures enough <==> forall c :: 0 <= c < |iters| ==> iters[c] != []
    ensures enough ==> |values| == |rest| == |iters|
    ensures enough ==> forall c :: 0 <= c < |iters| ==> [values[c]] + rest[c] == iters[c]
  {
    values, rest := [], [];
    var c := 0;
    while c < |iters|
      invariant 0 <= c <= |iters| && |values| == |rest| == c
      invariant forall k :: 0 <= k < c ==> iters[k] != [] && [values[k]] + rest[k] == iters[k]
    {
      if iters[c] == [] {
        return values, rest, false;
      }
      values, rest, c := values + [iters[c][0]], rest + [iters[c][1..]], c + 1;
    }
    enough := true;
  }

  function SentRows(s: RowSet, f: Fetch, from: nat, to: nat): seq<Item>
    requires ValidRowSet(s) && from <= to <= |s.rows|
  {
    seq(to - from, i requires 0 <= i < to - from => Row(FetchedRow(s.rows[from + i], s.columns, f)))
  }

  lemma NextRowIsFetched(s: RowSet, f: Fetch, from: nat, to: nat, i: nat, values: seq<ValueKind>, rest: seq<seq<ValueKind>>)
    requires ValidRowSet(s) && f.Buffered? && from <= to <= |s.rows| && i < to - from
    requires var full := ColumnValues(s, f, from, to);
             |values| == |rest| == |full| && forall c :: 0 <= c < |full| ==> [values[c]] + rest[c] == full[c][i..]
    ensures values == FetchedRow(s.rows[from + i], s.columns, f)
    ensures var full := ColumnValues(s, f, from, to);
            forall c :: 0 <= c < |full| ==> rest[c] == full[c][i + 1..]
  {
    var full := ColumnValues(s, f, from, to);
    forall c | 0 <= c < |full|
      ensures values[c] == full[c][i] && rest[c] == full[c][i + 1..]
    {
      var iter := [values[c]] + rest[c];
      assert iter == full[c][i..] && iter[1..] == rest[c];
    }
  }

  /** One more message: the channel follows the sequence, and a closed one has seen it all. */
  lemma SendStep(start: Channel, items: seq<Item>, i: nat)
    requires i < |items|
    ensures SendAll(start, items[..i + 1]) == SendOne(SendAll(start, items[..i]), items[i])
    ensures SendAll(start, items[..i]).room == (if start.room < i then 0 else start.room - i)
    ensures start.room <= i ==> SendAll(start, items) == SendAll(start, items[..i])
  {
    assert items[..i + 1][..i] == items[..i];
    SendAllDeliversPrefix(start, items[..i]);
    if start.room <= i {
      ClosedAbsorbs(start, items, i);
    }
  }

  /** Turns the columns of one batch back into rows and sends them. */
  method SendBatch(s: RowSet, f: Fetch, from: nat, to: nat, tx: ExecuteSender) returns (r: Streamed)
    requires ValidRowSet(s) && f.Buffered? && from <= to <= |s.rows|
    modifies tx
    ensures r == if old(tx.channel).room < to - from then Closed else Open
    ensures tx.channel == SendAll(old(tx.channel), SentRows(s, f, from, to))
  {
    var full := ColumnValues(s, f, from, to);
    var iters := full;
    ghost var start, items := tx.channel, SentRows(s, f, from, to);
    var i := 0;
    while i < to - from
      invariant 0 <= i <= to - from && i <= start.room
      invariant |iters| == |full| && forall c :: 0 <= c < |full| ==> iters[c] == full[c][i..]
      invariant tx.channel == SendAll(start, items[..i])
    {
      var values, rest, enough := NextRow(iters);
      if !enough {
        return TooFewValues;
      }
      NextRowIsFetched(s, f, from, to, i, values, rest);
      SendStep(start, items, i);
      var ok := tx.Send(Row(values));
      if !ok {
        return Closed;
      }
      iters, i := rest, i + 1;
    }
    assert items[..i] == items;
    return Open;
  }

  /** Rows still to come when `p` have been sent. */
  function RowsLeft(s: RowSet, f: Fetch, p: nat): nat
    requires p <= |s.rows| && ValidFetch(f)
  {
    if f.Buffered? && s.breaks then WholeBatches(|s.rows| - p, f.batchSize) else |s.rows| - p
  }

  /** Whether the driver still has a batch to give, and where it ends. */
  predicate MoreBatches(s: RowSet, f: Fetch, p: nat)
    requires f.Buffered?
  {
    p < |s.rows| && !(s.breaks && p + f.batchSize > |s.rows|)
  }

  function BatchEnd(s: RowSet, f: Fetch, p: nat): (to: nat)
    requires ValidFetch(f) && f.Buffered? && MoreBatches(s, f, p)
    ensures p < to <= |s.rows| && RowsLeft(s, f, p) == to - p + RowsLeft(s, f, to)
  {
    if p + f.batchSize <= |s.rows| then p + f.batchSize else |s.rows|
  }

  lemma BatchStep(s: RowSet, f: Fetch, from: nat, to: nat, start: Channel)
    requires ValidRowSet(s) && ValidFetch(f) && from <= to <= |RowItems(s, f)| && from <= start.room
    ensures var items := RowItems(s, f);
            && SendAll(SendAll(start, items[..from]), SentRows(s, f, from, to)) == SendAll(start, items[..to])
            && SendAll(start, items[..from]).room == start.room - from
            && (start.room < to ==> SendAll(start, items[..to]) == SendAll(start, items))
  {
    var items := RowItems(s, f);
    assert items[..to] == items[..from] + SentRows(s, f, from, to);
    SendAllConcat(start, items[..from], SentRows(s, f, from, to));
    SendAllDeliversPrefix(start, items[..from]);
    SendAllDeliversPrefix(start, items[..to]);
    if start.room < to {
      ClosedAbsorbs(start, items, to);
    }
  }

  /** The fetch loop; `Open` here means that fetching ended or broke with the consumer still there. */
  method SendBatches(s: RowSet, f: Fetch, tx: ExecuteSender) returns (r: Streamed)
    requires ValidRowSet(s) && f.Buffered? && ValidFetch(f)
    modifies tx
    ensures r == if old(tx.channel).room < |RowItems(s, f)| then Closed else Open
    ensures tx.channel == SendAll(old(tx.channel), RowItems(s, f))
  {
    ghost var start, items := tx.channel, RowItems(s, f);
    var p := 0;
    while MoreBatches(s, f, p)
      invariant p <= |s.rows| && p <= start.room
      invariant |items| == p + RowsLeft(s, f, p)
      invariant tx.channel == SendAll(start, items[..p])
      decreases |s.rows| - p
    {
      var to := BatchEnd(s, f, p);
      BatchStep(s, f, p, to, start);
      var sent := SendBatch(s, f, p, to, tx);
      if sent == Closed {
        return Closed;
      }
      p := to;
    }
    assert items[..p] == items;
    return Open;
  }

  method StreamRowsBuffered(s: RowSet, f: Fetch, tx: ExecuteSender) returns (r: Streamed)
    requires ValidRowSet(s) && f.Buffered? && ValidFetch(f)
    modifies tx
    ensures tx.channel == SendAll(old(tx.channel), ResultOutput(ResultSet(s), f).items)
    ensures r == StreamVerdict(s, f, old(tx.channel).room)
  {
    if !s.described || !s.bindable {
      return Error;
    }
    CountAfterRows(s, f, tx.channel);
    var sent := SendBatches(s, f, tx);
    if sent == Closed {
      return if s.unbindable then Closed else Error;
    }
    if s.breaks {
      return Error;
    }
    var _ := tx.Send(Done(0));
    return if s.unbindable then Open else Error;
  }

  method StreamOneResultSet(s: RowSet, f: Fetch, tx: ExecuteSender) returns (r: Streamed)
    requires ValidRowSet(s) && ValidFetch(f)
    modifies tx
    ensures tx.channel == SendAll(old(tx.channel), ResultOutput(ResultSet(s), f).items)
    ensures r == StreamVerdict(s, f, old(tx.channel).room)
  {
    if f.Buffered? {
      r := StreamRowsBuffered(s, f, tx);
    } else {
      r := StreamRowsUnbuffered(s, tx);
    }
  }

  // ------------------------------------------------------------ walking the batch

  lemma SendConcat(start: Channel, sent: seq<Item>, more: seq<Item>)
    ensures SendAll(start, sent + more) == SendAll(SendAll(start, sent), more)
    ensures SendAll(start, sent).room == 0 ==> SendAll(start, sent + more) == SendAll(start, sent)
  {
    SendAllConcat(start, sent, more);
    SendAllDeliversPrefix(SendAll(start, sent), more);
  }

  lemma SendSingle(start: Channel, item: Item)
    ensures SendAll(start, [item]) == SendOne(start, item)
  {
    assert [item][..0] == [];
  }

  function ResultVerdict(r: BatchResult, f: Fetch, room: nat): Streamed
    requires ValidFetch(f) && (r.ResultSet? ==> ValidRowSet(r.rowSet))
  {
    match r
    case ColumnCountFails => Error
    case RowCountFails => Error
    case Count(_) => if room > 0 then Open else Closed
    case ResultSet(s) => StreamVerdict(s, f, room)
  }

  /** A verdict differs from the outcome of the result itself only when the consumer is gone. */
  lemma VerdictOfResult(r: BatchResult, f: Fetch, start: Channel)
    requires ValidFetch(f) && (r.ResultSet? ==> ValidRowSet(r.rowSet))
    ensures var v, out := ResultVerdict(r, f, start.room), ResultOutput(r, f);
            var room := SendAll(start, out.items).room;
            && room == RoomAfter(start.room, out.items)
            && (room > 0 ==> (v == Open <==> out.ok) && (v == Error <==> !out.ok))
            && (v == Open ==> out.ok) && (v == Closed ==> room == 0)
  {
    SendAllDeliversPrefix(start, ResultOutput(r, f).items);
  }

  function RoomAfter(room: nat, items: seq<Item>): nat {
    if room < |items| then 0 else room - |items|
  }

  /** What the walk reports: a consumer found gone is no error. */
  function WalkVerdict(b: Batch, f: Fetch, i: nat, room: nat): bool
    requires ValidBatch(b) && ValidFetch(f) && i < |b.results|
    decreases |b.results| - i
  {
    match ResultVerdict(b.results[i], f, room)
    case Closed => true
    case Open =>
      if i + 1 == |b.results| then b.ending == NoData
      else WalkVerdict(b, f, i + 1, RoomAfter(room, ResultOutput(b.results[i], f).items))
    case _ => false
  }

  method EmitResult(result: BatchResult, f: Fetch, tx: ExecuteSender) returns (r: Streamed)
    requires ValidFetch(f) && (result.ResultSet? ==> ValidRowSet(result.rowSet))
    modifies tx
    ensures tx.channel == SendAll(old(tx.channel), ResultOutput(result, f).items)
    ensures r == ResultVerdict(result, f, old(tx.channel).room)
  {
    match result
    case ColumnCountFails => return Error;
    case RowCountFails => return Error;
    case Count(n) =>
      SendSingle(tx.channel, Done(if n < 0 then 0 else n));
      var sent := tx.Send(Done(if n < 0 then 0 else n));
      return if sent then Open else Closed;
    case ResultSet(s) =>
      r := StreamOneResultSet(s, f, tx);
  }

  /** The walk standing at result `i` with `sent` behind it. */
  ghost predicate Walked(b: Batch, f: Fetch, i: nat, sent: seq<Item>)
    requires ValidBatch(b) && ValidFetch(f) && i <= |b.results|
  {
    var rest := OutputFrom(b, f, i);
    Output(b, f) == Emission(sent + rest.items, rest.ok)
  }

  /** What result `i` adds to the output. */
  lemma WalkStep(b: Batch, f: Fetch, i: nat, sent: seq<Item>)
    requires ValidBatch(b) && ValidFetch(f) && i < |b.results| && Walked(b, f, i, sent)
    ensures var now, out := ResultOutput(b.results[i], f), Output(b, f);
            && (!now.ok ==> out == Emission(sent + now.items, false))
            && (now.ok ==> Walked(b, f, i + 1, sent + now.items))
            && (now.ok && i + 1 == |b.results| ==> out == Emission(sent + now.items, b.ending == NoData))
  {
    var now := ResultOutput(b.results[i], f).items;
    if ResultOutput(b.results[i], f).ok {
      var rest := OutputFrom(b, f, i + 1).items;
      ConcatAssociates(sent, now, rest);
      assert rest == [] ==> sent + now + rest == sent + now;
    }
  }

  /** A closed channel has already seen all the output. */
  lemma ClosedHasSeenAll(b: Batch, f: Fetch, i: nat, start: Channel, sent: seq<Item>)
    requires ValidBatch(b) && ValidFetch(f) && i <= |b.results| && Walked(b, f, i, sent)
    requires SendAll(start, sent).room == 0
    ensures SendAll(start, Output(b, f).items) == SendAll(start, sent)
  {
    SendConcat(start, sent, OutputFrom(b, f, i).items);
  }

  /** The walk is over: `sent` is all of the output that the consumer will take, and `ok` the verdict. */
  ghost predicate Settled(b: Batch, f: Fetch, start: Channel, sent: seq<Item>, ok: bool)
    requires ValidBatch(b) && ValidFetch(f)
  {
    && SendAll(start, sent) == SendAll(start, Output(b, f).items)
    && (SendAll(start, sent).room > 0 ==> (ok <==> Output(b, f).ok))
  }

  lemma WalkSettles(b: Batch, f: Fetch, i: nat, start: Channel, sent: seq<Item>)
    requires ValidBatch(b) && ValidFetch(f) && i < |b.results| && Walked(b, f, i, sent)
    ensures var now, room := ResultOutput(b.results[i], f).items, SendAll(start, sent).room;
            && SendAll(SendAll(start, sent), now) == SendAll(start, sent + now)
            && match ResultVerdict(b.results[i], f, room) {
                 case Closed => Settled(b, f, start, sent + now, true)
                 case Open =>
                   if i + 1 == |b.results| then Settled(b, f, start, sent + now, b.ending == NoData)
                   else Walked(b, f, i + 1, sent + now) && SendAll(start, sent + now).room == RoomAfter(room, now)
                 case _ => Settled(b, f, start, sent + now, false)
               }
  {
    var now := ResultOutput(b.results[i], f);
    WalkStep(b, f, i, sent);
    SendConcat(start, sent, now.items);
    VerdictOfResult(b.results[i], f, SendAll(start, sent));
    if now.ok && SendAll(start, sent + now.items).room == 0 {
      ClosedHasSeenAll(b, f, i + 1, start, sent + now.items);
    }
  }

  /**
   * Walks every result of an executed batch.  `ok` is what the caller is told;
   * with a consumer still listening it is false exactly when a result failed.
   */
  method DriveResultSets(b: Batch, f: Fetch, tx: ExecuteSender) returns (ok: bool)
    requires ValidBatch(b) && ValidFetch(f)
    modifies tx
    ensures tx.channel == SendAll(old(tx.channel), Output(b, f).items)
    ensures ok == WalkVerdict(b, f, 0, old(tx.channel).room)
    ensures tx.channel.room > 0 ==> (ok <==> Output(b, f).ok)
  {
    ghost var start, sent, verdict := tx.channel, [], WalkVerdict(b, f, 0, tx.channel.room);
    var current := 0;
    while true
      invariant current < |b.results|
      invariant tx.channel == SendAll(start, sent)
      invariant Walked(b, f, current, sent)
      invariant verdict == WalkVerdict(b, f, current, tx.channel.room)
      decreases |b.results| - current
    {
      WalkSettles(b, f, current, start, sent);
      var r := EmitResult(b.results[current], f, tx);
      sent := sent + ResultOutput(b.results[current], f).items;
      if r == Closed {
        return true;
      }
      if r != Open {
        return false;
      }
      current := current + 1;
      if current == |b.results| {
        return b.ending == NoData;
      }
    }
  }
}
