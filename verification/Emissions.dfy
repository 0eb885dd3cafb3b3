/** What the stream of a batch means to its consumers. */
module Emissions {
  import opened Text
  import opened Values
  import opened Rows
  import opened ResultSets

  // ------------------------------------------------------------ flattening

  /** All messages of the first `k` results. */
  function Flattened(b: Batch, f: Fetch, k: nat): seq<Item>
    requires ValidBatch(b) && ValidFetch(f) && k <= |b.results|
  {
    if k == 0 then [] else Flattened(b, f, k - 1) + ResultOutput(b.results[k - 1], f).items
  }

  /** Result `k` ends the walk: all results before it succeed, and it fails or does not exist. */
  ghost predicate EndsAt(b: Batch, f: Fetch, k: nat)
    requires ValidBatch(b) && ValidFetch(f) && k <= |b.results|
  {
    && (forall i :: 0 <= i < k ==> ResultOutput(b.results[i], f).ok)
    && (k < |b.results| ==> !ResultOutput(b.results[k], f).ok)
  }

  /** Everything before the failing result, what it managed to send itself, and that one error. */
  lemma OutputIsFlattening(b: Batch, f: Fetch, k: nat)
    requires ValidBatch(b) && ValidFetch(f) && k <= |b.results| && EndsAt(b, f, k)
    ensures Messages(Output(b, f)) ==
            if k == |b.results| then Flattened(b, f, k) + (if b.ending == NoData then [] else [Failed])
            else Flattened(b, f, k) + ResultOutput(b.results[k], f).items + [Failed]
  {
    FlattenedThenRest(b, f, k);
  }

  lemma {:induction false} FlattenedThenRest(b: Batch, f: Fetch, k: nat)
    requires ValidBatch(b) && ValidFetch(f) && k <= |b.results|
    requires forall i :: 0 <= i < k ==> ResultOutput(b.results[i], f).ok
    ensures Output(b, f).items == Flattened(b, f, k) + OutputFrom(b, f, k).items
    ensures Output(b, f).ok == OutputFrom(b, f, k).ok
  {
    if k > 0 {
      FlattenedThenRest(b, f, k - 1);
      ConcatAssociates(Flattened(b, f, k - 1), ResultOutput(b.results[k - 1], f).items, OutputFrom(b, f, k).items);
    }
  }

  /** Some call on the result fails; a result set is also described, and bound and unbound in buffered mode. */
  predicate Fails(r: BatchResult, f: Fetch) {
    || r.ColumnCountFails?
    || r.RowCountFails?
    || (r.ResultSet? && (!r.rowSet.described || r.rowSet.breaks))
    || (r.ResultSet? && f.Buffered? && (!r.rowSet.bindable || !r.rowSet.unbindable))
  }

  /** The stream ends without an error exactly if no call fails, on any result or at the end. */
  lemma {:induction false} SucceedsExactly(b: Batch, f: Fetch, i: nat)
    requires ValidBatch(b) && ValidFetch(f) && i <= |b.results|
    ensures OutputFrom(b, f, i).ok <==> b.ending == NoData && forall k :: i <= k < |b.results| ==> !Fails(b.results[k], f)
    decreases |b.results| - i
  {
    if i < |b.results| {
      SucceedsExactly(b, f, i + 1);
    }
  }

  // ------------------------------------------------------------ affected rows

  const TWO_TO_THE_64: int := 0x1_0000_0000_0000_0000

  function AffectedBy(item: Item): nat {
    if item.Done? then item.rowsAffected else 0
  }

  function Affected(items: seq<Item>): nat {
    if items == [] then 0 else Affected(items[..|items| - 1]) + AffectedBy(items[|items| - 1])
  }

  /** Row counts as the driver reports them; a negative one means unknown. */
  function Counted(b: Batch, f: Fetch, i: nat): nat
    requires ValidBatch(b) && ValidFetch(f) && i <= |b.results|
    decreases |b.results| - i
  {
    if i == |b.results| || !ResultOutput(b.results[i], f).ok then 0
    else
      (match b.results[i]
       case Count(n) => if n > 0 then n else 0
       case _ => 0) + Counted(b, f, i + 1)
  }

  lemma {:induction false} AffectedConcat(a: seq<Item>, b: seq<Item>)
    ensures Affected(a + b) == Affected(a) + Affected(b)
    decreases |b|
  {
    if b == [] {
      assert a + b == a;
    } else {
      assert (a + b)[..|a + b| - 1] == a + b[..|b| - 1];
      AffectedConcat(a, b[..|b| - 1]);
    }
  }

  lemma {:induction false} RowsAffectNothing(items: seq<Item>)
    requires forall i :: 0 <= i < |items| ==> items[i].Row?
    ensures Affected(items) == 0
    decreases |items|
  {
    if items != [] {
      RowsAffectNothing(items[..|items| - 1]);
    }
  }

  lemma ResultAffects(r: BatchResult, f: Fetch)
    requires ValidFetch(f) && (r.ResultSet? ==> ValidRowSet(r.rowSet))
    ensures Affected(ResultOutput(r, f).items) == if r.Count? && r.rowCount > 0 then r.rowCount else 0
  {
    match r
    case Count(n) =>
      assert [Done(if n < 0 then 0 else n)][..0] == [];
    case ResultSet(s) =>
      RowsAffectNothing(RowItems(s, f));
      assert [Done(0)][..0] == [];
      AffectedConcat(RowItems(s, f), [Done(0)]);
    case _ =>
  }

  /** The counts in the stream add up to the row counts of the batch, result sets adding nothing. */
  lemma {:induction false} AffectedIsCounted(b: Batch, f: Fetch, i: nat)
    requires ValidBatch(b) && ValidFetch(f) && i <= |b.results|
    ensures Affected(OutputFrom(b, f, i).items) == Counted(b, f, i)
    decreases |b.results| - i
  {
    if i < |b.results| {
      ResultAffects(b.results[i], f);
      if ResultOutput(b.results[i], f).ok {
        AffectedIsCounted(b, f, i + 1);
        AffectedConcat(ResultOutput(b.results[i], f).items, OutputFrom(b, f, i + 1).items);
      }
    }
  }

  /** The counts among the messages, which is what an execute folds. */
  function Counts(items: seq<Item>): (counts: seq<Item>)
    ensures forall i :: 0 <= i < |counts| ==> counts[i].Done?
  {
    if items == [] then []
    else
      var n := |items| - 1;
      Counts(items[..n]) + if items[n].Done? then [items[n]] else []
  }

  lemma {:induction false} CountsAffectTheSame(items: seq<Item>)
    ensures Affected(Counts(items)) == Affected(items)
    decreases |items|
  {
    if items != [] {
      var n := |items| - 1;
      CountsAffectTheSame(items[..n]);
      if items[n].Done? {
        assert (Counts(items[..n]) + [items[n]])[..|Counts(items[..n])|] == Counts(items[..n]);
      } else {
        assert Counts(items[..n]) + [] == Counts(items[..n]);
      }
    }
  }

  /** All the counts of a batch's stream, an error at its end included. */
  lemma StreamCounts(b: Batch, f: Fetch)
    requires ValidBatch(b) && ValidFetch(f)
    ensures Affected(Counts(Messages(Output(b, f)))) == Counted(b, f, 0)
  {
    var out := Output(b, f);
    AffectedIsCounted(b, f, 0);
    CountsAffectTheSame(Messages(out));
    AffectedConcat(out.items, if out.ok then [] else [Failed]);
    assert [Failed][..0] == [];
  }

  /** A query result, folded over the counts of a stream. */
  class QueryResult {
    var rowsAffected: nat

    constructor ()
      ensures rowsAffected == 0
    {
      rowsAffected := 0;
    }

    /** Adds up in `u64`, wrapping as release builds do. */
    method Extend(results: seq<Item>)
      requires forall i :: 0 <= i < |results| ==> results[i].Done?
      modifies this
      ensures rowsAffected == (old(rowsAffected) + Affected(results)) % TWO_TO_THE_64
    {
      var sum := 0;
      for i := 0 to |results|
        invariant sum == Affected(results[..i]) % TWO_TO_THE_64
        invariant rowsAffected == old(rowsAffected)
      {
        assert results[..i + 1][..i] == results[..i];
        AddWraps(Affected(results[..i]), results[i].rowsAffected);
        sum := (sum + results[i].rowsAffected) % TWO_TO_THE_64;
      }
      assert results[..|results|] == results;
      AddWraps(Affected(results), rowsAffected);
      rowsAffected := (sum + rowsAffected) % TWO_TO_THE_64;
    }

    /** Folding the stream of a batch adds its row counts. */
    method ExtendByStream(b: Batch, f: Fetch)
      requires ValidBatch(b) && ValidFetch(f)
      modifies this
      ensures rowsAffected == (old(rowsAffected) + Counted(b, f, 0)) % TWO_TO_THE_64
    {
      StreamCounts(b, f);
      Extend(Counts(Messages(Output(b, f))));
    }
  }

  lemma AddWraps(a: nat, b: nat)
    ensures (a % TWO_TO_THE_64 + b) % TWO_TO_THE_64 == (a + b) % TWO_TO_THE_64
  {
    var q := a / TWO_TO_THE_64;
    assert a == q * TWO_TO_THE_64 + a % TWO_TO_THE_64;
    AddMultiple(a % TWO_TO_THE_64 + b, q);
  }

  lemma {:induction false} AddMultiple(x: nat, q: nat)
    ensures (x + q * TWO_TO_THE_64) % TWO_TO_THE_64 == x % TWO_TO_THE_64
  {
    if q > 0 {
      AddMultiple(x, q - 1);
      var y := x + (q - 1) * TWO_TO_THE_64;
      assert (y + TWO_TO_THE_64) % TWO_TO_THE_64 == y % TWO_TO_THE_64;
    }
  }

  // ------------------------------------------------------------ fetch_optional

  datatype Optional = Found(values: seq<ValueKind>) | Nothing | Broken

  /** Receives until the first row or error; `taken` messages are read before the receiver is dropped. */
  method FetchOptional(messages: seq<Item>) returns (r: Optional, taken: nat)
    ensures taken <= |messages|
    ensures forall i :: 0 <= i < (if r == Nothing then taken else taken - 1) ==> messages[i].Done?
    ensures match r
            case Found(values) => taken > 0 && messages[taken - 1] == Row(values)
            case Broken => taken > 0 && messages[taken - 1] == Failed
            case Nothing => taken == |messages|
  {
    taken := 0;
    while taken < |messages|
      invariant taken <= |messages|
      invariant forall i :: 0 <= i < taken ==> messages[i].Done?
    {
      taken := taken + 1;
      match messages[taken - 1] {
        case Row(values) => return Found(values), taken;
        case Failed => return Broken, taken;
        case Done(_) =>
      }
    }
    r := Nothing;
  }

  // ------------------------------------------------------------ buffered against unbuffered

  ghost predicate SameItem(a: Item, b: Item) {
    if a.Row? && b.Row? then
      |a.values| == |b.values| && forall c :: 0 <= c < |a.values| ==> SameValue(a.values[c], b.values[c])
    else a == b
  }

  ghost predicate SameItems(a: seq<Item>, b: seq<Item>) {
    |a| == |b| && forall i :: 0 <= i < |a| ==> SameItem(a[i], b[i])
  }

  /** Every cell has a type both paths cover and a value of that type. */
  ghost predicate Regular(s: RowSet) {
    && ValidRowSet(s)
    && (forall c :: 0 <= c < |s.columns| ==> Covered(s.columns[c].dataType))
    && (forall i, c :: 0 <= i < |s.rows| && 0 <= c < |s.columns| ==> Conforms(s.rows[i][c], s.columns[c]))
  }

  ghost predicate AllFit(s: RowSet, maxColumnSize: nat)
    requires ValidRowSet(s)
  {
    forall i, c :: 0 <= i < |s.rows| && 0 <= c < |s.columns| ==> Fits(s.rows[i][c], maxColumnSize)
  }

  /** A result set none of whose calls fails gives the same rows on both paths exactly when every value fits. */
  lemma BufferedRowsExactly(s: RowSet, batchSize: nat, maxColumnSize: nat)
    requires Regular(s) && !s.breaks && batchSize > 0
    ensures SameItems(RowItems(s, Unbuffered), RowItems(s, Buffered(batchSize, maxColumnSize))) <==> AllFit(s, maxColumnSize)
  {
    var a, b := RowItems(s, Unbuffered), RowItems(s, Buffered(batchSize, maxColumnSize));
    forall i, c | 0 <= i < |s.rows| && 0 <= c < |s.columns|
      ensures SameValue(a[i].values[c], b[i].values[c]) <==> Fits(s.rows[i][c], maxColumnSize)
    {
      BufferedValueExactly(s.rows[i][c], s.columns[c], maxColumnSize);
    }
    if SameItems(a, b) {
      forall i, c | 0 <= i < |s.rows| && 0 <= c < |s.columns|
        ensures Fits(s.rows[i][c], maxColumnSize)
      {
        assert SameItem(a[i], b[i]);
      }
    }
  }

  /** The rows of a stream show the cells of the result set, row by row and column by column, on either path. */
  lemma RowsShowCells(s: RowSet, f: Fetch, i: nat, c: nat)
    requires Regular(s) && ValidFetch(f) && (f.Buffered? ==> AllFit(s, f.maxColumnSize))
    requires i < |RowItems(s, f)| && c < |s.columns|
    ensures !s.breaks ==> |RowItems(s, f)| == |s.rows|
    ensures i < |s.rows| && RowItems(s, f)[i].Row? && |RowItems(s, f)[i].values| == |s.columns|
    ensures Shows(RowItems(s, f)[i].values[c], s.rows[i][c], s.columns[c].dataType)
  {
    CellIsShown(s.rows[i][c], s.columns[c], if f.Buffered? then f.maxColumnSize else 0);
  }

  /** What one result streams when nothing fails: its count, never below 0, or all its rows in order and then a zero count. */
  lemma ResultIsShown(r: BatchResult, f: Fetch, i: nat, c: nat)
    requires ValidFetch(f) && !Fails(r, f) && (r.ResultSet? ==> Regular(r.rowSet))
    requires r.ResultSet? && f.Buffered? ==> AllFit(r.rowSet, f.maxColumnSize)
    ensures var items := ResultOutput(r, f).items;
            match r
            case Count(n) => items == [Done(if n > 0 then n else 0)]
            case ResultSet(s) =>
              && |items| == |s.rows| + 1 && items[|s.rows|] == Done(0)
              && (i < |s.rows| ==> items[i].Row? && |items[i].values| == |s.columns|)
              && (i < |s.rows| && c < |s.columns| ==> Shows(items[i].values[c], s.rows[i][c], s.columns[c].dataType))
            case _ => true
  {
    if r.ResultSet? && i < |r.rowSet.rows| && c < |r.rowSet.columns| {
      RowsShowCells(r.rowSet, f, i, c);
    }
  }

  /** A consumer found gone ends the walk without an error. */
  lemma GoneIsNoError(b: Batch, f: Fetch, i: nat, room: nat)
    requires ValidBatch(b) && ValidFetch(f) && i < |b.results| && !Fails(b.results[i], f)
    requires match b.results[i]
             case Count(_) => room == 0
             case ResultSet(s) => room < |s.rows|
             case _ => false
    ensures WalkVerdict(b, f, i, room)
  {
  }

  /** A batch whose result sets are regular and whose fetching calls all succeed. */
  ghost predicate RegularBatch(b: Batch) {
    && ValidBatch(b)
    && forall i :: 0 <= i < |b.results| && b.results[i].ResultSet? ==> RegularResult(b.results[i].rowSet)
  }

  ghost predicate RegularResult(s: RowSet) {
    Regular(s) && !s.breaks && s.described && s.bindable && s.unbindable
  }

  ghost predicate BatchFits(b: Batch, maxColumnSize: nat)
    requires ValidBatch(b)
  {
    forall i :: 0 <= i < |b.results| && b.results[i].ResultSet? ==> AllFit(b.results[i].rowSet, maxColumnSize)
  }

  lemma {:induction false} BufferedBatchFrom(b: Batch, batchSize: nat, maxColumnSize: nat, i: nat)
    requires RegularBatch(b) && BatchFits(b, maxColumnSize) && batchSize > 0 && i <= |b.results|
    ensures var u, v := OutputFrom(b, Unbuffered, i), OutputFrom(b, Buffered(batchSize, maxColumnSize), i);
            u.ok == v.ok && SameItems(u.items, v.items)
    decreases |b.results| - i
  {
    if i < |b.results| {
      var g := Buffered(batchSize, maxColumnSize);
      BufferedBatchFrom(b, batchSize, maxColumnSize, i + 1);
      BufferedResult(b.results[i], batchSize, maxColumnSize);
      SameItemsTogether(ResultOutput(b.results[i], Unbuffered).items, OutputFrom(b, Unbuffered, i + 1).items,
                        ResultOutput(b.results[i], g).items, OutputFrom(b, g, i + 1).items);
    }
  }

  lemma SameItemsTogether(a: seq<Item>, b: seq<Item>, c: seq<Item>, d: seq<Item>)
    requires SameItems(a, c) && SameItems(b, d)
    ensures SameItems(a + b, c + d)
  {
  }

  lemma BufferedResult(r: BatchResult, batchSize: nat, maxColumnSize: nat)
    requires batchSize > 0
    requires r.ResultSet? ==> RegularResult(r.rowSet) && AllFit(r.rowSet, maxColumnSize)
    ensures var u, v := ResultOutput(r, Unbuffered), ResultOutput(r, Buffered(batchSize, maxColumnSize));
            u.ok == v.ok && SameItems(u.items, v.items)
  {
    if r.ResultSet? {
      BufferedRowsExactly(r.rowSet, batchSize, maxColumnSize);
    }
  }

  /** For every batch size the buffered stream shows the consumer what the unbuffered one does. */
  lemma BufferedRefinesUnbuffered(b: Batch, batchSize: nat, maxColumnSize: nat)
    requires RegularBatch(b) && BatchFits(b, maxColumnSize) && batchSize > 0
    ensures SameItems(Messages(Output(b, Unbuffered)), Messages(Output(b, Buffered(batchSize, maxColumnSize))))
  {
    BufferedBatchFrom(b, batchSize, maxColumnSize, 0);
  }

  /** Where fetching breaks, the buffered path shows a prefix of the unbuffered rows, short by less than a batch. */
  lemma BrokenFetchLosesLessThanABatch(s: RowSet, batchSize: nat, maxColumnSize: nat)
    requires Regular(s) && s.breaks && AllFit(s, maxColumnSize) && batchSize > 0
    ensures var a, b := RowItems(s, Unbuffered), RowItems(s, Buffered(batchSize, maxColumnSize));
            |b| <= |a| < |b| + batchSize && SameItems(a[..|b|], b)
  {
    var whole := s.(breaks := false);
    BufferedRowsExactly(whole, batchSize, maxColumnSize);
    var a, b := RowItems(s, Unbuffered), RowItems(s, Buffered(batchSize, maxColumnSize));
    assert forall i :: 0 <= i < |b| ==> b[i] == RowItems(whole, Buffered(batchSize, maxColumnSize))[i];
    assert a == RowItems(whole, Unbuffered);
  }
}
