/**
 * The bounded response channel between the actor, which sends the messages of
 * one command, and a consumer that may stop reading at any time.
 */
module ResponseChannel {
  import ResultSets

  const CAPACITY: nat := 64

  /**
   * `unsent`: what the actor still has to send; `buffer`: sent and not yet
   * received; `open`: the receiver exists.  Messages are numbered by any type.
   */
  datatype State<T> = State(unsent: seq<T>, buffer: seq<T>, received: seq<T>, open: bool)

  datatype Move = Send | GiveUp | Receive | Drop

  /** The actor's sends block while the buffer is full and fail at once when the receiver is gone. */
  predicate Enabled<T>(s: State<T>, m: Move) {
    match m
    case Send => s.unsent != [] && (s.open ==> |s.buffer| < CAPACITY)
    case GiveUp => s.unsent != [] && !s.open
    case Receive => s.open && s.buffer != []
    case Drop => s.open
  }

  /** `GiveUp` is the walk ending at a failed send; a failed send may also be ignored. */
  function Next<T>(s: State<T>, m: Move): State<T>
    requires Enabled(s, m)
  {
    match m
    case Send =>
      if s.open then s.(unsent := s.unsent[1..], buffer := s.buffer + [s.unsent[0]])
      else s.(unsent := s.unsent[1..])
    case GiveUp => s.(unsent := [])
    case Receive => s.(buffer := s.buffer[1..], received := s.received + [s.buffer[0]])
    case Drop => s.(open := false, buffer := [])
  }

  function Start<T>(output: seq<T>): State<T> {
    State(output, [], [], true)
  }

  predicate Possible<T>(s: State<T>, moves: seq<Move>)
    decreases |moves|
  {
    moves == [] || (Enabled(s, moves[0]) && Possible(Next(s, moves[0]), moves[1..]))
  }

  function Run<T>(s: State<T>, moves: seq<Move>): State<T>
    requires Possible(s, moves)
    decreases |moves|
  {
    if moves == [] then s else Run(Next(s, moves[0]), moves[1..])
  }

  // ------------------------------------------------------------ what every interleaving keeps

  ghost predicate Inv<T>(s: State<T>, output: seq<T>) {
    && |s.buffer| <= CAPACITY
    && s.received <= output
    && (s.open ==> s.received + s.buffer + s.unsent == output)
    && (!s.open ==> s.buffer == [])
  }

  lemma NextKeepsInv<T>(s: State<T>, m: Move, output: seq<T>)
    requires Inv(s, output) && Enabled(s, m)
    ensures Inv(Next(s, m), output)
  {
    var s' := Next(s, m);
    match m
    case Send =>
      if s.open {
        assert s'.received + s'.buffer + s'.unsent == output;
      }
    case Receive =>
      assert s'.received + s'.buffer + s'.unsent == output;
    case _ =>
  }

  /** In every interleaving: a prefix of the sequential output received, at most 64 messages in flight, nothing lost while open. */
  lemma {:induction false} ReceivedIsPrefix<T>(s: State<T>, moves: seq<Move>, output: seq<T>)
    requires Inv(s, output) && Possible(s, moves)
    ensures Inv(Run(s, moves), output)
    decreases |moves|
  {
    if moves != [] {
      NextKeepsInv(s, moves[0], output);
      ReceivedIsPrefix(Next(s, moves[0]), moves[1..], output);
    }
  }

  // ------------------------------------------------------------ termination

  /** Every move makes this smaller: each message is sent and received once, and the receiver is dropped once. */
  function Remaining<T>(s: State<T>): nat {
    2 * |s.unsent| + |s.buffer| + if s.open then 1 else 0
  }

  lemma EveryMoveProgresses<T>(s: State<T>, m: Move)
    requires Enabled(s, m)
    ensures Remaining(Next(s, m)) < Remaining(s)
  {
  }

  /** So no interleaving is longer than the output allows. */
  lemma {:induction false} RunsAreBounded<T>(s: State<T>, moves: seq<Move>)
    requires Possible(s, moves)
    ensures |moves| + Remaining(Run(s, moves)) <= Remaining(s)
    decreases |moves|
  {
    if moves != [] {
      EveryMoveProgresses(s, moves[0]);
      RunsAreBounded(Next(s, moves[0]), moves[1..]);
    }
  }

  /** The actor is done when nothing is left to send; then it takes the next command. */
  predicate Idle<T>(s: State<T>) {
    s.unsent == []
  }

  /** No deadlock: an actor that is not done can move, or the consumer has something to read. */
  lemma NobodyIsStuck<T>(s: State<T>)
    requires !Idle(s)
    ensures Enabled(s, Send) || Enabled(s, Receive)
    ensures !s.open ==> Enabled(s, Send) && Enabled(s, GiveUp)
  {
  }

  /** A consumer that never drops and has read until nothing is left received everything. */
  lemma ReadingToTheEndGetsAll<T>(output: seq<T>, moves: seq<Move>)
    requires Possible(Start(output), moves)
    requires var end := Run(Start(output), moves); end.open && Idle(end) && end.buffer == []
    ensures Run(Start(output), moves).received == output
  {
    ReceivedIsPrefix(Start(output), moves, output);
  }

  /** The stop points of a run: nobody can move except by dropping the receiver. */
  predicate Quiet<T>(s: State<T>) {
    !Enabled(s, Send) && !Enabled(s, GiveUp) && !Enabled(s, Receive)
  }

  /**
   * Any run that is continued until nobody can move ends with the actor idle;
   * the consumer has the whole output unless it dropped the receiver, and then
   * the actor went on without it.
   */
  lemma QuietMeansDone<T>(output: seq<T>, moves: seq<Move>)
    requires Possible(Start(output), moves) && Quiet(Run(Start(output), moves))
    ensures var end := Run(Start(output), moves);
            && Idle(end)
            && (end.open ==> end.received == output)
            && end.received <= output
  {
    var end := Run(Start(output), moves);
    ReceivedIsPrefix(Start(output), moves, output);
    if !Idle(end) {
      NobodyIsStuck(end);
    }
  }

  /** After an early drop the actor finishes on its own: as many failed sends as messages are left. */
  lemma {:induction false} ActorFinishesAlone<T>(s: State<T>) returns (moves: seq<Move>)
    requires !s.open
    ensures Possible(s, moves) && Idle(Run(s, moves)) && |moves| == |s.unsent|
    ensures forall m <- moves :: m == Send
    decreases |s.unsent|
  {
    if s.unsent == [] {
      moves := [];
    } else {
      var rest := ActorFinishesAlone(Next(s, Send));
      moves := [Send] + rest;
      assert moves[1..] == rest;
    }
  }

  // ------------------------------------------------------------ the walk's view of the channel

  /** How many sends met an open receiver. */
  function Accepted<T>(s: State<T>, moves: seq<Move>): nat
    requires Possible(s, moves)
    decreases |moves|
  {
    if moves == [] then 0
    else (if moves[0] == Send && s.open then 1 else 0) + Accepted(Next(s, moves[0]), moves[1..])
  }

  lemma {:induction false} AcceptedCounts<T>(s: State<T>, moves: seq<Move>, output: seq<T>)
    requires Inv(s, output) && Possible(s, moves)
    ensures var end := Run(s, moves);
            && Accepted(s, moves) <= |s.unsent|
            && (end.open ==> s.open)
            && (end.open ==> |end.received| + |end.buffer| == |s.received| + |s.buffer| + Accepted(s, moves))
            && |end.received| <= |s.received| + |s.buffer| + Accepted(s, moves)
    decreases |moves|
  {
    if moves != [] {
      NextKeepsInv(s, moves[0], output);
      AcceptedCounts(Next(s, moves[0]), moves[1..], output);
    }
  }

  /**
   * The sender of the batch walk, which only knows how many messages the
   * consumer takes, delivers in every interleaving at least what was received,
   * and exactly what was received or is in flight while the receiver exists.
   */
  lemma WalkDeliversWhatIsAccepted(output: seq<ResultSets.Item>, moves: seq<Move>)
    requires Possible(Start(output), moves)
    ensures var end := Run(Start(output), moves);
            var room := Accepted(Start(output), moves);
            var delivered := ResultSets.SendAll(ResultSets.Channel([], room), output).delivered;
            && |delivered| == room
            && end.received <= delivered
            && (end.open ==> end.received + end.buffer == delivered)
  {
    var end := Run(Start(output), moves);
    var room := Accepted(Start(output), moves);
    ReceivedIsPrefix(Start(output), moves, output);
    AcceptedCounts(Start(output), moves, output);
    FirstDelivered(output, room);
    if end.open {
      PrefixOfParts(end.received, end.buffer, end.unsent);
    }
  }

  lemma FirstDelivered(output: seq<ResultSets.Item>, room: nat)
    requires room <= |output|
    ensures ResultSets.SendAll(ResultSets.Channel([], room), output).delivered == output[..room]
  {
    ResultSets.SendAllDeliversPrefix(ResultSets.Channel([], room), output);
    assert [] + ResultSets.Prefix(output, room) == output[..room];
  }

  lemma PrefixOfParts<T>(a: seq<T>, b: seq<T>, c: seq<T>)
    ensures (a + b + c)[..|a| + |b|] == a + b
  {
  }
}
