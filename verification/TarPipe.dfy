// The tar producer goroutine, the io.Pipe and the copy consumer of WriteFolderToVolume
// (volume.go:264-377) as a state machine over all their interleavings. The pipe is io.Pipe:
// a write blocks until readers took all of it or either end is closed, each end keeps the
// first error it was closed with, and a read after the writer closed returns that error.
module TarPipe {
  import opened Strings
  import opened TarStream

  datatype Producer =
    | Walking                                   // between two writes
    | Writing(rest: seq<Unit>, footer: bool)    // blocked in a pipe write
    | ClosingTar                                // deferred tw.Close
    | ClosingPipe                               // deferred pw.Close or pw.CloseWithError
    | Ended                                     // wg.Done was called

  datatype Main =
    | Starting                                  // CopyFromArchiveWithOptions
    | Draining                                  // copyFunc
    | ClosingReader(failure: Cause)
    | ClosingWriter(failure: Cause)
    | Joining(result: Option<Cause>)            // wg.Wait
    | Returned(result: Option<Cause>)

  datatype State = State(
    todo: seq<seq<Unit>>,         // writes of the walk not yet begun
    end: WalkEnd,                 // how the walk ends if no write fails
    producer: Producer,
    broken: bool,                 // a write failed because the pipe was closed
    walkErr: Option<Cause>,
    readerErr: Option<Cause>,     // first error the read end was closed with
    writerErr: Option<Cause>,     // first error the write end was closed with
    received: seq<Unit>,
    seen: Option<Cause>,          // what ended the consumer's reading
    main: Main)

  datatype Action =
    | BeginWrite | AbortWrite | EndWalk | CloseTar | ClosePipe
    | CopyStarts | CopyRefused(error: Cause)
    | Read(n: nat) | SeeClose | CloseEarly(error: Cause) | CopyReturnsNil | CopyFails(error: Cause)
    | CloseReader | CloseWriter | Join

  function Init(walk: seq<Visit>): State {
    var plan := PlanOf(walk, 0);
    State(plan.writes, plan.end, Walking, false, None, None, None, [], None, Starting)
  }

  predicate Closed(s: State) {
    s.readerErr.Some? || s.writerErr.Some?
  }

  function ErrorOf(end: WalkEnd): Option<Cause> {
    if end.Finished? then None else Some(end.cause)
  }

  // What closing the write end makes a reader see.
  function Closing(walkErr: Option<Cause>): Cause {
    if walkErr.None? then EndOfFile else walkErr.value
  }

  function Once(first: Option<Cause>, err: Cause): Option<Cause> {
    if first.Some? then first else Some(err)
  }

  // CopyReturnsNil carries the consumer's contract: nil only after it read end of stream.
  // CopyFails may happen at any time while copying, and so may CloseEarly: an HTTP transport
  // closes the body it is given when it is done with it.
  predicate Enabled(s: State, a: Action) {
    match a
    case BeginWrite => s.producer.Walking? && s.todo != []
    case AbortWrite => s.producer.Writing? && Closed(s)
    case EndWalk => s.producer.Walking? && s.todo == []
    case CloseTar => s.producer.ClosingTar?
    case ClosePipe => s.producer.ClosingPipe?
    case CopyStarts => s.main.Starting?
    case CopyRefused(_) => s.main.Starting?
    case Read(n) => s.main.Draining? && s.seen.None? && !Closed(s) && s.producer.Writing? && 1 <= n <= |s.producer.rest|
    case SeeClose => s.main.Draining? && s.seen.None? && s.writerErr.Some? && s.readerErr.None?
    case CloseEarly(_) => s.main.Draining? && s.readerErr.None?
    case CopyReturnsNil => s.main.Draining? && s.seen == Some(EndOfFile)
    case CopyFails(_) => s.main.Draining?
    case CloseReader => s.main.ClosingReader?
    case CloseWriter => s.main.ClosingWriter?
    case Join => s.main.Joining? && s.producer.Ended?
  }

  function Apply(s: State, a: Action): State
    requires Enabled(s, a)
  {
    match a
    case BeginWrite =>
      if Closed(s) then s.(producer := ClosingTar, broken := true, walkErr := Some(Fault("write: closed pipe")))
      else s.(producer := Writing(s.todo[0], false), todo := s.todo[1..])
    case AbortWrite =>
      if s.producer.footer then s.(producer := ClosingPipe, broken := true)
      else s.(producer := ClosingTar, broken := true, walkErr := Some(Fault("write: closed pipe")))
    case EndWalk => s.(producer := ClosingTar, walkErr := ErrorOf(s.end))
    case CloseTar =>
      // an owed body, a failed write or a closed pipe makes tw.Close fail, which is only logged
      if s.broken || s.end.owed > 0 then s.(producer := ClosingPipe)
      else if Closed(s) then s.(producer := ClosingPipe, broken := true)
      else s.(producer := Writing([Footer], true))
    case ClosePipe => s.(producer := Ended, writerErr := Once(s.writerErr, Closing(s.walkErr)))
    case CopyStarts => s.(main := Draining)
    case CopyRefused(error) => s.(main := ClosingReader(error))
    case Read(n) =>
      var rest := s.producer.rest[n..];
      var next := if rest != [] then Writing(rest, s.producer.footer)
                  else if s.producer.footer then ClosingPipe else Walking;
      s.(producer := next, received := s.received + s.producer.rest[..n])
    case SeeClose => s.(seen := s.writerErr)
    case CloseEarly(error) => s.(readerErr := Some(error))
    case CopyReturnsNil => s.(main := Joining(None))
    case CopyFails(error) => s.(main := ClosingReader(error))
    case CloseReader => s.(readerErr := Once(s.readerErr, s.main.failure), main := ClosingWriter(s.main.failure))
    case CloseWriter => s.(writerErr := Once(s.writerErr, s.main.failure), main := Joining(Some(s.main.failure)))
    case Join => s.(main := Returned(s.main.result))
  }

  ghost predicate Legal(s: State, actions: seq<Action>)
    decreases |actions|
  {
    actions == [] || (Enabled(s, actions[0]) && Legal(Apply(s, actions[0]), actions[1..]))
  }

  ghost function After(s: State, actions: seq<Action>): State
    requires Legal(s, actions)
    decreases |actions|
  {
    if actions == [] then s else After(Apply(s, actions[0]), actions[1..])
  }

  ghost predicate Reachable(walk: seq<Visit>, s: State) {
    exists actions :: Legal(Init(walk), actions) && After(Init(walk), actions) == s
  }

  function FooterOf(end: WalkEnd): seq<Unit> {
    if end.owed == 0 then [Footer] else []
  }

  // Everything that the walk has to send.
  function Stream(walk: seq<Visit>): seq<Unit> {
    Units(walk) + FooterOf(PlanOf(walk, 0).end)
  }

  // What the producer sent so far, by its position.
  ghost predicate Sent(walk: seq<Visit>, s: State) {
    match s.producer
    case Walking => !s.broken && s.received + Flatten(s.todo) == Units(walk)
    case Writing(rest, footer) =>
      && !s.broken && rest != []
      && (footer ==>
            && |rest| == 1 && s.received + rest == Units(walk) + [Footer]
            && s.end.owed == 0 && s.walkErr == ErrorOf(s.end))
      && (!footer ==> s.received + rest + Flatten(s.todo) == Units(walk))
    case ClosingTar => s.broken || (s.received == Units(walk) && s.walkErr == ErrorOf(s.end))
    case _ => s.broken || (s.received == Stream(walk) && s.walkErr == ErrorOf(s.end))
  }

  // Which ends are closed, and with what.
  ghost predicate Ends(s: State) {
    && (s.broken ==> s.readerErr.Some?)
    && (s.main.Starting? ==> s.readerErr.None?)
    && (s.main.ClosingWriter? || ((s.main.Joining? || s.main.Returned?) && s.main.result.Some?) ==> s.readerErr.Some?)
    && (s.producer.Ended? ==> s.writerErr.Some?)
    // a failed copy closes both ends before the join
    && ((s.main.Joining? || s.main.Returned?) && s.main.result.Some? ==>
          s.writerErr.Some? && (s.producer.Ended? || s.writerErr == s.main.result))
    && (s.writerErr.Some? && !s.producer.Ended? ==> s.main.Joining? && s.main.result.Some?)
    && (s.readerErr.None? ==> s.writerErr == if s.producer.Ended? then Some(Closing(s.walkErr)) else None)
    && (s.seen.Some? ==> s.producer.Ended?)
    && (s.main.Joining? || s.main.Returned? ==> s.main.result.None? ==> s.seen == Some(EndOfFile))
    && (s.main.Returned? ==> s.producer.Ended?)
  }

  // A walk that was cut short ends with the error of the failed write.
  ghost predicate CutShort(walk: seq<Visit>, s: State) {
    (s.producer.ClosingTar? || s.producer.ClosingPipe? || s.producer.Ended?) && |s.received| < |Units(walk)| ==>
      s.walkErr.Some? && s.walkErr != Some(EndOfFile)
  }

  ghost predicate Inv(walk: seq<Visit>, s: State) {
    && s.end == PlanOf(walk, 0).end
    && NoEmptyWrites(s.todo)
    && s.received <= Units(walk) + [Footer]
    && Sent(walk, s)
    && CutShort(walk, s)
    && Ends(s)
    && (s.seen.Some? ==> s.seen == Some(Closing(ErrorOf(s.end))) && s.received == Stream(walk))
  }

  ghost predicate NoEmptyWrites(writes: seq<seq<Unit>>) {
    forall i :: 0 <= i < |writes| ==> writes[i] != []
  }

  lemma {:induction false} PlansHaveNoEmptyWrites(walk: seq<Visit>, owed: nat)
    ensures NoEmptyWrites(PlanOf(walk, owed).writes)
    decreases |walk|
  {
    if walk != [] {
      forall o: nat
        ensures NoEmptyWrites(PlanOf(walk[1..], o).writes)
      {
        PlansHaveNoEmptyWrites(walk[1..], o);
      }
      if walk[0].File? && walk[0].source.Content? {
        var File(_, size, source) := walk[0];
        assert NoEmptyWrites(AfterHeader(size, source, walk[1..]).writes);
      }
    }
  }

  lemma InvInitially(walk: seq<Visit>)
    ensures Inv(walk, Init(walk))
  {
    PlansHaveNoEmptyWrites(walk, 0);
  }

  lemma InvReads(walk: seq<Visit>, s: State, n: nat)
    requires Inv(walk, s) && Enabled(s, Read(n))
    ensures Inv(walk, Apply(s, Read(n)))
  {
    var rest := s.producer.rest;
    var t := Apply(s, Read(n));
    assert rest == rest[..n] + rest[n..];
    assert t.received + rest[n..] == s.received + rest;
    if rest[n..] == [] {
      assert t.received == s.received + rest;
    }
  }

  lemma InvProduces(walk: seq<Visit>, s: State, a: Action)
    requires Inv(walk, s) && Enabled(s, a)
    requires a.BeginWrite? || a.AbortWrite? || a.EndWalk? || a.CloseTar? || a.ClosePipe?
    ensures Inv(walk, Apply(s, a))
  {
    if a.BeginWrite? {
      assert s.todo[0] != [];
      assert s.received + Flatten(s.todo) == s.received + s.todo[0] + Flatten(s.todo[1..]);
    }
  }

  lemma InvConsumes(walk: seq<Visit>, s: State, a: Action)
    requires Inv(walk, s) && Enabled(s, a)
    requires !a.Read? && !(a.BeginWrite? || a.AbortWrite? || a.EndWalk? || a.CloseTar? || a.ClosePipe?)
    ensures Inv(walk, Apply(s, a))
  {
  }

  lemma InvKept(walk: seq<Visit>, s: State, a: Action)
    requires Inv(walk, s) && Enabled(s, a)
    ensures Inv(walk, Apply(s, a))
  {
    if a.Read? {
      InvReads(walk, s, a.n);
    } else if a.BeginWrite? || a.AbortWrite? || a.EndWalk? || a.CloseTar? || a.ClosePipe? {
      InvProduces(walk, s, a);
    } else {
      InvConsumes(walk, s, a);
    }
  }

  lemma {:induction false} InvAfter(walk: seq<Visit>, s: State, actions: seq<Action>)
    requires Inv(walk, s) && Legal(s, actions)
    ensures Inv(walk, After(s, actions))
    decreases |actions|
  {
    if actions != [] {
      InvKept(walk, s, actions[0]);
      InvAfter(walk, Apply(s, actions[0]), actions[1..]);
    }
  }

  lemma InvReachable(walk: seq<Visit>, s: State)
    requires Reachable(walk, s)
    ensures Inv(walk, s)
  {
    var actions :| Legal(Init(walk), actions) && After(Init(walk), actions) == s;
    InvInitially(walk);
    InvAfter(walk, Init(walk), actions);
  }

  // --- What the consumer reads -------------------------------------------------------

  // In every interleaving, whatever fails, the complete entries read so far are the first
  // entries of the walk in order.
  lemma EntriesReadInOrder(walk: seq<Visit>, s: State)
    requires Reachable(walk, s)
    ensures EntriesRead(s.received) <= EntriesOf(walk)
  {
    InvReachable(walk, s);
    EntriesSentInOrder(walk, s.received);
  }

  // What ends the reading is decided by the walk alone: the walk's error, or end of stream
  // after every unit that the walk sends.
  lemma ReadingEndsAsTheWalkEnded(walk: seq<Visit>, s: State)
    requires Reachable(walk, s) && s.seen.Some?
    ensures s.seen == Some(Closing(ErrorOf(PlanOf(walk, 0).end)))
    ensures s.received == Stream(walk)
  {
    InvReachable(walk, s);
  }

  // A producer whose walk was cut short by a failed write closes the pipe with an error, and it
  // says end of stream only if everything was written.
  lemma CutShortIsAnError(walk: seq<Visit>, s: State)
    requires Reachable(walk, s) && s.producer.ClosingPipe? && |s.received| < |Units(walk)|
    ensures Apply(s, ClosePipe).writerErr.Some?
    ensures s.writerErr.None? ==> Apply(s, ClosePipe).writerErr != Some(EndOfFile)
  {
    InvReachable(walk, s);
  }

  // The walk's first failure is what the consumer sees, word for word.
  lemma FirstFailureReachesTheConsumer(front: seq<Visit>, v: Visit, rest: seq<Visit>, s: State)
    requires AllWhole(front) && Reachable(front + [v] + rest, s) && s.seen.Some?
    ensures v.Unreadable? ==> s.seen == Some(v.raw)
    ensures v.NoHeader? ==> s.seen == Some(Fault(v.text))
    ensures v.File? && v.source.CannotOpen? ==> s.seen == Some(Fault(v.source.text))
    ensures v.File? && v.source.Content? && |v.source.bytes| <= v.size && v.source.readError.Some? ==>
      s.seen == Some(Fault(v.source.readError.value))
  {
    ReadingEndsAsTheWalkEnded(front + [v] + rest, s);
    FirstFailure(front, v, rest);
  }

  // The result is nil only after the end of stream was read, and Join waits for the producer.
  lemma NilResultMeansDrained(walk: seq<Visit>, s: State)
    requires Reachable(walk, s) && s.main.Returned?
    ensures s.producer.Ended?
    ensures s.main.result.None? ==> s.seen == Some(EndOfFile) && s.received == Stream(walk)
  {
    InvReachable(walk, s);
  }

  // A file that became shorter than its header announces, which reading it does not report.
  predicate Short(v: Visit) {
    v.File? && v.source.Content? && v.source.readError.None? && |v.source.bytes| < v.size
  }

  // After a short file: nothing more is visited, or WalkDir reports the bare end-of-file value.
  predicate NothingAfter(rest: seq<Visit>) {
    || rest == []
    || rest[0] == Unreadable(EndOfFile)
    || (rest[0].Root? && NothingAfter(rest[1..]))
  }

  // The walks whose end of stream misleads: the first visit that is not whole hands over the
  // bare end-of-file value, or is a short file with nothing after it (tw.Close only logs that).
  predicate Misleads(walk: seq<Visit>) {
    && walk != []
    && if Whole(walk[0]) then Misleads(walk[1..])
       else walk[0] == Unreadable(EndOfFile) || (Short(walk[0]) && NothingAfter(walk[1..]))
  }

  // The walk ends as if everything had been sent.
  predicate LooksComplete(end: WalkEnd) {
    end.Finished? || end.cause == EndOfFile
  }

  lemma {:induction false} NothingAfterIff(rest: seq<Visit>, owed: nat)
    requires owed > 0
    ensures LooksComplete(PlanOf(rest, owed).end) <==> NothingAfter(rest)
  {
    if rest != [] && rest[0].Root? {
      NothingAfterIff(rest[1..], owed);
    }
  }

  // A walk looks complete exactly if it is, or if it misleads.
  lemma {:induction false} LooksCompleteIff(walk: seq<Visit>)
    ensures LooksComplete(PlanOf(walk, 0).end) <==> AllWhole(walk) || Misleads(walk)
    ensures !(AllWhole(walk) && Misleads(walk))
  {
    if walk != [] {
      var v, rest := walk[0], walk[1..];
      assert AllWhole(walk) <==> Whole(v) && AllWhole(rest) by {
        assert walk == [v] + rest;
      }
      WholeVisit(walk);
      if Whole(v) {
        LooksCompleteIff(rest);
      } else if Short(v) {
        UnitsOfFile(walk);
        NothingAfterIff(rest, v.size - |v.source.bytes|);
      } else if v.File? {
        UnitsOfFile(walk);
      }
    }
  }

  // The consumer sees the end of a complete archive of a walk that succeeded.
  ghost predicate CompleteArchive(walk: seq<Visit>, s: State) {
    && AllWhole(walk)
    && s.received == Encode(EntriesOf(walk)) + [Footer]
    && EntriesRead(s.received) == EntriesOf(walk)
  }

  // Exactly when does a clean end of stream prove that the whole walk arrived?
  lemma CleanEndProvesCompleteArchive(walk: seq<Visit>)
    ensures !Misleads(walk) <==>
      forall s: State :: Reachable(walk, s) && s.seen == Some(EndOfFile) ==> CompleteArchive(walk, s)
  {
    LooksCompleteIff(walk);
    WholeWalk(walk);
    if !Misleads(walk) {
      forall s: State | Reachable(walk, s) && s.seen == Some(EndOfFile)
        ensures CompleteArchive(walk, s)
      {
        ReadingEndsAsTheWalkEnded(walk, s);
        assert PlanOf(walk, 0).end == Finished(0);
        ReadingAPrefix(s.received, EntriesOf(walk));
      }
    } else {
      var s := SomeDrainedState(walk);
      InvReachable(walk, s);
      assert s.seen == Some(EndOfFile) && !CompleteArchive(walk, s);
    }
  }

  // A walk of one file that lost its second byte between the header and the copy: the consumer
  // sees a clean end of stream, and what it read holds no entry.
  lemma ShrunkenFileGoesUnnoticed(name: string, b: bv8) returns (s: State)
    ensures var walk := [Root, File(name, 2, Content([b], None))];
      && Misleads(walk)
      && Reachable(walk, s) && s.seen == Some(EndOfFile)
      && EntriesRead(s.received) == [] && s.received != []
  {
    var file := File(name, 2, Content([b], None));
    var walk := [Root, file];
    assert walk[1..] == [file] && [file][1..] == [];
    assert Misleads([file]);
    LooksCompleteIff(walk);
    s := SomeDrainedState(walk);
    ReadingEndsAsTheWalkEnded(walk, s);
    UnitsOfFile([file]);
    UnitsOfBrokenContent(2, file.source, []);
    assert Units(walk) == Units([file]) == [Head(name, Regular, 2)] + Bytes([b]);
    ReadingATornEntry(name, 2, [b], s.received);
  }

  // --- Termination and the join --------------------------------------------------------

  function TotalLength(writes: seq<seq<Unit>>): nat {
    if writes == [] then 0 else |writes[0]| + 1 + TotalLength(writes[1..])
  }

  // Work left to the producer, the consumer and the join.
  function Measure(s: State): nat {
    var producer := match s.producer
      case Walking => 8
      case Writing(rest, footer) => |rest| + (if footer then 3 else 8)
      case ClosingTar => 5
      case ClosingPipe => 2
      case Ended => 0;
    var main := match s.main
      case Starting => 6
      case Draining => 5
      case ClosingReader(_) => 4
      case ClosingWriter(_) => 3
      case Joining(_) => 2
      case Returned(_) => 0;
    TotalLength(s.todo) + producer + main + (if s.seen.None? then 1 else 0) + (if s.readerErr.None? then 1 else 0)
  }

  lemma EveryActionDecreases(s: State, a: Action)
    requires Enabled(s, a)
    ensures Measure(Apply(s, a)) < Measure(s)
  {
  }

  // Every run, fair or not, is bounded by the work there is at its start.
  lemma {:induction false} RunsAreBounded(s: State, actions: seq<Action>)
    requires Legal(s, actions)
    ensures |actions| + Measure(After(s, actions)) <= Measure(s)
    decreases |actions|
  {
    if actions != [] {
      EveryActionDecreases(s, actions[0]);
      RunsAreBounded(Apply(s, actions[0]), actions[1..]);
    }
  }

  // The next action that does not need a failure of the consumer, except that a consumer
  // that has read an error, or closed the pipe before the end, has to return an error.
  function Obliged(s: State): Option<Action> {
    if s.main.Starting? then Some(CopyStarts)
    else if s.main.ClosingReader? then Some(CloseReader)
    else if s.main.ClosingWriter? then Some(CloseWriter)
    else if s.main.Draining? && s.seen == Some(EndOfFile) then Some(CopyReturnsNil)
    else if s.main.Draining? && s.seen.Some? then Some(CopyFails(s.seen.value))
    else if s.main.Draining? && s.readerErr.Some? then Some(CopyFails(s.readerErr.value))
    else
      match s.producer
      case Walking => Some(if s.todo != [] then BeginWrite else EndWalk)
      case Writing(rest, _) => Some(if s.main.Draining? then Read(|rest|) else AbortWrite)
      case ClosingTar => Some(CloseTar)
      case ClosingPipe => Some(ClosePipe)
      case Ended => if s.main.Draining? then Some(SeeClose) else if s.main.Joining? then Some(Join) else None
  }

  // No deadlock: in every reachable state something has to happen next, until the function
  // has returned with the producer goroutine ended.
  lemma NoDeadlock(walk: seq<Visit>, s: State)
    requires Inv(walk, s)
    ensures Obliged(s).Some? ==> Enabled(s, Obliged(s).value)
    ensures Obliged(s).None? ==> s.main.Returned? && s.producer.Ended?
  {
  }

  ghost predicate Stuck(s: State) {
    forall a: Action :: !Enabled(s, a)
  }

  lemma StuckStatesReturned(walk: seq<Visit>, s: State)
    requires Inv(walk, s) && Stuck(s)
    ensures s.main.Returned? && s.producer.Ended?
    ensures s.main.result.None? ==> s.seen == Some(EndOfFile) && s.received == Stream(walk)
  {
    NoDeadlock(walk, s);
  }

  // Every run that cannot be continued has joined the producer and returned.
  lemma MaximalRunsReturn(walk: seq<Visit>, actions: seq<Action>)
    requires Legal(Init(walk), actions)
    requires Stuck(After(Init(walk), actions))
    ensures var s := After(Init(walk), actions);
      && s.main.Returned? && s.producer.Ended?
      && |actions| <= Measure(Init(walk))
      && (s.main.result.None? ==> s.seen == Some(EndOfFile) && s.received == Stream(walk))
  {
    var s := After(Init(walk), actions);
    InvInitially(walk);
    InvAfter(walk, Init(walk), actions);
    RunsAreBounded(Init(walk), actions);
    StuckStatesReturned(walk, s);
  }

  // A run from s in which the consumer never fails and reads to the end.
  lemma {:induction false} DrainingRun(walk: seq<Visit>, s: State) returns (actions: seq<Action>)
    requires Inv(walk, s) && s.main.Draining? && (s.seen.None? ==> s.readerErr.None?)
    ensures Legal(s, actions) && After(s, actions).seen.Some? && After(s, actions).main.Draining?
    decreases Measure(s)
  {
    if s.seen.Some? {
      actions := [];
    } else {
      NoDeadlock(walk, s);
      var a := Obliged(s).value;
      InvKept(walk, s, a);
      EveryActionDecreases(s, a);
      var rest := DrainingRun(walk, Apply(s, a));
      actions := [a] + rest;
    }
  }

  lemma SomeDrainedState(walk: seq<Visit>) returns (s: State)
    ensures Reachable(walk, s) && s.seen.Some?
  {
    InvInitially(walk);
    var init := Init(walk);
    var started := Apply(init, CopyStarts);
    InvKept(walk, init, CopyStarts);
    var actions := DrainingRun(walk, started);
    var run := [CopyStarts] + actions;
    assert run[1..] == actions;
    s := After(init, run);
  }

  // The consumer's contract is needed: on every walk that sends anything a run reaches a state
  // in which returning nil with the pipe undrained leaves the producer in a write that nobody
  // reads, and nothing can ever happen again.
  lemma NilWithoutDrainingDeadlocks(walk: seq<Visit>) returns (s: State)
    requires PlanOf(walk, 0).writes != []
    ensures Reachable(walk, s) && s.main.Draining? && s.seen.None?
    ensures Stuck(s.(main := Joining(None)))
  {
    var init := Init(walk);
    var writing := Apply(init, BeginWrite);
    s := Apply(writing, CopyStarts);
    var run := [BeginWrite, CopyStarts];
    assert run[1..] == [CopyStarts] && [CopyStarts][1..] == [];
    assert Legal(s, []) && Legal(writing, [CopyStarts]);
    assert After(writing, [CopyStarts]) == After(s, []);
    assert Legal(init, run) && After(init, run) == s;
  }

  // --- What the call returns --------------------------------------------------------------

  // What the copy gave, once it has given anything: None is a nil error.
  function CopyResult(main: Main): Option<Option<Cause>> {
    match main
    case Starting => None
    case Draining => None
    case ClosingReader(failure) => Some(Some(failure))
    case ClosingWriter(failure) => Some(Some(failure))
    case Joining(result) => Some(result)
    case Returned(result) => Some(result)
  }

  // The copy reported this result in the run: an error of CopyFromArchiveWithOptions or of
  // copyFunc, or copyFunc's nil.
  predicate Reported(actions: seq<Action>, result: Option<Cause>) {
    match result
    case None => CopyReturnsNil in actions
    case Some(error) => CopyRefused(error) in actions || CopyFails(error) in actions
  }

  // A run reports at most one result, and keeps it.
  lemma {:induction false} ResultIsReported(s: State, actions: seq<Action>, result: Option<Cause>)
    requires Legal(s, actions)
    ensures var before, later := CopyResult(s.main), CopyResult(After(s, actions).main);
      if before.Some? then later == before && !Reported(actions, result)
      else later == Some(result) <==> Reported(actions, result)
    decreases |actions|
  {
    if actions != [] {
      ResultIsReported(Apply(s, actions[0]), actions[1..], result);
      assert actions == [actions[0]] + actions[1..];
    }
  }

  // Over every run: a call that has returned returns nil exactly if the copy returned nil, and
  // otherwise the error with which the copy was refused or failed.
  lemma ReturnsWhatTheCopyReported(walk: seq<Visit>, actions: seq<Action>)
    requires Legal(Init(walk), actions) && After(Init(walk), actions).main.Returned?
    ensures After(Init(walk), actions).main.result.None? <==> CopyReturnsNil in actions
    ensures forall error: Cause :: After(Init(walk), actions).main.result == Some(error) <==>
      CopyRefused(error) in actions || CopyFails(error) in actions
  {
    ResultIsReported(Init(walk), actions, None);
    forall error: Cause
      ensures After(Init(walk), actions).main.result == Some(error) <==>
        CopyRefused(error) in actions || CopyFails(error) in actions
    {
      ResultIsReported(Init(walk), actions, Some(error));
    }
  }

  lemma {:induction false} LegalThenLegal(s: State, first: seq<Action>, second: seq<Action>)
    requires Legal(s, first) && Legal(After(s, first), second)
    ensures Legal(s, first + second) && After(s, first + second) == After(After(s, first), second)
    decreases |first|
  {
    if first == [] {
      assert first + second == second;
    } else {
      LegalThenLegal(Apply(s, first[0]), first[1..], second);
      assert (first + second)[1..] == first[1..] + second;
    }
  }

  // A consumer that has read the end of stream returns nil, and so does the call.
  lemma DrainedCallReturns(walk: seq<Visit>, s: State)
    requires Inv(walk, s) && s.main.Draining? && s.seen == Some(EndOfFile)
    ensures Legal(s, [CopyReturnsNil, Join]) && After(s, [CopyReturnsNil, Join]).main == Returned(None)
  {
    var joining := Apply(s, CopyReturnsNil);
    var returned := Apply(joining, Join);
    assert [CopyReturnsNil, Join][1..] == [Join] && [Join][1..] == [];
    assert Legal(returned, []) && Legal(joining, [Join]) && After(joining, [Join]) == After(returned, []);
  }

  // Exactly the walks that look complete can be copied with a nil result.
  lemma SomeRunReturnsNilIff(walk: seq<Visit>)
    ensures LooksComplete(PlanOf(walk, 0).end) <==>
      exists actions :: Legal(Init(walk), actions) && After(Init(walk), actions).main == Returned(None)
  {
    var init := Init(walk);
    InvInitially(walk);
    if LooksComplete(PlanOf(walk, 0).end) {
      InvKept(walk, init, CopyStarts);
      var draining := DrainingRun(walk, Apply(init, CopyStarts));
      var run := [CopyStarts] + draining;
      assert run[1..] == draining;
      InvAfter(walk, init, run);
      DrainedCallReturns(walk, After(init, run));
      LegalThenLegal(init, run, [CopyReturnsNil, Join]);
    }
    forall actions | Legal(init, actions) && After(init, actions).main == Returned(None)
      ensures LooksComplete(PlanOf(walk, 0).end)
    {
      InvAfter(walk, init, actions);
    }
  }

  // Every unfinished call can be brought to its end without a further failure of the consumer.
  lemma {:induction false} FinishingRun(walk: seq<Visit>, s: State) returns (actions: seq<Action>)
    requires Inv(walk, s)
    ensures Legal(s, actions) && After(s, actions).main.Returned? && After(s, actions).producer.Ended?
    decreases Measure(s)
  {
    NoDeadlock(walk, s);
    if Obliged(s).None? {
      actions := [];
    } else {
      var a := Obliged(s).value;
      InvKept(walk, s, a);
      EveryActionDecreases(s, a);
      var rest := FinishingRun(walk, Apply(s, a));
      actions := [a] + rest;
    }
  }

  // The copy may be refused at the start, or fail whenever it is under way, with any error; then
  // the producer ends and the call returns just that error.
  lemma FailedCopyReturnsItsError(walk: seq<Visit>, s: State, error: Cause) returns (actions: seq<Action>)
    requires Reachable(walk, s) && (s.main.Starting? || s.main.Draining?)
    ensures Legal(s, actions) && After(s, actions).main == Returned(Some(error)) && After(s, actions).producer.Ended?
  {
    InvReachable(walk, s);
    var failing := if s.main.Starting? then CopyRefused(error) else CopyFails(error);
    InvKept(walk, s, failing);
    var rest := FinishingRun(walk, Apply(s, failing));
    actions := [failing] + rest;
    assert actions[1..] == rest;
    assert failing in actions;
    ResultIsReported(s, actions, Some(error));
  }

  predicate OfProducer(a: Action) {
    a.BeginWrite? || a.AbortWrite? || a.EndWalk? || a.CloseTar? || a.ClosePipe?
  }

  // Closing the read end is enough to release the producer: from then on it gets to its end by
  // its own steps alone, whatever main does meanwhile.
  lemma {:induction false} ClosedReaderReleasesProducer(s: State) returns (actions: seq<Action>)
    requires s.readerErr.Some?
    ensures Legal(s, actions) && (forall a <- actions :: OfProducer(a)) && After(s, actions).producer.Ended?
    decreases Measure(s)
  {
    if s.producer.Ended? {
      actions := [];
    } else {
      var a := match s.producer
        case Walking => if s.todo != [] then BeginWrite else EndWalk
        case Writing(_, _) => AbortWrite
        case ClosingTar => CloseTar
        case ClosingPipe => ClosePipe;
      EveryActionDecreases(s, a);
      var rest := ClosedReaderReleasesProducer(Apply(s, a));
      actions := [a] + rest;
    }
  }
}
