// One executor (executor.sh:5-32) and any number of health checks (healthcheck.sh:14-41) over
// a shared directory, in every interleaving. The two sides lock different files
// (executor.sh:29, healthcheck.sh:7), so both locks are no-ops here: a check works on the
// inode it opened, and only the rename makes a new one visible.
module ExitCodeHandoff {
  import opened Strings
  import opened ExitCodeText

  datatype Writer =
    | Fresh                       // exit_code.log not yet truncated
    | StatusReset | TempReset     // after lines 7 and 8
    | TaskDone
    | Writing(left: string)       // echo to the opened, truncated temporary file
    | Written
    | Moved                       // after mv

  datatype Phase = Testing | Opening | Reading(inode: nat, seen: string) | Done(exitCode: string)

  // late: the check began after the truncation of exit_code.log; settled: after the rename.
  datatype Check = Check(late: bool, settled: bool, phase: Phase)

  datatype State = State(
    files: map<nat, string>,      // content by inode
    status: Option<nat>,          // exit_code.log
    temp: Option<nat>,            // exit_code_temp.log
    writer: Writer,
    checks: map<nat, Check>)

  datatype Action =
    | ResetStatus(inode: nat) | ResetTemp(inode: nat) | FinishTask | OpenTemp | WriteSome(n: nat) | Move
    | Begin(id: nat) | Test(id: nat) | Open(id: nat) | Read(id: nat, n: nat) | Finish(id: nat)

  // Whatever an earlier run left behind.
  predicate Init(s: State) {
    && s.writer == Fresh && s.checks == map[]
    && (s.status.Some? ==> s.status.value in s.files)
    && (s.temp.Some? ==> s.temp.value in s.files && s.temp != s.status)
  }

  // Truncating a file, or creating it under an unused inode.
  predicate CanReset(s: State, entry: Option<nat>, inode: nat) {
    if entry.Some? then inode == entry.value else inode !in s.files
  }

  predicate Enabled(s: State, a: Action) {
    match a
    case ResetStatus(inode) => s.writer.Fresh? && CanReset(s, s.status, inode)
    case ResetTemp(inode) => s.writer.StatusReset? && CanReset(s, s.temp, inode)
    case FinishTask => s.writer.TempReset?
    case OpenTemp => s.writer.TaskDone? && s.temp.Some?
    case WriteSome(n) => s.writer.Writing? && s.temp.Some? && s.temp.value in s.files && 1 <= n <= |s.writer.left|
    case Move => s.writer.Written? && s.temp.Some?
    case Begin(id) => id !in s.checks
    case Test(id) => id in s.checks && s.checks[id].phase.Testing?
    case Open(id) => id in s.checks && s.checks[id].phase.Opening? && s.status.Some?
    case Read(id, n) =>
      && id in s.checks && s.checks[id].phase.Reading? && s.checks[id].phase.inode in s.files
      && |s.checks[id].phase.seen| + n <= |s.files[s.checks[id].phase.inode]|
    case Finish(id) =>
      && id in s.checks && s.checks[id].phase.Reading? && s.checks[id].phase.inode in s.files
      // the loop broke at a match, or reading reached the end of the file
      && (ExtractCode(s.checks[id].phase.seen) != ""
          || |s.checks[id].phase.seen| >= |s.files[s.checks[id].phase.inode]|)
  }

  function SetPhase(s: State, id: nat, phase: Phase): State
    requires id in s.checks
  {
    s.(checks := s.checks[id := s.checks[id].(phase := phase)])
  }

  // [ -s exit_code.log ]
  predicate NonEmpty(s: State) {
    s.status.Some? && s.status.value in s.files && s.files[s.status.value] != ""
  }

  function Apply(code: nat, s: State, a: Action): State
    requires Enabled(s, a)
  {
    match a
    case ResetStatus(inode) => s.(writer := StatusReset, status := Some(inode), files := s.files[inode := ""])
    case ResetTemp(inode) => s.(writer := TempReset, temp := Some(inode), files := s.files[inode := ""])
    case FinishTask => s.(writer := TaskDone)
    case OpenTemp => s.(writer := Writing(Record(code)), files := s.files[s.temp.value := ""])
    case WriteSome(n) =>
      var left := s.writer.left[n..];
      s.(writer := if left == "" then Written else Writing(left),
         files := s.files[s.temp.value := s.files[s.temp.value] + s.writer.left[..n]])
    case Move => s.(writer := Moved, status := s.temp, temp := None)
    case Begin(id) => s.(checks := s.checks[id := Check(!s.writer.Fresh?, s.writer.Moved?, Testing)])
    case Test(id) => SetPhase(s, id, if NonEmpty(s) then Opening else Done(""))
    case Open(id) => SetPhase(s, id, Reading(s.status.value, ""))
    case Read(id, n) =>
      var Reading(inode, seen) := s.checks[id].phase;
      SetPhase(s, id, Reading(inode, seen + s.files[inode][|seen|..|seen| + n]))
    case Finish(id) => SetPhase(s, id, Done(ExtractCode(s.checks[id].phase.seen)))
  }

  ghost predicate Legal(code: nat, s: State, actions: seq<Action>)
    decreases |actions|
  {
    actions == [] || (Enabled(s, actions[0]) && Legal(code, Apply(code, s, actions[0]), actions[1..]))
  }

  ghost function After(code: nat, s: State, actions: seq<Action>): State
    requires Legal(code, s, actions)
    decreases |actions|
  {
    if actions == [] then s else After(code, Apply(code, s, actions[0]), actions[1..])
  }

  lemma OneStep(code: nat, s: State, a: Action, rest: seq<Action>)
    requires Enabled(s, a) && Legal(code, Apply(code, s, a), rest)
    ensures Legal(code, s, [a] + rest) && After(code, s, [a] + rest) == After(code, Apply(code, s, a), rest)
  {
    assert ([a] + rest)[1..] == rest;
  }

  // The files of the writer.
  ghost predicate Files(code: nat, s: State) {
    && (s.status.Some? ==> s.status.value in s.files)
    && (s.temp.Some? ==> s.temp.value in s.files && s.temp != s.status)
    && (!s.writer.Fresh? ==> s.status.Some?)
    && (s.writer.TempReset? || s.writer.TaskDone? || s.writer.Writing? || s.writer.Written? ==> s.temp.Some?)
    && (s.writer.Moved? ==> s.temp.None? && s.files[s.status.value] == Record(code))
    && (!s.writer.Fresh? && !s.writer.Moved? ==> s.files[s.status.value] == "")
    && (s.writer.TempReset? || s.writer.TaskDone? ==> s.files[s.temp.value] == "")
    && (s.writer.Writing? ==> s.writer.left != "" && s.files[s.temp.value] + s.writer.left == Record(code))
    && (s.writer.Written? ==> s.files[s.temp.value] == Record(code))
  }

  // A check only gets to opening when there is a file, and only reads a file that is there.
  ghost predicate CanGoOn(s: State, c: Check) {
    && (c.phase.Opening? ==> s.status.Some?)
    && (c.phase.Reading? ==> c.phase.inode in s.files)
  }

  // A late check reads the truncated file or the moved one, and nothing in between.
  ghost predicate Sound(code: nat, s: State, c: Check) {
    && CanGoOn(s, c)
    && (c.settled ==> s.writer.Moved? && c.late)
    && (c.late ==> !s.writer.Fresh?)
    && (c.phase.Reading? ==> c.phase.inode in s.files && s.temp != Some(c.phase.inode))
    && (c.late && c.phase.Reading? ==>
          && c.phase.seen <= s.files[c.phase.inode]
          && (s.files[c.phase.inode] == "" || (s.writer.Moved? && Some(c.phase.inode) == s.status))
          && (c.settled ==> Some(c.phase.inode) == s.status))
    && (c.late && c.phase.Done? ==> c.phase.exitCode == "" || (s.writer.Moved? && c.phase.exitCode == Decimal(code)))
    && (c.settled && c.phase.Done? ==> c.phase.exitCode == Decimal(code))
  }

  ghost predicate Inv(code: nat, s: State) {
    && Files(code, s)
    && forall id <- s.checks :: Sound(code, s, s.checks[id])
  }

  lemma InvWriter(code: nat, s: State, a: Action)
    requires Inv(code, s) && Enabled(s, a)
    requires a.ResetStatus? || a.ResetTemp? || a.FinishTask? || a.OpenTemp? || a.WriteSome? || a.Move?
    ensures Inv(code, Apply(code, s, a))
  {
    var t := Apply(code, s, a);
    if a.WriteSome? {
      var left := s.writer.left;
      assert left == left[..a.n] + left[a.n..];
      assert s.files[s.temp.value] + left[..a.n] + left[a.n..] == Record(code);
    }
    forall id | id in t.checks
      ensures Sound(code, t, t.checks[id])
    {
      assert Sound(code, s, s.checks[id]);
    }
  }

  lemma InvCheck(code: nat, s: State, a: Action)
    requires Inv(code, s) && Enabled(s, a)
    requires a.Begin? || a.Test? || a.Open? || a.Read? || a.Finish?
    ensures Inv(code, Apply(code, s, a))
  {
    var t := Apply(code, s, a);
    if !a.Begin? {
      assert Sound(code, s, s.checks[a.id]);
    }
    if a.Finish? && s.checks[a.id].late {
      var phase := s.checks[a.id].phase;
      if s.files[phase.inode] == "" {
        assert phase.seen == "";
        assert ExtractCode("") == "";
      } else {
        NeverPartial(code, phase.seen);
      }
    }
    forall id | id in t.checks
      ensures Sound(code, t, t.checks[id])
    {
      if id != a.id {
        assert Sound(code, s, s.checks[id]);
      }
    }
  }

  lemma {:induction false} InvAfter(code: nat, s: State, actions: seq<Action>)
    requires Inv(code, s) && Legal(code, s, actions)
    ensures Inv(code, After(code, s, actions))
    decreases |actions|
  {
    if actions != [] {
      var a := actions[0];
      if a.Begin? || a.Test? || a.Open? || a.Read? || a.Finish? {
        InvCheck(code, s, a);
      } else {
        InvWriter(code, s, a);
      }
      InvAfter(code, Apply(code, s, a), actions[1..]);
    }
  }

  ghost predicate Reachable(code: nat, s: State) {
    exists init, actions :: Init(init) && Legal(code, init, actions) && After(code, init, actions) == s
  }

  lemma InvReachable(code: nat, s: State)
    requires Reachable(code, s)
    ensures Inv(code, s)
  {
    var init, actions :| Init(init) && Legal(code, init, actions) && After(code, init, actions) == s;
    InvAfter(code, init, actions);
  }

  ghost predicate Finished(s: State, id: nat) {
    id in s.checks && s.checks[id].phase.Done?
  }

  // A check that begins after the truncation never extracts a stale or partial code.
  lemma ExtractedCodeIsExact(code: nat, s: State, id: nat)
    requires Reachable(code, s) && Finished(s, id) && s.checks[id].late
    ensures s.checks[id].phase.exitCode in {"", Decimal(code)}
  {
    InvReachable(code, s);
    assert Sound(code, s, s.checks[id]);
  }

  // A check that begins after the rename always extracts the code.
  lemma ChecksAfterTheRenameSucceed(code: nat, s: State, id: nat)
    requires Reachable(code, s) && Finished(s, id) && s.checks[id].settled
    ensures s.checks[id].phase.exitCode == Decimal(code)
    ensures VerdictOf(s.checks[id].phase.exitCode) == if code == 0 then Healthy else Unhealthy
  {
    InvReachable(code, s);
    assert Sound(code, s, s.checks[id]);
    VerdictOfDecimal(code);
  }

  lemma {:induction false} NewChecksAreSettled(code: nat, s: State, actions: seq<Action>, id: nat)
    requires s.writer.Moved? && Legal(code, s, actions)
    requires id in s.checks ==> s.checks[id].settled
    ensures id in After(code, s, actions).checks ==> After(code, s, actions).checks[id].settled
    decreases |actions|
  {
    if actions != [] {
      NewChecksAreSettled(code, Apply(code, s, actions[0]), actions[1..], id);
    }
  }

  // Once one late check has extracted a code, every check that begins later extracts the same
  // code and gives the same verdict.
  lemma LaterChecksAgree(code: nat, s: State, first: nat, actions: seq<Action>, second: nat)
    requires Reachable(code, s) && Finished(s, first) && s.checks[first].late && s.checks[first].phase.exitCode != ""
    requires second !in s.checks && Legal(code, s, actions)
    requires Finished(After(code, s, actions), second)
    ensures var t := After(code, s, actions);
      && t.checks[second].phase.exitCode == s.checks[first].phase.exitCode == Decimal(code)
      && VerdictOf(t.checks[second].phase.exitCode) == if code == 0 then Healthy else Unhealthy
  {
    InvReachable(code, s);
    assert Sound(code, s, s.checks[first]);
    NewChecksAreSettled(code, s, actions, second);
    InvAfter(code, s, actions);
    var t := After(code, s, actions);
    assert Sound(code, t, t.checks[second]);
    VerdictOfDecimal(code);
  }

  // --- Checks that begin at any time -----------------------------------------------------------

  // What an earlier run left in exit_code.log.
  function Leftover(init: State): string
    requires Init(init)
  {
    if init.status.Some? then init.files[init.status.value] else ""
  }

  // What a check can be reading: the file that the earlier run left, as far as it was read
  // before the truncation; an empty file; or the moved one.
  ghost predicate ReadsOneOf(code: nat, init: State, s: State, inode: nat, seen: string)
    requires Init(init)
  {
    && inode in s.files && s.temp != Some(inode)
    && (if init.status == Some(inode) then seen <= Leftover(init)
        else seen <= s.files[inode] && (s.files[inode] == "" || (s.writer.Moved? && s.status == Some(inode))))
  }

  ghost predicate Extracts(code: nat, init: State, exitCode: string)
    requires Init(init)
  {
    exitCode in {"", ExtractCode(Leftover(init)), Decimal(code)}
  }

  ghost predicate TracesCheck(code: nat, init: State, s: State, c: Check)
    requires Init(init)
  {
    match c.phase
    case Reading(inode, seen) => ReadsOneOf(code, init, s, inode, seen)
    case Done(exitCode) => Extracts(code, init, exitCode)
    case _ => true
  }

  // The leftover stands until the truncation and is gone from then on; the file that is moved
  // over it is another one.
  ghost predicate Traces(code: nat, init: State, s: State)
    requires Init(init)
  {
    && Files(code, s)
    && (s.writer.Fresh? ==> s.status == init.status)
    && (init.status.Some? ==>
          && init.status.value in s.files && s.temp != init.status
          && (s.writer.Moved? <==> s.status != init.status)
          && s.files[init.status.value] == if s.writer.Fresh? then Leftover(init) else "")
    && forall id <- s.checks :: TracesCheck(code, init, s, s.checks[id])
  }

  lemma TracesWriter(code: nat, init: State, s: State, a: Action)
    requires Init(init) && Traces(code, init, s) && Enabled(s, a)
    requires a.ResetStatus? || a.ResetTemp? || a.FinishTask? || a.OpenTemp? || a.WriteSome? || a.Move?
    ensures Traces(code, init, Apply(code, s, a))
  {
    var t := Apply(code, s, a);
    if a.WriteSome? {
      var left := s.writer.left;
      assert left == left[..a.n] + left[a.n..];
      assert s.files[s.temp.value] + left[..a.n] + left[a.n..] == Record(code);
    }
    forall id | id in t.checks
      ensures TracesCheck(code, init, t, t.checks[id])
    {
      assert TracesCheck(code, init, s, s.checks[id]);
    }
  }

  lemma FinishedCheckExtracts(code: nat, init: State, s: State, inode: nat, seen: string)
    requires Init(init) && Traces(code, init, s) && ReadsOneOf(code, init, s, inode, seen)
    ensures Extracts(code, init, ExtractCode(seen))
  {
    if init.status == Some(inode) {
      BeginningExtractsNothingElse(seen, Leftover(init));
    } else if s.files[inode] == "" {
      assert ExtractCode("") == "";
    } else {
      NeverPartial(code, seen);
    }
  }

  lemma TracesChecks(code: nat, init: State, s: State, a: Action)
    requires Init(init) && Traces(code, init, s) && Enabled(s, a)
    requires a.Begin? || a.Test? || a.Open? || a.Read? || a.Finish?
    ensures Traces(code, init, Apply(code, s, a))
  {
    var t := Apply(code, s, a);
    if !a.Begin? {
      assert TracesCheck(code, init, s, s.checks[a.id]);
    }
    if a.Finish? {
      FinishedCheckExtracts(code, init, s, s.checks[a.id].phase.inode, s.checks[a.id].phase.seen);
    }
    forall id | id in t.checks
      ensures TracesCheck(code, init, t, t.checks[id])
    {
      if id != a.id {
        assert TracesCheck(code, init, s, s.checks[id]);
      }
    }
  }

  lemma {:induction false} TracesAfter(code: nat, init: State, s: State, actions: seq<Action>)
    requires Init(init) && Traces(code, init, s) && Legal(code, s, actions)
    ensures Traces(code, init, After(code, s, actions))
    decreases |actions|
  {
    if actions != [] {
      var a := actions[0];
      if a.Begin? || a.Test? || a.Open? || a.Read? || a.Finish? {
        TracesChecks(code, init, s, a);
      } else {
        TracesWriter(code, init, s, a);
      }
      TracesAfter(code, init, Apply(code, s, a), actions[1..]);
    }
  }

  // Whenever a check began, it extracts nothing, the code that the earlier run left, or exactly
  // the task's code.
  lemma AnyCheckExtracts(code: nat, init: State, actions: seq<Action>, id: nat)
    requires Init(init) && Legal(code, init, actions) && Finished(After(code, init, actions), id)
    ensures After(code, init, actions).checks[id].phase.exitCode in
      {"", ExtractCode(Leftover(init)), Decimal(code)}
  {
    TracesAfter(code, init, init, actions);
    var s := After(code, init, actions);
    assert TracesCheck(code, init, s, s.checks[id]);
  }

  // Every check of every run from this directory extracts nothing or exactly the task's code.
  ghost predicate EveryCheckIsExact(code: nat, init: State)
    requires Init(init)
  {
    forall actions, id :: Legal(code, init, actions) && Finished(After(code, init, actions), id) ==>
      After(code, init, actions).checks[id].phase.exitCode in {"", Decimal(code)}
  }

  lemma ReadAndFinish(code: nat, s: State, id: nat, text: string)
    requires id in s.checks && s.checks[id].phase.Reading? && s.checks[id].phase.seen == ""
    requires s.checks[id].phase.inode in s.files && s.files[s.checks[id].phase.inode] == text
    ensures Legal(code, s, [Read(id, |text|), Finish(id)])
    ensures After(code, s, [Read(id, |text|), Finish(id)]) == SetPhase(s, id, Done(ExtractCode(text)))
  {
    var t := Apply(code, s, Read(id, |text|));
    assert t.checks[id].phase.seen == text;
    OneStep(code, t, Finish(id), []);
    OneStep(code, s, Read(id, |text|), [Finish(id)]);
  }

  // A check that runs with nothing in between reads the file as it is.
  lemma SoloCheck(code: nat, s: State, id: nat, text: string) returns (actions: seq<Action>)
    requires id !in s.checks && s.status.Some? && s.status.value in s.files
    requires s.files[s.status.value] == text && text != ""
    ensures Legal(code, s, actions)
    ensures After(code, s, actions)
         == s.(checks := s.checks[id := Check(!s.writer.Fresh?, s.writer.Moved?, Done(ExtractCode(text)))])
  {
    var s1 := Apply(code, s, Begin(id));
    var s2 := Apply(code, s1, Test(id));
    var s3 := Apply(code, s2, Open(id));
    actions := [Read(id, |text|), Finish(id)];
    ReadAndFinish(code, s3, id, text);
    OneStep(code, s2, Open(id), actions);
    actions := [Open(id)] + actions;
    OneStep(code, s1, Test(id), actions);
    actions := [Test(id)] + actions;
    OneStep(code, s, Begin(id), actions);
    actions := [Begin(id)] + actions;
  }

  // Exactly when is no check ever misled? The directory must hold no code of an earlier run, or
  // the same one: in a restarted container the truncation alone does not protect the checks.
  lemma EveryCheckIsExactIff(code: nat, init: State)
    requires Init(init)
    ensures EveryCheckIsExact(code, init) <==> ExtractCode(Leftover(init)) in {"", Decimal(code)}
  {
    var left := Leftover(init);
    if ExtractCode(left) in {"", Decimal(code)} {
      forall actions, id | Legal(code, init, actions) && Finished(After(code, init, actions), id)
        ensures After(code, init, actions).checks[id].phase.exitCode in {"", Decimal(code)}
      {
        AnyCheckExtracts(code, init, actions, id);
      }
    } else {
      assert ExtractCode("") == "";
      var actions := SoloCheck(code, init, 0, left);
      assert Finished(After(code, init, actions), 0);
      assert After(code, init, actions).checks[0].phase.exitCode == ExtractCode(left);
    }
  }

  // For instance, a check that began before the truncation reports the code of the earlier run,
  // whatever the task's code will be.
  lemma EarlyCheckMayReportAnOldCode(code: nat, earlier: nat) returns (s: State)
    ensures Reachable(code, s) && Finished(s, 1)
    ensures !s.checks[1].late && s.checks[1].phase.exitCode == Decimal(earlier)
  {
    var text := Record(earlier);
    var init := State(map[0 := text], Some(0), None, Fresh, map[]);
    assert |text| > 0;
    var actions := SoloCheck(code, init, 1, text);
    NeverPartial(earlier, text);
    s := After(code, init, actions);
  }

  // --- The code is published ------------------------------------------------------------------

  // exit_code.log holds the whole record of this task's code.
  ghost predicate Published(code: nat, s: State) {
    s.status.Some? && s.status.value in s.files && s.files[s.status.value] == Record(code)
  }

  predicate OfWriter(a: Action) {
    a.ResetStatus? || a.ResetTemp? || a.FinishTask? || a.OpenTemp? || a.WriteSome? || a.Move?
  }

  // The executor can do nothing any more.
  ghost predicate WriterStopped(s: State) {
    forall a: Action :: OfWriter(a) ==> !Enabled(s, a)
  }

  // Steps left to the executor.
  function StepsLeft(code: nat, w: Writer): nat {
    var n := |Record(code)|;
    match w
    case Fresh => n + 6
    case StatusReset => n + 5
    case TempReset => n + 4
    case TaskDone => n + 3
    case Writing(left) => |left| + 1
    case Written => 1
    case Moved => 0
  }

  function WriterSteps(actions: seq<Action>): nat {
    if actions == [] then 0 else (if OfWriter(actions[0]) then 1 else 0) + WriterSteps(actions[1..])
  }

  // In every run the executor takes a bounded number of steps, whatever the checks do.
  lemma {:induction false} WriterIsBounded(code: nat, s: State, actions: seq<Action>)
    requires Legal(code, s, actions)
    ensures WriterSteps(actions) + StepsLeft(code, After(code, s, actions).writer) <= StepsLeft(code, s.writer)
    decreases |actions|
  {
    if actions != [] {
      WriterIsBounded(code, Apply(code, s, actions[0]), actions[1..]);
    }
  }

  lemma {:induction false} UnusedInode(files: map<nat, string>) returns (inode: nat)
    ensures forall i <- files :: i < inode
    decreases |files|
  {
    if files == map[] {
      inode := 0;
    } else {
      var i :| i in files;
      var n := UnusedInode(files - {i});
      inode := if n <= i then i + 1 else n;
      assert forall k <- files :: k == i || k in files - {i};
    }
  }

  // The executor's next step, until the code is published.
  lemma NextStepOfWriter(code: nat, s: State) returns (a: Action)
    requires Files(code, s)
    ensures !s.writer.Moved? ==> OfWriter(a) && Enabled(s, a)
    ensures s.writer.Moved? ==> Published(code, s)
  {
    var inode := UnusedInode(s.files);
    match s.writer
    case Fresh => a := ResetStatus(if s.status.Some? then s.status.value else inode);
    case StatusReset => a := ResetTemp(if s.temp.Some? then s.temp.value else inode);
    case TempReset => a := FinishTask;
    case TaskDone => a := OpenTemp;
    case Writing(left) => a := WriteSome(1);
    case Written => a := Move;
    case Moved => a := Move;
  }

  // The executor cannot stop before the code is published.
  lemma StoppedWriterHasPublished(code: nat, s: State)
    requires Reachable(code, s) && WriterStopped(s)
    ensures Published(code, s)
  {
    InvReachable(code, s);
    var a := NextStepOfWriter(code, s);
  }

  // From every state of a run the executor alone gets to the end and publishes the code.
  lemma {:induction false} WriterPublishes(code: nat, s: State) returns (actions: seq<Action>)
    requires Inv(code, s)
    ensures Legal(code, s, actions) && forall a <- actions :: OfWriter(a)
    ensures WriterStopped(After(code, s, actions)) && Published(code, After(code, s, actions))
    decreases StepsLeft(code, s.writer)
  {
    var a := NextStepOfWriter(code, s);
    if s.writer.Moved? {
      actions := [];
    } else {
      InvWriter(code, s, a);
      var t := Apply(code, s, a);
      var rest := WriterPublishes(code, t);
      OneStep(code, s, a, rest);
      actions := [a] + rest;
    }
  }

  lemma {:induction false} StoppedWriterStays(code: nat, s: State, actions: seq<Action>)
    requires s.writer.Moved? && Legal(code, s, actions)
    ensures After(code, s, actions).writer.Moved? && After(code, s, actions).status == s.status
    ensures After(code, s, actions).files == s.files
    decreases |actions|
  {
    if actions != [] {
      StoppedWriterStays(code, Apply(code, s, actions[0]), actions[1..]);
    }
  }

  // Once the executor has stopped, the record stays, and every check that begins then and ends
  // extracts exactly the task's code and judges by it.
  lemma ChecksOfTheEndedTask(code: nat, s: State, actions: seq<Action>, id: nat)
    requires Reachable(code, s) && WriterStopped(s) && id !in s.checks
    requires Legal(code, s, actions) && Finished(After(code, s, actions), id)
    ensures Published(code, After(code, s, actions))
    ensures After(code, s, actions).checks[id].phase.exitCode == Decimal(code)
    ensures VerdictOf(Decimal(code)) == if code == 0 then Healthy else Unhealthy
  {
    InvReachable(code, s);
    var a := NextStepOfWriter(code, s);
    StoppedWriterStays(code, s, actions);
    NewChecksAreSettled(code, s, actions, id);
    InvAfter(code, s, actions);
    var t := After(code, s, actions);
    assert Sound(code, t, t.checks[id]);
    VerdictOfDecimal(code);
  }

  // Such a check can always run to its end.
  lemma CheckOfTheEndedTask(code: nat, s: State, id: nat) returns (actions: seq<Action>)
    requires Reachable(code, s) && WriterStopped(s) && id !in s.checks
    ensures Legal(code, s, actions) && Finished(After(code, s, actions), id)
    ensures After(code, s, actions).checks[id].phase.exitCode == Decimal(code)
  {
    InvReachable(code, s);
    StoppedWriterHasPublished(code, s);
    actions := SoloCheck(code, s, id, Record(code));
    NeverPartial(code, Record(code));
  }

  // From any directory whatever: the task ends, its code is published, and a check that begins
  // afterwards finds it.
  lemma EveryTaskIsReported(code: nat, init: State, id: nat) returns (actions: seq<Action>)
    requires Init(init)
    ensures Legal(code, init, actions) && Published(code, After(code, init, actions))
    ensures Finished(After(code, init, actions), id)
    ensures After(code, init, actions).checks[id].phase.exitCode == Decimal(code)
  {
    var writing := WriterPublishes(code, init);
    var s := After(code, init, writing);
    assert Reachable(code, s);
    WritersStartNoChecks(code, init, writing);
    var checking := CheckOfTheEndedTask(code, s, id);
    ChecksOfTheEndedTask(code, s, checking, id);
    RunThenRun(code, init, writing, checking);
    actions := writing + checking;
  }

  lemma {:induction false} WritersStartNoChecks(code: nat, s: State, actions: seq<Action>)
    requires Legal(code, s, actions) && forall a <- actions :: OfWriter(a)
    ensures After(code, s, actions).checks == s.checks
    decreases |actions|
  {
    if actions != [] {
      assert OfWriter(actions[0]);
      WritersStartNoChecks(code, Apply(code, s, actions[0]), actions[1..]);
    }
  }

  lemma {:induction false} RunThenRun(code: nat, s: State, first: seq<Action>, second: seq<Action>)
    requires Legal(code, s, first) && Legal(code, After(code, s, first), second)
    ensures Legal(code, s, first + second)
    ensures After(code, s, first + second) == After(code, After(code, s, first), second)
    decreases |first|
  {
    if first == [] {
      assert first + second == second;
    } else {
      RunThenRun(code, Apply(code, s, first[0]), first[1..], second);
      assert (first + second)[1..] == first[1..] + second;
    }
  }

  lemma {:induction false} NewChecksAreLate(code: nat, s: State, actions: seq<Action>, id: nat)
    requires !s.writer.Fresh? && Legal(code, s, actions)
    requires id in s.checks ==> s.checks[id].late
    ensures id in After(code, s, actions).checks ==> After(code, s, actions).checks[id].late
    decreases |actions|
  {
    if actions != [] {
      NewChecksAreLate(code, Apply(code, s, actions[0]), actions[1..], id);
    }
  }

  // Whatever happened before, once exit_code.log is truncated no check that begins afterwards
  // extracts anything but the task's code.
  lemma ChecksAfterTheTruncationAreExact(code: nat, init: State, before: seq<Action>, inode: nat,
                                         actions: seq<Action>, id: nat)
    requires Init(init) && Legal(code, init, before) && Enabled(After(code, init, before), ResetStatus(inode))
    requires var s := Apply(code, After(code, init, before), ResetStatus(inode));
      id !in s.checks && Legal(code, s, actions) && Finished(After(code, s, actions), id)
    ensures var s := Apply(code, After(code, init, before), ResetStatus(inode));
      After(code, s, actions).checks[id].phase.exitCode in {"", Decimal(code)}
  {
    var t := After(code, init, before);
    InvAfter(code, init, before);
    InvWriter(code, t, ResetStatus(inode));
    var s := Apply(code, t, ResetStatus(inode));
    NewChecksAreLate(code, s, actions, id);
    InvAfter(code, s, actions);
    var u := After(code, s, actions);
    assert Sound(code, u, u.checks[id]);
  }

  // --- No check hangs ---------------------------------------------------------------------------

  function OfCheck(a: Action): Option<nat> {
    match a
    case Test(id) => Some(id)
    case Open(id) => Some(id)
    case Read(id, n) => if n > 0 then Some(id) else None
    case Finish(id) => Some(id)
    case _ => None
  }

  // exit_code.log is missing or empty.
  predicate NothingToRead(s: State) {
    s.status.Some? ==> s.status.value in s.files && s.files[s.status.value] == ""
  }

  // In every state of a run a check that has begun and not ended can take a step of its own: with
  // no file, or an empty one, it ends at the test.
  lemma NoCheckHangs(code: nat, s: State, id: nat)
    requires Reachable(code, s) && id in s.checks && !s.checks[id].phase.Done?
    ensures exists a: Action :: OfCheck(a) == Some(id) && Enabled(s, a)
    ensures s.checks[id].phase.Testing? && NothingToRead(s) ==>
      Apply(code, s, Test(id)).checks[id].phase == Done("")
  {
    InvReachable(code, s);
    assert Sound(code, s, s.checks[id]);
    match s.checks[id].phase
    case Testing => assert OfCheck(Test(id)) == Some(id) && Enabled(s, Test(id));
    case Opening => assert OfCheck(Open(id)) == Some(id) && Enabled(s, Open(id));
    case Reading(inode, seen) =>
      if |seen| < |s.files[inode]| {
        assert OfCheck(Read(id, 1)) == Some(id) && Enabled(s, Read(id, 1));
      } else {
        assert OfCheck(Finish(id)) == Some(id) && Enabled(s, Finish(id));
      }
  }

  // --- Nothing is recorded before the task has ended ----------------------------------------------

  lemma {:induction false} WriterWaitsForTheTask(code: nat, s: State, actions: seq<Action>)
    requires Legal(code, s, actions) && FinishTask !in actions
    requires s.writer.Fresh? || s.writer.StatusReset? || s.writer.TempReset?
    ensures var w := After(code, s, actions).writer; w.Fresh? || w.StatusReset? || w.TempReset?
    decreases |actions|
  {
    if actions != [] {
      assert actions[0] in actions;
      assert forall a <- actions[1..] :: a in actions;
      WriterWaitsForTheTask(code, Apply(code, s, actions[0]), actions[1..]);
    }
  }

  // As long as the task runs, exit_code.log holds what the earlier run left there or nothing.
  lemma NothingIsRecordedBeforeTheEnd(code: nat, init: State, actions: seq<Action>)
    requires Init(init) && Legal(code, init, actions) && FinishTask !in actions
    ensures var s := After(code, init, actions);
      && (s.status.Some? ==> s.status.value in s.files && s.files[s.status.value] in {"", Leftover(init)})
      && (s.writer.Fresh? ==> s.status == init.status)
  {
    WriterWaitsForTheTask(code, init, actions);
    TracesAfter(code, init, init, actions);
  }
}
