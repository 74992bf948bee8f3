// The remove/recreate protocol of volume.go:126-195 and the volume setup of
// WriteFolderToVolume (volume.go:218-249, volume_plan.go:14-31).
module VolumeSetup {
  import opened Strings
  import opened VolumeServer
  import Retry

  datatype VolumeRemoveError = VolumeRemoveError(name: string, cause: string)

  class RemoveBehavior {
    var force: bool
    var retryForce: bool
    var ignoreNotFound: bool
    var attempts: int

    constructor (force: bool, retryForce: bool, ignoreNotFound: bool, attempts: int)
      ensures this.force == force && this.retryForce == retryForce
      ensures this.ignoreNotFound == ignoreNotFound && this.attempts == attempts
    {
      this.force, this.retryForce, this.ignoreNotFound, this.attempts := force, retryForce, ignoreNotFound, attempts;
    }
  }

  // isNotFoundErr (volume.go:436-446)
  predicate IsNotFoundErr(text: string) {
    Contains(text, "404") || Contains(text, "not found")
  }

  predicate StandsAt(text: string, part: string, i: nat) {
    i + |part| <= |text| && text[i..i + |part|] == part
  }

  lemma {:induction false} ContainsIff(text: string, part: string)
    ensures Contains(text, part) <==> exists i: nat :: StandsAt(text, part, i)
  {
    if part <= text {
      assert StandsAt(text, part, 0);
    } else if text != "" {
      ContainsIff(text[1..], part);
      forall i: nat | StandsAt(text[1..], part, i)
        ensures StandsAt(text, part, i + 1)
      {
        assert text[1..][i..i + |part|] == text[i + 1..i + 1 + |part|];
      }
      forall i: nat | StandsAt(text, part, i)
        ensures i > 0 && StandsAt(text[1..], part, i - 1)
      {
        assert i == 0 ==> part <= text;
        assert i > 0 ==> text[1..][i - 1..i - 1 + |part|] == text[i..i + |part|];
      }
    }
  }

  // A text counts as not found exactly if one of the two words stands somewhere in it.
  lemma NotFoundIff(text: string)
    ensures IsNotFoundErr(text) <==> exists i: nat :: StandsAt(text, "404", i) || StandsAt(text, "not found", i)
  {
    ContainsIff(text, "404");
    ContainsIff(text, "not found");
  }

  lemma NotFoundNeedsItsCharacters(text: string)
    requires '4' !in text && 'f' !in text
    ensures !IsNotFoundErr(text)
  {
    var number, words := "404", "not found";
    assert number[0] == '4' && words[4] == 'f';
    ContainsNeedsItsCharacters(text, number, '4');
    ContainsNeedsItsCharacters(text, words, 'f');
  }

  // One attempt: a remove and, if asked for, a forced one after it failed (volume.go:138-152).
  function RemoveAttempt(env: Environment, name: string, force: bool, retryForce: bool, s: Server)
    : (Server, Option<string>)
  {
    var (s1, err) := Remove(env, s, name, force);
    if err.Some? && retryForce && !force then Remove(env, s1, name, true) else (s1, err)
  }

  // The shape of the remove requests of one RemoveVolume call.
  ghost predicate Escalates(sent: seq<RemoveSent>, force: bool, retryForce: bool) {
    forall k :: 0 <= k < |sent| ==> EscalatesAt(sent, k, force, retryForce)
  }

  predicate EscalatesAt(sent: seq<RemoveSent>, k: nat, force: bool, retryForce: bool)
    requires k < |sent|
  {
    if force then sent[k].force
    else if !retryForce then !sent[k].force
    else
      // a forced remove answers a failed unforced one, and each of those is answered
      && (sent[k].force ==> k > 0 && !sent[k - 1].force && sent[k - 1].error.Some?)
      && (!sent[k].force && sent[k].error.Some? ==> k + 1 < |sent| && sent[k + 1].force)
  }

  // The most requests that this many attempts send.
  function MostRemoves(force: bool, retryForce: bool, attempts: nat): nat {
    if retryForce && !force then 2 * attempts else attempts
  }

  // Every one of these requests failed.
  predicate AllRemovesFailed(sent: seq<RemoveSent>) {
    forall k :: 0 <= k < |sent| ==> sent[k].error.Some?
  }

  // A refusal at some time; if the volume was there, the other clients had left it in place.
  ghost predicate WasRefused(env: Environment, name: string, r: RemoveSent) {
    r.error.Some? && exists t: nat ::
      env(t).fate == Refuses(r.error.value) && (r.there ==> ThereAfter(true, env(t).others, name))
  }

  // The remove left the volume in place.
  predicate Left(r: RemoveSent) {
    r.there && r.refused
  }

  // What one or several consecutive attempts did to the server.
  ghost predicate RemovalRan(env: Environment, s: Server, t: Server, name: string, force: bool, retryForce: bool,
                             attempts: nat, sent: seq<RemoveSent>)
  {
    && t.removes == s.removes + sent
    && attempts <= |sent| <= MostRemoves(force, retryForce, attempts)
    && Escalates(sent, force, retryForce)
    && (forall k :: 0 <= k < |sent| && sent[k].refused ==> WasRefused(env, name, sent[k]))
    && Later(s, t)
    && (Quiet(env) ==> t.volumes == s.volumes || t.volumes == s.volumes - {name})
  }

  lemma RemoveRan(env: Environment, s: Server, name: string, force: bool) returns (r: RemoveSent)
    ensures var (t, err) := Remove(env, s, name, force);
      && t.removes == s.removes + [r]
      && r.force == force && r.error == err
      && (name in t.volumes <==> Left(r))
      && (r.refused ==> WasRefused(env, name, r))
      && Later(s, t)
      && (Quiet(env) ==> t.volumes == s.volumes || t.volumes == s.volumes - {name})
  {
    ArriveOnlyAdvances(env, s);
    var (t, err) := Remove(env, s, name, force);
    r := t.removes[|t.removes| - 1];
    OthersLeave(s.(clock := s.clock + 1), env(s.clock).others, name);
    ThereAfterIsMonotone(env(s.clock).others, name);
    assert r.refused ==> env(s.clock).fate == Refuses(err.value);
  }

  lemma {:induction false} ThereAfterIsMonotone(acts: seq<Act>, name: string)
    ensures ThereAfter(false, acts, name) ==> ThereAfter(true, acts, name)
    decreases |acts|
  {
    if acts != [] {
      ThereAfterIsMonotone(acts[1..], name);
    }
  }

  // One attempt sends one or two removes, and only a last one that was refused can leave the
  // volume there.
  lemma AttemptRan(env: Environment, s: Server, name: string, force: bool, retryForce: bool)
    returns (sent: seq<RemoveSent>)
    ensures var (t, err) := RemoveAttempt(env, name, force, retryForce, s);
      && RemovalRan(env, s, t, name, force, retryForce, 1, sent)
      && sent[|sent| - 1].error == err
      && (err.Some? ==> |sent| == MostRemoves(force, retryForce, 1) && AllRemovesFailed(sent))
      && (name in t.volumes <==> Left(sent[|sent| - 1]))
  {
    var first := RemoveRan(env, s, name, force);
    sent := [first];
    if first.error.Some? && retryForce && !force {
      var s1 := Remove(env, s, name, force).0;
      var second := RemoveRan(env, s1, name, true);
      LaterIsTransitive(s, s1, Remove(env, s1, name, true).0);
      sent := [first, second];
    }
  }

  lemma RanThenRan(env: Environment, s: Server, t: Server, u: Server, name: string, force: bool, retryForce: bool,
                   n: nat, m: nat, first: seq<RemoveSent>, second: seq<RemoveSent>)
    requires RemovalRan(env, s, t, name, force, retryForce, n, first)
    requires RemovalRan(env, t, u, name, force, retryForce, m, second)
    ensures RemovalRan(env, s, u, name, force, retryForce, n + m, first + second)
  {
    EscalatesTwice(first, second, force, retryForce);
    LaterIsTransitive(s, t, u);
    assert s.removes + first + second == s.removes + (first + second);
  }

  lemma EscalatesTwice(first: seq<RemoveSent>, second: seq<RemoveSent>, force: bool, retryForce: bool)
    requires Escalates(first, force, retryForce) && Escalates(second, force, retryForce)
    ensures Escalates(first + second, force, retryForce)
  {
    var sent, n := first + second, |first|;
    forall k | 0 <= k < |sent|
      ensures EscalatesAt(sent, k, force, retryForce)
    {
      if k < n {
        assert EscalatesAt(first, k, force, retryForce);
      } else {
        assert EscalatesAt(second, k - n, force, retryForce);
      }
    }
  }

  // --- RemoveVolume -----------------------------------------------------------------------

  // What the caller asked for, with the number of attempts normalised.
  datatype Options = Options(force: bool, retryForce: bool, ignoreNotFound: bool, attempts: nat)

  function OptionsOf(beh: RemoveBehavior?): (o: Options)
    reads beh
    ensures o.attempts > 0
  {
    if beh == null then Options(false, false, false, 1)
    else Options(beh.force, beh.retryForce, beh.ignoreNotFound, Retry.MaxAttempts(beh.attempts))
  }

  function AttemptFn(env: Environment, name: string, o: Options): Server -> (Server, Option<string>) {
    (r: Server) => RemoveAttempt(env, name, o.force, o.retryForce, r)
  }

  // Whether this error is turned into a nil result.
  predicate Ignored(o: Options, cause: Option<string>) {
    cause.Some? && o.ignoreNotFound && IsNotFoundErr(cause.value)
  }

  // The result of a call and the server at its last reply.
  function RemoveResult(env: Environment, ctx: Retry.Context, s: Server, name: string, o: Options)
    : (Option<string>, Server)
    requires o.attempts > 0
  {
    var (cause, t) := Retry.Loop(ctx, o.attempts, AttemptFn(env, name, o), s, 0);
    (if Ignored(o, cause) then None else cause, t)
  }

  // The calls that the retry loop made, taken together.
  lemma {:induction false} AttemptsRan(env: Environment, name: string, o: Options, s: Server,
                                       states: seq<Server>, errs: seq<Option<string>>)
    returns (sent: seq<RemoveSent>)
    requires Retry.Calls(AttemptFn(env, name, o), s, states, errs)
    ensures RemovalRan(env, s, states[|errs|], name, o.force, o.retryForce, |errs|, sent)
    ensures errs != [] ==>
      && sent != []
      && sent[|sent| - 1].error == errs[|errs| - 1]
      && (name in states[|errs|].volumes <==> Left(sent[|sent| - 1]))
    ensures Retry.AllFailed(errs) ==>
      |sent| == MostRemoves(o.force, o.retryForce, |errs|) && AllRemovesFailed(sent)
    decreases |errs|
  {
    sent := [];
    if errs != [] {
      var n := |errs| - 1;
      var first := AttemptsRan(env, name, o, s, states[..n + 1], errs[..n]);
      assert AttemptFn(env, name, o)(states[n]) == (states[n + 1], errs[n]);
      var last := AttemptRan(env, states[n], name, o.force, o.retryForce);
      RanThenRan(env, s, states[n], states[n + 1], name, o.force, o.retryForce, n, 1, first, last);
      sent := first + last;
      if Retry.AllFailed(errs) {
        FailedThenFailed(first, last);
        assert Retry.AllFailed(errs[..n]);
      }
    }
  }

  lemma FailedThenFailed(first: seq<RemoveSent>, last: seq<RemoveSent>)
    requires AllRemovesFailed(last)
    ensures AllRemovesFailed(first) ==> AllRemovesFailed(first + last)
  {
  }

  // The last remove succeeded, or every attempt was made and its error counts as not found.
  predicate EndedWell(o: Options, calls: nat, sent: seq<RemoveSent>) {
    && sent != []
    && var error := sent[|sent| - 1].error;
    && (error.None? || (calls == o.attempts && Ignored(o, error)))
  }

  // Why RemoveVolume gave up.
  ghost predicate GaveUp(ctx: Retry.Context, o: Options, calls: nat, sent: seq<RemoveSent>, cause: string) {
    || (cause == Retry.CANCELLED && calls < o.attempts && Retry.CancelledAfter(ctx, calls))
    || (calls == o.attempts && sent != [] && Some(cause) == sent[|sent| - 1].error && !Ignored(o, Some(cause)))
  }

  // What one call did and what its result means.
  ghost predicate RemoveRun(env: Environment, ctx: Retry.Context, s: Server, after: Server, name: string,
                            o: Options, calls: nat, sent: seq<RemoveSent>, err: Option<string>)
  {
    && calls <= o.attempts
    && RemovalRan(env, s, after, name, o.force, o.retryForce, calls, sent)
    // the volume is left in place exactly if the last remove met it and was refused
    && (sent != [] ==> (name in after.volumes <==> Left(sent[|sent| - 1])))
    && (err.None? <==> EndedWell(o, calls, sent))
    && (err.Some? ==> GaveUp(ctx, o, calls, sent, err.value))
    // it gives up only after every request of every attempt failed
    && (err.Some? ==> |sent| == MostRemoves(o.force, o.retryForce, calls) && AllRemovesFailed(sent))
  }

  lemma CancelledIsNotIgnored(o: Options)
    ensures !Ignored(o, Some(Retry.CANCELLED))
  {
    NotFoundNeedsItsCharacters(Retry.CANCELLED);
  }

  lemma VerdictOfLoop(ctx: Retry.Context, o: Options, sent: seq<RemoveSent>, errs: seq<Option<string>>, waits: nat,
                      cause: Option<string>)
    requires o.attempts > 0 && |errs| <= o.attempts && (sent == [] <==> errs == [])
    requires errs != [] ==> sent[|sent| - 1].error == errs[|errs| - 1]
    requires Retry.Stopped(ctx, o.attempts, errs, waits, cause)
    requires cause.None? <==> |errs| > 0 && errs[|errs| - 1].None?
    ensures cause.None? || Ignored(o, cause) <==> EndedWell(o, |errs|, sent)
    ensures cause.Some? && !Ignored(o, cause) ==> GaveUp(ctx, o, |errs|, sent, cause.value)
  {
    CancelledIsNotIgnored(o);
    var cancelled := Retry.CANCELLED;
    assert cause == Some(cancelled) ==> !Ignored(o, cause);
  }

  lemma LoopIsRemoveRun(env: Environment, ctx: Retry.Context, s: Server, name: string, o: Options,
                        states: seq<Server>, errs: seq<Option<string>>, waits: nat, cause: Option<string>)
    returns (sent: seq<RemoveSent>)
    requires o.attempts > 0 && |errs| <= o.attempts
    requires Retry.Calls(AttemptFn(env, name, o), s, states, errs)
    requires Retry.Stopped(ctx, o.attempts, errs, waits, cause)
    requires cause.None? <==> |errs| > 0 && errs[|errs| - 1].None?
    requires Retry.OnlyLastMayDiffer(ctx, errs)
    ensures RemoveRun(env, ctx, s, states[|errs|], name, o, |errs|, sent, if Ignored(o, cause) then None else cause)
  {
    sent := AttemptsRan(env, name, o, s, states, errs);
    VerdictOfLoop(ctx, o, sent, errs, waits, cause);
    if cause.Some? {
      Retry.GivenUpMeansAllFailed(ctx, errs);
    }
  }

  // An obedient, quiet server removes a volume that is there at the first attempt.
  lemma ObedientRemoves(env: Environment, ctx: Retry.Context, s: Server, name: string, o: Options)
    requires Obedient(env) && Quiet(env) && Retry.NeverCancelled(ctx) && name in s.volumes && o.attempts > 0
    ensures RemoveResult(env, ctx, s, name, o).0.None?
  {
    ArriveOnlyAdvances(env, s);
    assert AttemptFn(env, name, o)(s).1.None?;
  }

  lemma FiveDoublings()
    ensures Retry.Doublings(100 * Retry.MILLISECOND) == 5
  {
    assert Retry.Doublings(3_200 * Retry.MILLISECOND) == 0;
    assert Retry.Doublings(1_600 * Retry.MILLISECOND) == 1;
    assert Retry.Doublings(800 * Retry.MILLISECOND) == 2;
    assert Retry.Doublings(400 * Retry.MILLISECOND) == 3;
    assert Retry.Doublings(200 * Retry.MILLISECOND) == 4;
  }

  lemma WaitsOfRemoval(waits: seq<Retry.Duration>)
    requires Retry.Waited(100 * Retry.MILLISECOND, waits)
    ensures forall k :: 0 <= k < |waits| ==>
      waits[k] == 100 * Retry.MILLISECOND * Retry.Pow2(Retry.Min(k, 5))
  {
    forall k | 0 <= k < |waits|
      ensures waits[k] == 100 * Retry.MILLISECOND * Retry.Pow2(Retry.Min(k, 5))
    {
      Retry.DelayClosedForm(100 * Retry.MILLISECOND, k);
      FiveDoublings();
    }
  }

  method RemoveVolume(env: Environment, ctx: Retry.Context, s: Server, name: string, beh: RemoveBehavior?)
    returns (err: Option<VolumeRemoveError>, after: Server, waits: seq<Retry.Duration>,
             ghost calls: nat, ghost sent: seq<RemoveSent>)
    modifies if beh == null then {} else {beh}
    ensures beh != null ==> beh.attempts == Retry.MaxAttempts(old(beh.attempts))
    ensures OptionsOf(beh) == old(OptionsOf(beh))
    ensures var cause := if err.Some? then Some(err.value.cause) else None;
      && RemoveRun(env, ctx, s, after, name, OptionsOf(beh), calls, sent, cause)
      && (cause, after) == RemoveResult(env, ctx, s, name, OptionsOf(beh))
    ensures err.Some? ==> err.value.name == name
    // it backs off for 100 milliseconds, then twice as long each time up to 3.2 seconds
    ensures forall k :: 0 <= k < |waits| ==>
      waits[k] == 100 * Retry.MILLISECOND * Retry.Pow2(Retry.Min(k, 5))
    // without a behaviour there is one unforced remove, and its error is returned
    ensures beh == null ==>
      && |sent| <= 1 && (sent != [] ==> !sent[0].force)
      && (err.None? <==> sent != [] && sent[0].error.None?)
    ensures Obedient(env) && Quiet(env) && Retry.NeverCancelled(ctx) && name in s.volumes ==> err.None?
  {
    if beh != null && beh.attempts <= 0 {
      beh.attempts := 1;
    }
    var o := OptionsOf(beh);
    var cause, final, waited, states, errs :=
      Retry.WithRetry(ctx, o.attempts, 100 * Retry.MILLISECOND, AttemptFn(env, name, o), s);
    after, calls, waits := final, |errs|, waited;
    sent := LoopIsRemoveRun(env, ctx, s, name, o, states, errs, |waits|, cause);
    WaitsOfRemoval(waits);
    assert beh == null && sent != [] ==> EscalatesAt(sent, 0, false, false);
    if Obedient(env) && Quiet(env) && Retry.NeverCancelled(ctx) && name in s.volumes {
      ObedientRemoves(env, ctx, s, name, o);
    }
    if cause.Some? && !(o.ignoreNotFound && IsNotFoundErr(cause.value)) {
      err := Some(VolumeRemoveError(name, cause.value));
    } else {
      err := None;
    }
  }

  // --- When a nil result can be trusted -----------------------------------------------------

  // No refusal reads like "not found".
  ghost predicate Faithful(env: Environment) {
    forall t: nat :: env(t).fate.Refuses? ==> !IsNotFoundErr(env(t).fate.text)
  }

  // A refusal reads like "not found" only when other clients have just dropped the volume.
  ghost predicate FaithfulAbout(env: Environment, name: string) {
    forall t: nat :: env(t).fate.Refuses? && IsNotFoundErr(env(t).fate.text) ==>
      !ThereAfter(true, env(t).others, name)
  }

  ghost predicate NilMeansGone(env: Environment, ctx: Retry.Context, s: Server, name: string, o: Options)
    requires o.attempts > 0
  {
    var (err, t) := RemoveResult(env, ctx, s, name, o);
    err.None? ==> name !in t.volumes
  }

  lemma AttemptLeavesNothing(env: Environment, s: Server, name: string, o: Options)
    requires FaithfulAbout(env, name)
    ensures var (t, err) := AttemptFn(env, name, o)(s);
      err.None? || IsNotFoundErr(err.value) ==> name !in t.volumes
  {
    var sent := AttemptRan(env, s, name, o.force, o.retryForce);
    var last := sent[|sent| - 1];
    assert last.refused ==> WasRefused(env, name, last);
  }

  lemma NilLeavesNothing(env: Environment, ctx: Retry.Context, s: Server, name: string, o: Options)
    requires FaithfulAbout(env, name) && o.attempts > 0
    ensures NilMeansGone(env, ctx, s, name, o)
  {
    NotFoundNeedsItsCharacters(Retry.CANCELLED);
    var last := Retry.LoopEndsInACall(ctx, o.attempts, AttemptFn(env, name, o), s, 0);
    AttemptLeavesNothing(env, last, name, o);
  }

  // A refusal that reads like "not found" while the volume is there makes a call with a single
  // attempt return nil and leave the volume in place.
  lemma MisreadRefusal(env: Environment, name: string, t: nat) returns (s: Server)
    requires env(t).fate.Refuses? && IsNotFoundErr(env(t).fate.text) && ThereAfter(true, env(t).others, name)
    ensures WellFormed(s)
    ensures !NilMeansGone(env, Retry.UNCANCELLED, s, name, Options(false, false, true, 1))
  {
    s := Server(map[name := Volume(0, map[])], 1, t, [], [], []);
    OthersLeave(s.(clock := t + 1), env(t).others, name);
    var o := Options(false, false, true, 1);
    assert AttemptFn(env, name, o)(s) == (Remove(env, s, name, false).0, Some(env(t).fate.text));
  }

  // Exactly when does every nil result mean that the volume is gone, whatever replies are lost,
  // whatever other clients do and whatever was there at the start?
  lemma NilMeansGoneIffFaithful(env: Environment, name: string)
    ensures FaithfulAbout(env, name) <==>
      forall ctx: Retry.Context, s: Server, o: Options :: o.attempts > 0 ==> NilMeansGone(env, ctx, s, name, o)
  {
    if FaithfulAbout(env, name) {
      forall ctx: Retry.Context, s: Server, o: Options | o.attempts > 0
        ensures NilMeansGone(env, ctx, s, name, o)
      {
        NilLeavesNothing(env, ctx, s, name, o);
      }
    } else {
      var t: nat :| env(t).fate.Refuses? && IsNotFoundErr(env(t).fate.text) && ThereAfter(true, env(t).others, name);
      var s := MisreadRefusal(env, name, t);
      assert !NilMeansGone(env, Retry.UNCANCELLED, s, name, Options(false, false, true, 1));
    }
  }

  lemma ObedientIsFaithful(env: Environment, name: string)
    requires Obedient(env)
    ensures FaithfulAbout(env, name)
  {
  }

  // For all names together it is the plain condition on the texts of the refusals.
  lemma FaithfulIffAboutEveryName(env: Environment)
    ensures Faithful(env) <==> forall name: string :: FaithfulAbout(env, name)
  {
    if forall name: string :: FaithfulAbout(env, name) {
      forall t: nat | env(t).fate.Refuses?
        ensures !IsNotFoundErr(env(t).fate.text)
      {
        var name := Unmentioned(env(t).others);
        UnmentionedStays(env(t).others, name);
        assert FaithfulAbout(env, name);
      }
    }
  }

  lemma {:induction false} RefusedThroughout(env: Environment, text: string, s: Server, name: string,
                                             o: Options, i: nat)
    requires forall t: nat :: env(t) == Turn([], Refuses(text), None)
    requires i < o.attempts
    ensures var (cause, t) := Retry.Loop(Retry.UNCANCELLED, o.attempts, AttemptFn(env, name, o), s, i);
      cause == Some(text) && t.volumes == s.volumes
    decreases o.attempts - i
  {
    var (next, err) := AttemptFn(env, name, o)(s);
    assert (next, err) == RemoveAttempt(env, name, o.force, o.retryForce, s);
    if i < o.attempts - 1 {
      RefusedThroughout(env, text, next, name, o, i + 1);
    }
  }

  // The text of a refusal names the volume, so one whose name contains 404 is taken for a
  // missing one: the removal before an overwrite returns nil although it stays.
  lemma InUseVolumeTakenForMissing()
    ensures var env := (_: nat) => Turn([], Refuses("volume v404 is in use"), None);
      var s := Server(map["v404" := Volume(0, map[])], 1, 0, [], [], []);
      var (err, t) := RemoveResult(env, Retry.UNCANCELLED, s, "v404", Options(false, true, true, 3));
      err.None? && t.volumes == s.volumes
  {
    var text := "volume v404 is in use";
    ContainsAt(text, "404", 8);
    var env := (_: nat) => Turn([], Refuses("volume v404 is in use"), None);
    var s := Server(map["v404" := Volume(0, map[])], 1, 0, [], [], []);
    RefusedThroughout(env, text, s, "v404", Options(false, true, true, 3), 0);
  }

  // VolumeExists (volume.go:184-195): the closure stores its answer in a captured variable.
  function ExistsAttempt(env: Environment, name: string, at: (Server, bool)): ((Server, bool), Option<string>) {
    var (s, reply) := Exists(env, at.0, name);
    match reply
    case Ok(e) => ((s, e), None)
    case Error(text) => ((s, at.1), Some("volumes.Exists: " + text))
  }

  // One request for each call, failing alike.
  ghost predicate Outcomes(probes: seq<Option<string>>, errs: seq<Option<string>>) {
    |probes| == |errs| && forall k :: 0 <= k < |errs| ==> (probes[k].Some? <==> errs[k].Some?)
  }

  lemma {:induction false} ExistsAttemptsRan(env: Environment, name: string,
                                             fn: ((Server, bool)) -> ((Server, bool), Option<string>),
                                             s: (Server, bool),
                                             states: seq<(Server, bool)>, errs: seq<Option<string>>)
    requires forall r: (Server, bool) :: fn(r) == ExistsAttempt(env, name, r)
    requires Retry.Calls(fn, s, states, errs)
    ensures var t := states[|errs|].0;
      && Later(s.0, t) && t.removes == s.0.removes
      && s.0.probes <= t.probes && Outcomes(t.probes[|s.0.probes|..], errs)
      && (Quiet(env) ==> t.volumes == s.0.volumes)
      && (errs != [] && errs[|errs| - 1].None? ==> states[|errs|].1 == (name in t.volumes))
      && (errs != [] && Obedient(env) ==> errs[|errs| - 1].None?)
    decreases |errs|
  {
    if errs != [] {
      var n := |errs| - 1;
      ExistsAttemptsRan(env, name, fn, s, states[..n + 1], errs[..n]);
      assert fn(states[n]) == (states[n + 1], errs[n]);
      ArriveOnlyAdvances(env, states[n].0);
      LaterIsTransitive(s.0, states[n].0, states[n + 1].0);
    }
  }

  // Three existence checks, every one of which failed.
  predicate ProbedInVain(s: Server, t: Server) {
    && s.probes <= t.probes && |t.probes| == |s.probes| + 3
    && forall k :: |s.probes| <= k < |t.probes| ==> t.probes[k].Some?
  }

  method VolumeExists(env: Environment, ctx: Retry.Context, s: Server, name: string)
    returns (reply: Reply<bool>, after: Server, waits: seq<Retry.Duration>)
    ensures Later(s, after) && after.removes == s.removes
    ensures reply.Ok? ==> reply.value == (name in after.volumes)
    ensures Quiet(env) ==> after.volumes == s.volumes
    ensures reply.Error? && Retry.NeverCancelled(ctx) ==> !Obedient(env)
    // at most three requests; the first one that succeeds gives the answer
    ensures s.probes <= after.probes && |after.probes| <= |s.probes| + 3
    ensures reply.Ok? <==> after.probes != s.probes && after.probes[|after.probes| - 1].None?
    ensures forall k :: |s.probes| <= k < |after.probes| - 1 ==> after.probes[k].Some?
    ensures reply.Error? && Retry.NeverCancelled(ctx) ==> ProbedInVain(s, after)
    // 80 and 160 milliseconds, in nanoseconds
    ensures waits <= [80_000_000, 160_000_000]
  {
    var fn := (r: (Server, bool)) => ExistsAttempt(env, name, r);
    var err, final, waited, states, errs := Retry.WithRetry(ctx, 3, 80 * Retry.MILLISECOND, fn, (s, false));
    ExistsAttemptsRan(env, name, fn, (s, false), states, errs);
    if err.Some? {
      Retry.GivenUpMeansAllFailed(ctx, errs);
    }
    AnswerOfProbes(ctx, s.probes, final.0.probes, errs);
    FirstWaits(80 * Retry.MILLISECOND, waited);
    after, waits := final.0, waited;
    reply := if err.None? then Ok(final.1) else Error(err.value);
  }

  lemma AnswerOfProbes(ctx: Retry.Context, before: seq<Option<string>>, after: seq<Option<string>>,
                       errs: seq<Option<string>>)
    requires before <= after && Outcomes(after[|before|..], errs) && Retry.OnlyLastMayDiffer(ctx, errs)
    ensures |after| == |before| + |errs|
    ensures forall k :: |before| <= k < |after| - 1 ==> after[k].Some?
    ensures errs != [] ==> (after[|after| - 1].None? <==> errs[|errs| - 1].None?)
    ensures Retry.AllFailed(errs) ==> forall k :: |before| <= k < |after| ==> after[k].Some?
  {
    forall k | |before| <= k < |after|
      ensures after[k].Some? <==> errs[k - |before|].Some?
      ensures k < |after| - 1 ==> errs[k - |before|].Some?
    {
      assert after[k] == after[|before|..][k - |before|];
      assert k < |after| - 1 ==> errs[..|errs| - 1][k - |before|] == errs[k - |before|];
    }
  }

  // The first two waits of a retry loop with a short base.
  lemma FirstWaits(base: Retry.Duration, waits: seq<Retry.Duration>)
    requires 0 < base < Retry.MILLISECOND * 1_000 && |waits| <= 2 && Retry.Waited(base, waits)
    ensures 2 * base < Retry.BACKOFF_CAP && waits <= [base, 2 * base]
  {
    assert Retry.DelayAt(base, 0) == base;
    Retry.BelowCapDoubles(base);
    assert Retry.DelayAt(base, 1) == 2 * base;
  }

  // What the one context shows during the up to three retry loops of a setup.
  datatype Contexts = Contexts(probe: Retry.Context, reprobe: Retry.Context, removal: Retry.Context)

  type CreateFn = Server -> (Server, Reply<string>)

  // A create function that never hands on a volume that was there before.
  ghost predicate NonReusing(create: CreateFn, name: string) {
    forall s: Server :: var (t, reply) := create(s);
      Later(s, t) && (reply.Ok? ==> MadeSince(s, t, name))
  }

  // Three attempts of two removes each, every one of which failed, and the last one not because
  // the volume was missing.
  predicate RemovedInVain(sent: seq<RemoveSent>) {
    |sent| == 6 && AllRemovesFailed(sent) && !IsNotFoundErr(sent[5].error.value)
  }

  // The removal that precedes the create of an overwrite (volume.go:163-176).
  method RemoveIfPresent(env: Environment, ctxs: Contexts, s: Server, name: string)
    returns (error: Option<string>, after: Server, ghost sent: seq<RemoveSent>)
    ensures |sent| <= 6 && Escalates(sent, false, true)
    ensures Later(s, after)
    ensures error.None? && FaithfulAbout(env, name) ==> name !in after.volumes
    ensures Quiet(env) ==> after.volumes == s.volumes || after.volumes == s.volumes - {name}
    ensures Quiet(env) && name !in s.volumes ==> sent == []
    // unless it is cancelled it gives up only after three failed checks or six failed removes
    ensures error.Some? && Retry.NeverCancelled(ctxs.reprobe) && Retry.NeverCancelled(ctxs.removal) ==>
      (sent == [] && ProbedInVain(s, after)) || RemovedInVain(sent)
    ensures Obedient(env) && Quiet(env) && Retry.NeverCancelled(ctxs.reprobe) && Retry.NeverCancelled(ctxs.removal)
      ==> error.None?
  {
    sent := [];
    var exists_, at, _ := VolumeExists(env, ctxs.reprobe, s, name);
    if exists_.Error? {
      return Some("check exists: " + exists_.text), at, sent;
    }
    if !exists_.value {
      return None, at, sent;
    }
    var beh := new RemoveBehavior(false, true, true, 3);
    var o := Options(false, true, true, 3);
    assert OptionsOf(beh) == o;
    var removeErr, removed, _, calls, requests := RemoveVolume(env, ctxs.removal, at, name, beh);
    after, sent := removed, requests;
    LaterIsTransitive(s, at, removed);
    if removeErr.Some? {
      return Some("remove before overwrite: " + removeErr.value.cause), after, sent;
    }
    error := None;
    if FaithfulAbout(env, name) {
      NilLeavesNothing(env, ctxs.removal, at, name, o);
    }
  }

  // before is the server when the create request is sent.
  method OverwriteVolume(env: Environment, ctxs: Contexts, s: Server, name: string, create: CreateFn)
    returns (reply: Reply<string>, after: Server, ghost sent: seq<RemoveSent>, ghost before: Server)
    // at most three attempts of two removes each, every forced one after a failed unforced one
    ensures |sent| <= 6 && Escalates(sent, false, true)
    // a volume that was found missing is not removed
    ensures Quiet(env) && name !in s.volumes ==> sent == []
    ensures Later(s, before) && after in {before, create(before).0}
    ensures reply.Ok? ==> (after, reply) == create(before)
    ensures reply.Ok? && FaithfulAbout(env, name) ==> name !in before.volumes
    ensures reply.Ok? && NonReusing(create, name) ==> Later(s, after) && MadeSince(s, after, name)
    ensures Quiet(env) ==> before.volumes == s.volumes || before.volumes == s.volumes - {name}
    // unless it is cancelled, only three failed checks, six failed removes or a failing create
    // make it fail
    ensures reply.Error? && Retry.NeverCancelled(ctxs.reprobe) && Retry.NeverCancelled(ctxs.removal) ==>
      || (sent == [] && ProbedInVain(s, before)) || RemovedInVain(sent)
      || (create(before).1.Error? && after == create(before).0)
    ensures Obedient(env) && Quiet(env) && Retry.NeverCancelled(ctxs.reprobe) && Retry.NeverCancelled(ctxs.removal)
      ==> reply.Ok? || (create(before).1.Error? && name !in before.volumes)
  {
    var error, at, requests := RemoveIfPresent(env, ctxs, s, name);
    sent, before := requests, at;
    if error.Some? {
      return Error(error.value), at, sent, before;
    }
    var (t, created) := create(at);
    after := t;
    if created.Ok? && NonReusing(create, name) {
      LaterIsTransitive(s, at, t);
      MadeSinceEarlier(s, at, t, name);
    }
    if Obedient(env) {
      ObedientIsFaithful(env, name);
    }
    reply := if created.Error? then Error("create volume: " + created.text) else created;
  }
}
