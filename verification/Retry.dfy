// withRetry (volume.go:448-475): a bounded retry loop with capped exponential back-off
// that gives up as soon as it sees its context cancelled.
module Retry {
  import opened Strings

  // time.Duration is a 64-bit count of nanoseconds.
  type Duration = d: int | -0x8000_0000_0000_0000 <= d < 0x8000_0000_0000_0000
  const MILLISECOND: Duration := 1_000_000
  const BACKOFF_CAP: Duration := 2_000 * MILLISECOND
  const CANCELLED := "retry: context canceled"

  // What the context shows at the observation points of one retry loop: top(i) is the
  // check at the head of iteration i, wait(i) says that iteration i's back-off was cut short.
  datatype Context = Context(top: nat -> bool, wait: nat -> bool)

  // A context that is never cancelled.
  const UNCANCELLED := Context(_ => false, _ => false)

  function Wrap(n: int): Duration {
    var m := n % 0x1_0000_0000_0000_0000;
    if m < 0x8000_0000_0000_0000 then m else m - 0x1_0000_0000_0000_0000
  }

  function NextDelay(d: Duration): Duration {
    if d < BACKOFF_CAP then Wrap(d * 2) else d
  }

  // The delay that iteration k would wait.
  function DelayAt(base: Duration, k: nat): Duration {
    if k == 0 then base else NextDelay(DelayAt(base, k - 1))
  }

  function MaxAttempts(attempts: int): nat {
    if attempts <= 0 then 1 else attempts
  }

  // states and errs record consecutive calls of fn starting in s: call k takes states[k]
  // to states[k + 1] and returns errs[k].
  ghost predicate Calls<S>(fn: S -> (S, Option<string>), s: S, states: seq<S>, errs: seq<Option<string>>) {
    && |states| == |errs| + 1
    && states[0] == s
    && forall k :: 0 <= k < |errs| ==> fn(states[k]) == (states[k + 1], errs[k])
  }

  lemma CallsExtended<S>(fn: S -> (S, Option<string>), s: S, states: seq<S>, errs: seq<Option<string>>)
    requires Calls(fn, s, states, errs)
    ensures var (next, err) := fn(states[|errs|]); Calls(fn, s, states + [next], errs + [err])
  {
  }

  // Why the loop stopped after calls calls with result err.
  ghost predicate Stopped(ctx: Context, attempts: int, errs: seq<Option<string>>, waits: nat, err: Option<string>) {
    var calls := |errs|;
    if err.None? then
      calls > 0 && errs[calls - 1].None? && waits == calls - 1
    else
      // cancelled at the head of an iteration, cancelled while waiting, or out of attempts
      || (err == Some(CANCELLED) && calls < MaxAttempts(attempts) && waits == calls && ctx.top(calls))
      || (err == Some(CANCELLED) && 0 < calls < MaxAttempts(attempts) && waits == calls && ctx.wait(calls - 1))
      || (calls == MaxAttempts(attempts) && waits == calls - 1 && err == errs[calls - 1])
  }

  // The loop from its i-th iteration on: its result and the state it ends in. The context in
  // the decreases clause only keeps the solver from unrolling the loop for a literal max.
  function Loop<S>(ctx: Context, max: nat, fn: S -> (S, Option<string>), s: S, i: nat): (Option<string>, S)
    requires i < max
    decreases max - i, ctx.top(i)
  {
    if ctx.top(i) then (Some(CANCELLED), s)
    else
      var (next, err) := fn(s);
      if err.None? || i == max - 1 then (err, next)
      else if ctx.wait(i) then (Some(CANCELLED), next)
      else Loop(ctx, max, fn, next, i + 1)
  }

  // A loop that was not cancelled ends as its last call did.
  lemma {:induction false} LoopEndsInACall<S>(ctx: Context, max: nat, fn: S -> (S, Option<string>), s: S, i: nat)
    returns (last: S)
    requires i < max
    ensures var (cause, t) := Loop(ctx, max, fn, s, i);
      cause == Some(CANCELLED) || fn(last) == (t, cause)
    decreases max - i
  {
    last := s;
    if !ctx.top(i) && fn(s).1.Some? && i < max - 1 && !ctx.wait(i) {
      last := LoopEndsInACall(ctx, max, fn, fn(s).0, i + 1);
    }
  }

  // The context was seen cancelled when calls calls had been made.
  predicate CancelledAfter(ctx: Context, calls: nat) {
    ctx.top(calls) || (calls > 0 && ctx.wait(calls - 1))
  }

  ghost predicate NeverCancelled(ctx: Context) {
    forall i: nat :: !ctx.top(i) && !ctx.wait(i)
  }

  // All of these calls failed.
  predicate AllFailed(errs: seq<Option<string>>) {
    forall k :: 0 <= k < |errs| ==> errs[k].Some?
  }

  lemma GivenUpMeansAllFailed(ctx: Context, errs: seq<Option<string>>)
    requires OnlyLastMayDiffer(ctx, errs) && (errs != [] ==> errs[|errs| - 1].Some?)
    ensures AllFailed(errs)
  {
    forall k | 0 <= k < |errs|
      ensures errs[k].Some?
    {
      if k < |errs| - 1 {
        assert errs[..|errs| - 1][k] == errs[k];
      }
    }
  }

  // All of these calls failed, and no cancellation was seen before the last of them.
  ghost predicate FailedUncancelled(ctx: Context, errs: seq<Option<string>>) {
    && (forall k :: 0 <= k < |errs| ==> errs[k].Some?)
    && (forall k :: 0 <= k < |errs| ==> !ctx.top(k) && !ctx.wait(k))
  }

  ghost predicate Waited(base: Duration, waits: seq<Duration>) {
    forall k :: 0 <= k < |waits| ==> waits[k] == DelayAt(base, k)
  }

  // Only the last call can have succeeded, and no call is made in or after an iteration whose
  // first check or whose wait saw the cancellation.
  ghost predicate OnlyLastMayDiffer(ctx: Context, errs: seq<Option<string>>) {
    errs == [] || (FailedUncancelled(ctx, errs[..|errs| - 1]) && !ctx.top(|errs| - 1))
  }

  lemma OneMoreFailure(ctx: Context, errs: seq<Option<string>>, err: Option<string>)
    requires FailedUncancelled(ctx, errs)
    ensures var all := errs + [err];
      && (!ctx.top(|errs|) ==> OnlyLastMayDiffer(ctx, all))
      && (!ctx.top(|errs|) && !ctx.wait(|errs|) && err.Some? ==> FailedUncancelled(ctx, all))
  {
    assert (errs + [err])[..|errs|] == errs;
  }

  lemma FailuresMayDiffer(ctx: Context, errs: seq<Option<string>>)
    requires FailedUncancelled(ctx, errs)
    ensures OnlyLastMayDiffer(ctx, errs)
  {
    assert errs != [] ==> forall k :: 0 <= k < |errs| - 1 ==> errs[..|errs| - 1][k] == errs[k];
  }

  method WithRetry<S>(ctx: Context, attempts: int, base: Duration, fn: S -> (S, Option<string>), start: S)
    returns (err: Option<string>, s: S, waits: seq<Duration>, ghost states: seq<S>, ghost errs: seq<Option<string>>)
    ensures (err, s) == Loop(ctx, MaxAttempts(attempts), fn, start, 0)
    ensures Calls(fn, start, states, errs) && s == states[|errs|]
    ensures |errs| <= MaxAttempts(attempts)
    ensures if attempts <= 1 then |errs| <= 1 else |errs| <= attempts
    // only a cancellation makes it give up earlier
    ensures err.Some? && NeverCancelled(ctx) ==> |errs| == if attempts <= 1 then 1 else attempts
    ensures OnlyLastMayDiffer(ctx, errs)
    ensures err.None? <==> |errs| > 0 && errs[|errs| - 1].None?
    ensures Stopped(ctx, attempts, errs, |waits|, err)
    ensures Waited(base, waits)
  {
    var max := if attempts <= 0 then 1 else attempts;
    var delay := base;
    err, s, waits, states, errs := None, start, [], [start], [];
    var i := 0;
    while i < max
      invariant 0 <= i < max && |errs| == |waits| == i
      invariant Loop(ctx, max, fn, start, 0) == Loop(ctx, max, fn, s, i)
      invariant Calls(fn, start, states, errs) && s == states[i]
      invariant FailedUncancelled(ctx, errs)
      invariant delay == DelayAt(base, i) && Waited(base, waits)
    {
      if ctx.top(i) {
        FailuresMayDiffer(ctx, errs);
        return Some(CANCELLED), s, waits, states, errs;
      }
      var (next, result) := fn(s);
      CallsExtended(fn, start, states, errs);
      OneMoreFailure(ctx, errs, result);
      s, err := next, result;
      states, errs := states + [next], errs + [result];
      if err.None? {
        return;
      }
      if i == max - 1 {
        break;
      }
      waits := waits + [delay];
      if ctx.wait(i) {
        return Some(CANCELLED), s, waits, states, errs;
      }
      if delay < BACKOFF_CAP {
        delay := Wrap(delay * 2);
      }
      i := i + 1;
    }
  }

  function Pow2(n: nat): nat {
    if n == 0 then 1 else 2 * Pow2(n - 1)
  }

  // The number of doublings that take a positive base to the cap.
  function Doublings(base: int): nat
    requires base > 0
    decreases BACKOFF_CAP - base
  {
    if base >= BACKOFF_CAP then 0 else 1 + Doublings(2 * base)
  }

  lemma {:induction false} DoublingsIsLeast(base: int)
    requires base > 0
    ensures base * Pow2(Doublings(base)) >= BACKOFF_CAP
    ensures forall j: nat :: j < Doublings(base) ==> base * Pow2(j) < BACKOFF_CAP
    decreases BACKOFF_CAP - base
  {
    if base < BACKOFF_CAP {
      DoublingsIsLeast(2 * base);
      var m := Doublings(2 * base);
      assert base * Pow2(m + 1) == 2 * base * Pow2(m);
      forall j: nat | j < m + 1
        ensures base * Pow2(j) < BACKOFF_CAP
      {
        if j > 0 {
          assert base * Pow2(j) == 2 * base * Pow2(j - 1);
        }
      }
    }
  }

  function Min(a: nat, b: nat): nat {
    if a < b then a else b
  }

  // The k-th wait in closed form.
  lemma {:induction false} DelayClosedForm(base: Duration, k: nat)
    requires base > 0
    ensures DelayAt(base, k) == base * Pow2(Min(k, Doublings(base)))
  {
    if k > 0 {
      DelayClosedForm(base, k - 1);
      DoublingsIsLeast(base);
      if k - 1 < Doublings(base) {
        MultiplyTwice(base, Pow2(k - 1));
        BelowCapDoubles(DelayAt(base, k - 1));
      }
    }
  }

  lemma MultiplyTwice(base: int, p: int)
    ensures base * (2 * p) == 2 * (base * p)
  {
  }

  // Below the cap a positive delay is doubled without wrapping around.
  lemma BelowCapDoubles(d: Duration)
    requires 0 <= d < BACKOFF_CAP
    ensures NextDelay(d) == 2 * d
  {
  }

  lemma {:induction false} DelayBelowTwiceCap(base: Duration, k: nat)
    requires 0 < base < BACKOFF_CAP
    ensures 0 < DelayAt(base, k) < 2 * BACKOFF_CAP
  {
    if k > 0 {
      DelayBelowTwiceCap(base, k - 1);
    }
  }

  function Sum(ds: seq<Duration>): int {
    if ds == [] then 0 else Sum(ds[..|ds| - 1]) + ds[|ds| - 1]
  }

  lemma {:induction false} SumBelow(ds: seq<Duration>, bound: int)
    requires forall k :: 0 <= k < |ds| ==> ds[k] < bound
    ensures Sum(ds) <= bound * |ds|
    ensures ds != [] ==> Sum(ds) < bound * |ds|
  {
    if ds != [] {
      SumBelow(ds[..|ds| - 1], bound);
    }
  }

  // Whatever the context and the calls do, the loop spends less than four seconds per
  // wait and starts at most attempts - 1 waits.
  lemma BackoffBudget(ctx: Context, attempts: int, base: Duration, errs: seq<Option<string>>,
                      waits: seq<Duration>, err: Option<string>)
    requires 0 < base < BACKOFF_CAP
    requires |errs| <= MaxAttempts(attempts)
    requires Stopped(ctx, attempts, errs, |waits|, err)
    requires Waited(base, waits)
    ensures forall k :: 0 <= k < |waits| ==> 0 < waits[k] < 4_000_000_000
    ensures |waits| <= if attempts > 1 then attempts - 1 else 0
    ensures attempts > 1 ==> Sum(waits) < 4_000_000_000 * (attempts - 1)
  {
    forall k | 0 <= k < |waits|
      ensures 0 < waits[k] < 4_000_000_000
    {
      DelayBelowTwiceCap(base, k);
    }
    SumBelow(waits, 4_000_000_000);
  }
}
