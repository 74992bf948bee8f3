// The process-wide runtime of rootless.go:13-69: Init, InitWithContext and Shutdown under one
// mutex. First the calls as atomic steps and as methods, then the statements of any number of
// goroutines interleaved, which the mutex makes equivalent to atomic calls.
module RuntimeSingleton {
  import opened Strings

  // opens and closes count the stores; contexts and stores are tokens.
  datatype State = State(store: Option<nat>, ctx: Option<nat>, initialized: bool, opens: nat, closes: nat)

  // What the outside answers during a call: None is an error.
  datatype Op =
    | Init(connection: Option<nat>, newStore: Option<nat>)
    | Shutdown(succeeds: bool)

  datatype Reply = Context(ctx: nat) | InitError | Closed | NotInitialized | ShutdownError

  const START := State(None, None, false, 0, 0)

  ghost predicate Consistent(s: State) {
    && (s.initialized <==> s.store.Some?)
    && (s.initialized <==> s.ctx.Some?)
    && s.opens == s.closes + (if s.initialized then 1 else 0)
  }

  // One call executed alone.
  function Atomic(s: State, op: Op): (State, Reply) {
    match op
    case Init(connection, newStore) =>
      if s.initialized then (s, if s.ctx.Some? then Context(s.ctx.value) else InitError)
      else if connection.None? || newStore.None? then (s, InitError)
      else (State(newStore, connection, true, s.opens + 1, s.closes), Context(connection.value))
    case Shutdown(succeeds) =>
      if !s.initialized || s.store.None? then (s, NotInitialized)
      else if !succeeds then (s, ShutdownError)
      else (State(None, None, false, s.opens, s.closes + 1), Closed)
  }

  class Runtime {
    var pbStore: Option<nat>
    var pbCtx: Option<nat>
    var initialized: bool
    ghost var opens: nat
    ghost var closes: nat

    constructor ()
      ensures Value() == START
    {
      pbStore, pbCtx, initialized, opens, closes := None, None, false, 0, 0;
    }

    ghost function Value(): State
      reads this
    {
      State(pbStore, pbCtx, initialized, opens, closes)
    }

    // initRuntime (rootless.go:29-52)
    method InitRuntime(connection: Option<nat>, newStore: Option<nat>) returns (ctx: Option<nat>)
      requires Consistent(Value())
      modifies this
      ensures Consistent(Value())
      ensures var (t, reply) := Atomic(old(Value()), Init(connection, newStore));
        Value() == t && ctx == if reply.Context? then Some(reply.ctx) else None
    {
      if initialized {
        return pbCtx;
      }
      if connection.None? {
        return None;
      }
      if newStore.None? {
        return None;
      }
      opens := opens + 1;
      pbCtx := connection;
      pbStore := newStore;
      initialized := true;
      ctx := pbCtx;
    }

    // Shutdown (rootless.go:54-69)
    method ShutdownRuntime(succeeds: bool) returns (reply: Reply)
      requires Consistent(Value())
      modifies this
      ensures Consistent(Value())
      ensures (Value(), reply) == Atomic(old(Value()), Shutdown(succeeds))
    {
      if !initialized || pbStore == None {
        return NotInitialized;
      }
      if !succeeds {
        return ShutdownError;
      }
      closes := closes + 1;
      pbStore := None;
      pbCtx := None;
      initialized := false;
      reply := Closed;
    }
  }

  // --- Sequences of calls ----------------------------------------------------------------------

  datatype Event = Event(op: Op, reply: Reply)

  function Replay(log: seq<Event>): State {
    if log == [] then START else Atomic(Replay(log[..|log| - 1]), log[|log| - 1].op).0
  }

  // Every reply in the log is the one an atomic execution gives.
  ghost predicate Faithful(log: seq<Event>) {
    forall k :: 0 <= k < |log| ==> log[k].reply == Atomic(Replay(log[..k]), log[k].op).1
  }

  lemma {:induction false} ReplayConsistent(log: seq<Event>)
    ensures Consistent(Replay(log))
  {
    if log != [] {
      ReplayConsistent(log[..|log| - 1]);
    }
  }

  lemma LogOneMore(log: seq<Event>, ev: Event)
    requires Faithful(log) && ev.reply == Atomic(Replay(log), ev.op).1
    ensures Faithful(log + [ev]) && Replay(log + [ev]) == Atomic(Replay(log), ev.op).0
  {
    var all := log + [ev];
    assert all[..|log|] == log;
    forall k | 0 <= k < |all|
      ensures all[k].reply == Atomic(Replay(all[..k]), all[k].op).1
    {
      if k < |log| {
        assert all[..k] == log[..k];
      }
    }
  }

  // The replies of one Runtime object to any sequence of calls are those that an atomic execution
  // gives, so that the laws of replayed logs hold for the code's own variables.
  method CallAll(runtime: Runtime, ops: seq<Op>) returns (log: seq<Event>)
    requires runtime.Value() == START
    modifies runtime
    ensures |log| == |ops| && forall k :: 0 <= k < |ops| ==> log[k].op == ops[k]
    ensures Faithful(log) && runtime.Value() == Replay(log) && Consistent(runtime.Value())
  {
    log := [];
    for i := 0 to |ops|
      invariant |log| == i && forall k :: 0 <= k < i ==> log[k].op == ops[k]
      invariant Faithful(log) && runtime.Value() == Replay(log) && Consistent(runtime.Value())
    {
      var reply;
      match ops[i] {
        case Init(connection, newStore) =>
          var ctx := runtime.InitRuntime(connection, newStore);
          reply := if ctx.Some? then Context(ctx.value) else InitError;
        case Shutdown(succeeds) =>
          reply := runtime.ShutdownRuntime(succeeds);
      }
      LogOneMore(log, Event(ops[i], reply));
      log := log + [Event(ops[i], reply)];
    }
  }

  // A call that reports an error has changed nothing.
  lemma FailedCallsChangeNothing(s: State, op: Op)
    requires Consistent(s)
    ensures var (t, reply) := Atomic(s, op);
      reply.InitError? || reply.NotInitialized? || reply.ShutdownError? ==> t == s
  {
  }

  lemma ReplayNext(log: seq<Event>, k: nat)
    requires Faithful(log) && k < |log|
    ensures (Replay(log[..k + 1]), log[k].reply) == Atomic(Replay(log[..k]), log[k].op)
  {
    assert log[..k + 1][..k] == log[..k];
  }

  // A reply with a context leaves the runtime initialized with it, and only a successful
  // shutdown changes that.
  lemma ContextUntilClosed(s: State, op: Op)
    requires Consistent(s)
    ensures var (t, reply) := Atomic(s, op);
      && (reply.Context? ==> t.initialized && t.ctx == Some(reply.ctx))
      && (s.initialized && !reply.Closed? ==> t.initialized && t.ctx == s.ctx)
  {
  }

  // One call further, in terms of the states before and after it.
  lemma ContextAfterCall(log: seq<Event>, k: nat)
    requires Faithful(log) && k < |log|
    ensures var s, t := Replay(log[..k]), Replay(log[..k + 1]);
      && (log[k].reply.Context? ==> t.initialized && t.ctx == Some(log[k].reply.ctx))
      && (s.initialized && !log[k].reply.Closed? ==> t.initialized && t.ctx == s.ctx)
  {
    ReplayConsistent(log[..k]);
    ReplayNext(log, k);
    ContextUntilClosed(Replay(log[..k]), log[k].op);
  }

  lemma {:induction false} ContextStays(log: seq<Event>, i: nat, j: nat)
    requires Faithful(log) && i < j <= |log| && log[i].reply.Context?
    requires forall k :: i < k < j ==> !log[k].reply.Closed?
    ensures Replay(log[..j]).initialized && Replay(log[..j]).ctx == Some(log[i].reply.ctx)
    decreases j
  {
    var k := j - 1;
    ContextAfterCall(log, k);
    assert log[..k + 1] == log[..j];
    if k > i {
      ContextStays(log, i, k);
    }
  }

  // All successful inits between two successful shutdowns return the same context.
  lemma SameContextUntilShutdown(log: seq<Event>, i: nat, j: nat)
    requires Faithful(log) && i < j < |log| && log[i].reply.Context? && log[j].reply.Context?
    requires forall k :: i < k < j ==> !log[k].reply.Closed?
    ensures log[j].reply == log[i].reply
  {
    ContextStays(log, i, j);
    ReplayNext(log, j);
  }

  // --- Goroutines --------------------------------------------------------------------------------

  // Where a goroutine is in its call.
  datatype Pc =
    | Idle
    | Waiting(op: Op)                   // at initMu.Lock
    | Testing(op: Op)                   // the test of initialized
    | Connecting(op: Op) | Opening(op: Op)
    | SetCtx(op: Op) | SetStore(op: Op) | SetFlag(op: Op)
    | ShuttingDown(op: Op)
    | ClearStore(op: Op) | ClearCtx(op: Op) | ClearFlag(op: Op)
    | Leaving(op: Op, reply: Reply)     // before initMu.Unlock

  datatype System = System(
    shared: State,
    holder: Option<nat>,
    entry: State,                       // the shared state when the lock was taken
    pcs: map<nat, Pc>,
    log: seq<Event>)                    // completed calls, in the order of their unlocks

  datatype Action = Call(g: nat, op: Op) | Step(g: nat)

  predicate Enabled(s: System, a: Action) {
    match a
    case Call(g, _) => g !in s.pcs || s.pcs[g].Idle?
    case Step(g) => g in s.pcs && !s.pcs[g].Idle? && (s.pcs[g].Waiting? ==> s.holder.None?)
  }

  // The next statement of a goroutine that holds the lock.
  function Statement(v: State, pc: Pc): (State, Pc)
    requires !pc.Idle? && !pc.Waiting? && !pc.Leaving?
  {
    match pc
    case Testing(op) =>
      if op.Init? then
        (v, if !v.initialized then Connecting(op)
            else Leaving(op, if v.ctx.Some? then Context(v.ctx.value) else InitError))
      else
        (v, if !v.initialized || v.store.None? then Leaving(op, NotInitialized) else ShuttingDown(op))
    case Connecting(op) =>
      (v, if op.Init? && op.connection.Some? then Opening(op) else Leaving(op, InitError))
    case Opening(op) =>
      if op.Init? && op.newStore.Some? then (v.(opens := v.opens + 1), SetCtx(op)) else (v, Leaving(op, InitError))
    case SetCtx(op) => (v.(ctx := if op.Init? then op.connection else None), SetStore(op))
    case SetStore(op) => (v.(store := if op.Init? then op.newStore else None), SetFlag(op))
    case SetFlag(op) => (v.(initialized := true), Leaving(op, if v.ctx.Some? then Context(v.ctx.value) else InitError))
    case ShuttingDown(op) =>
      if op.Shutdown? && op.succeeds then (v.(closes := v.closes + 1), ClearStore(op))
      else (v, Leaving(op, ShutdownError))
    case ClearStore(op) => (v.(store := None), ClearCtx(op))
    case ClearCtx(op) => (v.(ctx := None), ClearFlag(op))
    case ClearFlag(op) => (v.(initialized := false), Leaving(op, Closed))
  }

  function Apply(s: System, a: Action): System
    requires Enabled(s, a)
  {
    match a
    case Call(g, op) => s.(pcs := s.pcs[g := Waiting(op)])
    case Step(g) =>
      var pc := s.pcs[g];
      if pc.Waiting? then s.(holder := Some(g), entry := s.shared, pcs := s.pcs[g := Testing(pc.op)])
      else if pc.Leaving? then s.(holder := None, pcs := s.pcs[g := Idle], log := s.log + [Event(pc.op, pc.reply)])
      else
        var (v, next) := Statement(s.shared, pc);
        s.(shared := v, pcs := s.pcs[g := next])
  }

  ghost predicate Legal(s: System, actions: seq<Action>)
    decreases |actions|
  {
    actions == [] || (Enabled(s, actions[0]) && Legal(Apply(s, actions[0]), actions[1..]))
  }

  ghost function After(s: System, actions: seq<Action>): System
    requires Legal(s, actions)
    decreases |actions|
  {
    if actions == [] then s else After(Apply(s, actions[0]), actions[1..])
  }

  function Boot(): System {
    System(START, None, START, map[], [])
  }

  predicate Outside(pc: Pc) {
    pc.Idle? || pc.Waiting?
  }

  // The shared state at a program point, in terms of the state at the lock.
  ghost predicate Between(e: State, pc: Pc, v: State) {
    match pc
    case Idle => false
    case Waiting(_) => false
    case Testing(_) => v == e
    case Connecting(op) => op.Init? && !e.initialized && v == e
    case Opening(op) => op.Init? && !e.initialized && op.connection.Some? && v == e
    case SetCtx(op) =>
      && op.Init? && !e.initialized && op.connection.Some? && op.newStore.Some?
      && v == e.(opens := e.opens + 1)
    case SetStore(op) =>
      && op.Init? && !e.initialized && op.connection.Some? && op.newStore.Some?
      && v == e.(opens := e.opens + 1, ctx := op.connection)
    case SetFlag(op) =>
      && op.Init? && !e.initialized && op.connection.Some? && op.newStore.Some?
      && v == e.(opens := e.opens + 1, ctx := op.connection, store := op.newStore)
    case ShuttingDown(op) => op.Shutdown? && e.initialized && v == e
    case ClearStore(op) => op.Shutdown? && op.succeeds && e.initialized && v == e.(closes := e.closes + 1)
    case ClearCtx(op) => op.Shutdown? && op.succeeds && e.initialized && v == e.(closes := e.closes + 1, store := None)
    case ClearFlag(op) =>
      op.Shutdown? && op.succeeds && e.initialized && v == e.(closes := e.closes + 1, store := None, ctx := None)
    case Leaving(op, reply) => (v, reply) == Atomic(e, op)
  }

  ghost predicate Inv(s: System) {
    && Faithful(s.log)
    && (s.holder.None? ==> s.shared == Replay(s.log) && forall g <- s.pcs :: Outside(s.pcs[g]))
    && (s.holder.Some? ==>
          && s.entry == Replay(s.log)
          && s.holder.value in s.pcs && Between(s.entry, s.pcs[s.holder.value], s.shared)
          && forall g <- s.pcs :: g != s.holder.value ==> Outside(s.pcs[g]))
  }

  lemma StatementKeepsBetween(e: State, pc: Pc, v: State)
    requires Consistent(e) && Between(e, pc, v) && !pc.Idle? && !pc.Waiting? && !pc.Leaving?
    ensures var (w, next) := Statement(v, pc); Between(e, next, w)
  {
  }

  lemma InvKept(s: System, a: Action)
    requires Inv(s) && Enabled(s, a)
    ensures Inv(Apply(s, a))
  {
    ReplayConsistent(s.log);
    if a.Step? && !s.pcs[a.g].Waiting? {
      assert s.holder == Some(a.g);
      if s.pcs[a.g].Leaving? {
        LogOneMore(s.log, Event(s.pcs[a.g].op, s.pcs[a.g].reply));
      } else {
        StatementKeepsBetween(s.entry, s.pcs[a.g], s.shared);
      }
    }
  }

  lemma {:induction false} InvAfter(s: System, actions: seq<Action>)
    requires Inv(s) && Legal(s, actions)
    ensures Inv(After(s, actions))
    decreases |actions|
  {
    if actions != [] {
      InvKept(s, actions[0]);
      InvAfter(Apply(s, actions[0]), actions[1..]);
    }
  }

  // Whatever the goroutines do, the completed calls behave as if executed one after the other
  // in the order of their unlocks, and whenever the lock is free the three variables and the
  // store counts agree.
  lemma CallsAreAtomic(actions: seq<Action>)
    requires Legal(Boot(), actions)
    ensures var s := After(Boot(), actions);
      && Faithful(s.log)
      && (s.holder.None? ==> s.shared == Replay(s.log) && Consistent(s.shared))
  {
    InvAfter(Boot(), actions);
    ReplayConsistent(After(Boot(), actions).log);
  }

  // At most one goroutine is inside.
  lemma MutualExclusion(actions: seq<Action>, g: nat, h: nat)
    requires Legal(Boot(), actions)
    requires var s := After(Boot(), actions);
      g in s.pcs && h in s.pcs && !Outside(s.pcs[g]) && !Outside(s.pcs[h])
    ensures g == h
  {
    InvAfter(Boot(), actions);
  }
}
