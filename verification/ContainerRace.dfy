// startContainerWithRuntime and createContainerWithRuntime (container_runtime.go:82-152) run
// by any number of clients against one server that enforces unique names, interleaved with
// other users of the server. Each request may be obeyed, refused, or obeyed with the reply
// lost; a cancelled context never lets a reply through, but the removal after a failed start
// uses a context of its own.
module ContainerRace {
  import opened Strings

  // owner is the client whose create made the container, None for other users.
  datatype Container = Container(id: nat, owner: Option<nat>, started: bool)

  datatype Fate = Obeys | Refuses | Loses

  datatype Stage = Invalid | ExistsCheck | Inspection | Image | Creation

  datatype Outcome =
    | Started(id: nat)
    | AlreadyExists                     // wraps ErrContainerAlreadyExists
    | Failed(stage: Stage)
    | StartFailed(id: nat)              // the start error alone
    | StartAndRemoveFailed(id: nat)     // the start error joined with the removal error

  datatype Pc =
    | Checking | Inspecting | Pulling | Creating | Starting(id: nat) | Removing(id: nat)
    | Done(outcome: Outcome)

  datatype Client = Client(name: string, cancelled: bool, pc: Pc)

  datatype State = State(containers: map<string, Container>, nextId: nat, clients: map<nat, Client>)

  datatype Action =
    | Call(c: nat, name: string, image: string, valid: bool)
    | Cancel(c: nat)
    | Step(c: nat, fate: Fate)
    | OtherCreates(name: string)
    | OtherRemoves(name: string)

  function Init(): State {
    State(map[], 0, map[])
  }

  // The context that a request is made under: every request uses the caller's, except for the
  // removal after a failed start, which uses context.Background().
  predicate UsesCallersContext(pc: Pc) {
    !pc.Removing?
  }

  predicate Enabled(s: State, a: Action) {
    match a
    case Call(c, _, _, _) => c !in s.clients
    case Cancel(c) => c in s.clients
    case Step(c, fate) =>
      && c in s.clients && !s.clients[c].pc.Done?
      && (s.clients[c].cancelled && UsesCallersContext(s.clients[c].pc) ==> !fate.Obeys?)
    case OtherCreates(name) => name !in s.containers
    case OtherRemoves(name) => name in s.containers
  }

  // What a request does to the server.
  datatype Effect = Nothing | Adds | Starts(id: nat) | Removes(id: nat)

  // What a client does next: taken and alive say whether its name is in use and whether the
  // container it created is still there, newId is the id that a create would assign.
  function Decide(pc: Pc, taken: bool, alive: bool, newId: nat, fate: Fate): (Effect, Pc)
    requires !pc.Done?
  {
    match pc
    case Checking =>
      (Nothing, if !fate.Obeys? then Done(Failed(ExistsCheck)) else if taken then Inspecting else Pulling)
    case Inspecting =>
      (Nothing, Done(if !fate.Obeys? || !taken then Failed(Inspection) else AlreadyExists))
    case Pulling =>
      (Nothing, if fate.Obeys? then Creating else Done(Failed(Image)))
    case Creating =>
      if fate.Refuses? || taken then (Nothing, Done(Failed(Creation)))
      else (Adds, if fate.Obeys? then Starting(newId) else Done(Failed(Creation)))
    case Starting(id) =>
      if fate.Refuses? || !alive then (Nothing, Removing(id))
      else (Starts(id), if fate.Obeys? then Done(Started(id)) else Removing(id))
    case Removing(id) =>
      if fate.Refuses? || !alive then (Nothing, Done(StartAndRemoveFailed(id)))
      else (Removes(id), Done(if fate.Obeys? then StartFailed(id) else StartAndRemoveFailed(id)))
  }

  function Add(s: State, name: string, owner: Option<nat>): State {
    s.(containers := s.containers[name := Container(s.nextId, owner, false)], nextId := s.nextId + 1)
  }

  function StartById(s: State, id: nat): State {
    s.(containers := map n | n in s.containers ::
         if s.containers[n].id == id then s.containers[n].(started := true) else s.containers[n])
  }

  function RemoveById(s: State, id: nat): State {
    s.(containers := map n | n in s.containers && s.containers[n].id != id :: s.containers[n])
  }

  function Effected(s: State, name: string, c: nat, effect: Effect): State {
    match effect
    case Nothing => s
    case Adds => Add(s, name, Some(c))
    case Starts(id) => StartById(s, id)
    case Removes(id) => RemoveById(s, id)
  }

  function IdOf(pc: Pc): Option<nat> {
    match pc
    case Starting(id) => Some(id)
    case Removing(id) => Some(id)
    case Done(Started(id)) => Some(id)
    case Done(StartFailed(id)) => Some(id)
    case Done(StartAndRemoveFailed(id)) => Some(id)
    case _ => None
  }

  // One request of client c.
  function DecideIn(s: State, c: nat, fate: Fate): (Effect, Pc)
    requires c in s.clients && !s.clients[c].pc.Done?
  {
    var client := s.clients[c];
    var alive := IdOf(client.pc).Some? && exists n <- s.containers :: s.containers[n].id == IdOf(client.pc).value;
    Decide(client.pc, client.name in s.containers, alive, s.nextId, fate)
  }

  function StepOf(s: State, c: nat, fate: Fate): State
    requires c in s.clients && !s.clients[c].pc.Done?
  {
    var (effect, pc) := DecideIn(s, c, fate);
    Effected(s, s.clients[c].name, c, effect).(clients := s.clients[c := s.clients[c].(pc := pc)])
  }

  function Apply(s: State, a: Action): State
    requires Enabled(s, a)
  {
    match a
    case Call(c, name, image, valid) =>
      var pc := if valid && name != "" && image != "" then Checking else Done(Failed(Invalid));
      s.(clients := s.clients[c := Client(name, false, pc)])
    case Cancel(c) => s.(clients := s.clients[c := s.clients[c].(cancelled := true)])
    case Step(c, fate) => StepOf(s, c, fate)
    case OtherCreates(name) => Add(s, name, None)
    case OtherRemoves(name) => s.(containers := s.containers - {name})
  }

  ghost predicate Legal(s: State, actions: seq<Action>)
    decreases |actions|
  {
    actions == [] || (Enabled(s, actions[0]) && Legal(Apply(s, actions[0]), actions[1..]))
  }

  ghost function After(s: State, actions: seq<Action>): State
    requires Legal(s, actions)
    decreases |actions|
  {
    if actions == [] then s else After(Apply(s, actions[0]), actions[1..])
  }

  ghost predicate Reachable(s: State) {
    exists actions :: Legal(Init(), actions) && After(Init(), actions) == s
  }

  // No live container has this id.
  ghost predicate Absent(s: State, id: nat) {
    forall n <- s.containers :: s.containers[n].id != id
  }

  ghost predicate IdsUnique(s: State) {
    && (forall n <- s.containers :: s.containers[n].id < s.nextId)
    && (forall m, n :: m in s.containers && n in s.containers && s.containers[m].id == s.containers[n].id ==> m == n)
  }

  // The container whose id the client got from its create was made by this client, and its
  // outcome says what became of it.
  ghost predicate OwnsAs(s: State, c: nat, name: string, pc: Pc) {
    IdOf(pc).Some? ==>
      var id := IdOf(pc).value;
      && id < s.nextId
      && (forall n <- s.containers :: s.containers[n].id == id ==> s.containers[n].owner == Some(c) && n == name)
      && (pc == Done(StartFailed(id)) ==> Absent(s, id))
      && (pc == Done(Started(id)) ==> forall n <- s.containers :: s.containers[n].id == id ==> s.containers[n].started)
  }

  ghost predicate Owns(s: State, c: nat)
    requires c in s.clients
  {
    OwnsAs(s, c, s.clients[c].name, s.clients[c].pc)
  }

  ghost predicate Distinct(clients: map<nat, Client>) {
    forall c, d :: c in clients && d in clients && c != d && IdOf(clients[c].pc).Some?
      ==> IdOf(clients[c].pc) != IdOf(clients[d].pc)
  }

  // A client's container is the one it knows of, or its create failed with the reply lost.
  predicate AnswersFor(pc: Pc, id: nat) {
    IdOf(pc) == Some(id) || pc == Done(Failed(Creation))
  }

  ghost predicate Accounted(s: State) {
    forall n <- s.containers :: s.containers[n].owner.Some? ==>
      var c := s.containers[n].owner.value;
      c in s.clients && AnswersFor(s.clients[c].pc, s.containers[n].id)
  }

  ghost predicate Inv(s: State) {
    && IdsUnique(s)
    && (forall c <- s.clients :: Owns(s, c))
    && Distinct(s.clients)
    && Accounted(s)
  }

  // A client only touches the container it created, and only its own create gives it an id.
  lemma DecideTouchesOwn(s: State, c: nat, fate: Fate)
    requires c in s.clients && !s.clients[c].pc.Done?
    ensures var (effect, pc) := DecideIn(s, c, fate);
      var old_ := s.clients[c].pc;
      && (effect.Starts? || effect.Removes? ==> IdOf(old_) == Some(effect.id) == IdOf(pc))
      && (effect.Adds? ==> s.clients[c].name !in s.containers && IdOf(pc) in {None, Some(s.nextId)})
      && (effect.Nothing? ==> IdOf(pc) == IdOf(old_))
      && (pc.Done? && pc.outcome.StartFailed? ==> effect == Removes(pc.outcome.id))
      && (pc.Done? && pc.outcome.Started? ==> effect == Starts(pc.outcome.id))
  {
  }

  lemma EffectKeepsIds(s: State, name: string, c: nat, effect: Effect)
    requires IdsUnique(s) && (effect.Adds? ==> name !in s.containers)
    ensures IdsUnique(Effected(s, name, c, effect))
  {
  }

  lemma EffectKeepsOthers(s: State, name: string, c: nat, effect: Effect, d: nat, other: string, pc: Pc)
    requires OwnsAs(s, d, other, pc)
    ensures OwnsAs(Effected(s, name, c, effect), d, other, pc)
  {
  }

  lemma EffectKeepsOwn(s: State, c: nat, fate: Fate)
    requires Inv(s) && c in s.clients && !s.clients[c].pc.Done?
    ensures var (effect, pc) := DecideIn(s, c, fate);
      OwnsAs(Effected(s, s.clients[c].name, c, effect), c, s.clients[c].name, pc)
  {
    DecideTouchesOwn(s, c, fate);
    assert Owns(s, c);
  }

  lemma StepKeepsDistinct(s: State, c: nat, fate: Fate)
    requires Inv(s) && Enabled(s, Step(c, fate))
    ensures Distinct(StepOf(s, c, fate).clients)
  {
    DecideTouchesOwn(s, c, fate);
    assert forall d :: d in s.clients ==> Owns(s, d);
  }

  lemma StepKeepsAccounts(s: State, c: nat, fate: Fate)
    requires Inv(s) && Enabled(s, Step(c, fate))
    ensures Accounted(StepOf(s, c, fate))
  {
    var t := StepOf(s, c, fate);
    var (effect, pc) := DecideIn(s, c, fate);
    DecideTouchesOwn(s, c, fate);
    assert effect.Adds? ==> AnswersFor(pc, s.nextId);
    forall n | n in t.containers && t.containers[n].owner == Some(c)
      ensures AnswersFor(pc, t.containers[n].id)
    {
      if n in s.containers && s.containers[n].id == t.containers[n].id {
        assert s.containers[n].owner == Some(c);
        assert AnswersFor(s.clients[c].pc, s.containers[n].id);
      }
    }
  }

  lemma InvStep(s: State, c: nat, fate: Fate)
    requires Inv(s) && Enabled(s, Step(c, fate))
    ensures Inv(StepOf(s, c, fate))
  {
    var t := StepOf(s, c, fate);
    var (effect, pc) := DecideIn(s, c, fate);
    var name := s.clients[c].name;
    DecideTouchesOwn(s, c, fate);
    EffectKeepsIds(s, name, c, effect);
    StepKeepsDistinct(s, c, fate);
    StepKeepsAccounts(s, c, fate);
    forall d | d in t.clients
      ensures Owns(t, d)
    {
      if d == c {
        EffectKeepsOwn(s, c, fate);
      } else {
        assert Owns(s, d);
        EffectKeepsOthers(s, name, c, effect, d, s.clients[d].name, s.clients[d].pc);
      }
    }
  }

  lemma InvOfCallers(s: State, a: Action)
    requires Inv(s) && Enabled(s, a) && (a.Call? || a.Cancel?)
    ensures Inv(Apply(s, a))
  {
    var t := Apply(s, a);
    forall d | d in t.clients
      ensures Owns(t, d)
    {
      if d in s.clients {
        assert Owns(s, d);
      }
    }
  }

  lemma InvOfOtherUsers(s: State, a: Action)
    requires Inv(s) && Enabled(s, a) && (a.OtherCreates? || a.OtherRemoves?)
    ensures Inv(Apply(s, a))
  {
    var t := Apply(s, a);
    forall d | d in t.clients
      ensures Owns(t, d)
    {
      assert Owns(s, d);
    }
  }

  lemma {:induction false} InvAfter(s: State, actions: seq<Action>)
    requires Inv(s) && Legal(s, actions)
    ensures Inv(After(s, actions))
    decreases |actions|
  {
    if actions != [] {
      if actions[0].Step? {
        InvStep(s, actions[0].c, actions[0].fate);
      } else if actions[0].Call? || actions[0].Cancel? {
        InvOfCallers(s, actions[0]);
      } else {
        InvOfOtherUsers(s, actions[0]);
      }
      InvAfter(Apply(s, actions[0]), actions[1..]);
    }
  }

  lemma InvReachable(s: State)
    requires Reachable(s)
    ensures Inv(s)
  {
    var actions :| Legal(Init(), actions) && After(Init(), actions) == s;
    InvAfter(Init(), actions);
  }

  lemma {:induction false} LegalOneMore(s: State, actions: seq<Action>, a: Action)
    requires Legal(s, actions) && Enabled(After(s, actions), a)
    ensures Legal(s, actions + [a]) && After(s, actions + [a]) == Apply(After(s, actions), a)
    decreases |actions|
  {
    var all := actions + [a];
    if actions == [] {
      assert all[1..] == [];
    } else {
      LegalOneMore(Apply(s, actions[0]), actions[1..], a);
      assert all[1..] == actions[1..] + [a];
    }
  }

  lemma ReachableNext(s: State, a: Action)
    requires Reachable(s) && Enabled(s, a)
    ensures Reachable(Apply(s, a))
  {
    var actions :| Legal(Init(), actions) && After(Init(), actions) == s;
    LegalOneMore(Init(), actions, a);
  }

  lemma Extend(s: State, a: Action) returns (t: State)
    requires Reachable(s) && Enabled(s, a)
    ensures Reachable(t) && t == Apply(s, a)
  {
    ReachableNext(s, a);
    t := Apply(s, a);
  }

  // No request of a client changes a container that it did not create.
  lemma ClientsTouchOnlyTheirOwn(s: State, c: nat, fate: Fate)
    requires Reachable(s) && Enabled(s, Step(c, fate))
    ensures var t := Apply(s, Step(c, fate));
      && (forall n <- s.containers :: s.containers[n].owner != Some(c) ==>
            n in t.containers && t.containers[n] == s.containers[n])
      && (forall n <- t.containers :: n !in s.containers ==> t.containers[n].owner == Some(c) && n == s.clients[c].name)
      && (forall n <- t.containers :: n in s.containers ==> t.containers[n].id == s.containers[n].id)
  {
    InvReachable(s);
    DecideTouchesOwn(s, c, fate);
    assert Owns(s, c);
  }

  // At most one successful create per live container, and it is its owner's; of the clients
  // that created under one name at most one can have its container alive.
  lemma OneCreatorPerLiveContainer(s: State, n: string, c: nat, d: nat)
    requires Reachable(s) && n in s.containers && c in s.clients && d in s.clients
    requires IdOf(s.clients[c].pc) == Some(s.containers[n].id)
    ensures s.containers[n].owner == Some(c) && s.clients[c].name == n
    ensures IdOf(s.clients[d].pc) == Some(s.containers[n].id) ==> d == c
    ensures d != c && s.clients[d].name == n && IdOf(s.clients[d].pc).Some? ==> Absent(s, IdOf(s.clients[d].pc).value)
  {
    InvReachable(s);
    assert Owns(s, c) && Owns(s, d);
  }

  // A start that failed leaves the caller's own container absent from then on, or the error
  // that it returns is joined with the removal error.
  lemma FailedStartRollsBack(s: State, c: nat, id: nat)
    requires Reachable(s) && c in s.clients && s.clients[c].pc == Done(StartFailed(id))
    ensures Absent(s, id)
    ensures forall n <- s.containers :: s.containers[n].owner != Some(c)
  {
    InvReachable(s);
    assert Owns(s, c);
    assert forall n <- s.containers :: s.containers[n].owner == Some(c) ==>
      AnswersFor(s.clients[c].pc, s.containers[n].id);
  }

  lemma TwoSteps(s: State, a: Action, b: Action)
    requires Enabled(s, a) && Enabled(Apply(s, a), b)
    ensures Legal(s, [a, b]) && After(s, [a, b]) == Apply(Apply(s, a), b)
  {
    assert [a, b][1..] == [b] && [b][1..] == [];
    assert Legal(Apply(s, a), [b]) && After(Apply(s, a), [b]) == Apply(Apply(s, a), b);
  }

  // An obedient server completes the removal, for a cancelled client too.
  lemma RemovalCompletes(s: State, c: nat, id: nat) returns (t: State)
    requires Reachable(s) && c in s.clients && s.clients[c].pc == Removing(id) && !Absent(s, id)
    ensures Enabled(s, Step(c, Obeys)) && t == Apply(s, Step(c, Obeys))
    ensures c in t.clients && t.clients[c].pc == Done(StartFailed(id))
    ensures t.clients[c].cancelled == s.clients[c].cancelled
    ensures Absent(t, id) && forall n <- t.containers :: t.containers[n].owner != Some(c)
  {
    var n :| n in s.containers && s.containers[n].id == id;
    assert exists m <- s.containers :: s.containers[m].id == id;
    t := Extend(s, Step(c, Obeys));
    FailedStartRollsBack(t, c, id);
  }

  // The rollback does not depend on the caller's context: a client that is cancelled before its
  // start, so that the start cannot succeed, still ends without its container and with the plain
  // start error, whether or not the start reached the server.
  lemma RollbackSurvivesCancellation(s: State, c: nat, id: nat, fate: Fate) returns (t: State)
    requires Reachable(s) && c in s.clients && s.clients[c].cancelled && s.clients[c].pc == Starting(id)
    requires !Absent(s, id) && !fate.Obeys?
    ensures Legal(s, [Step(c, fate), Step(c, Obeys)]) && t == After(s, [Step(c, fate), Step(c, Obeys)])
    ensures c in t.clients && t.clients[c].cancelled && t.clients[c].pc == Done(StartFailed(id))
    ensures Absent(t, id) && forall n <- t.containers :: t.containers[n].owner != Some(c)
  {
    var n :| n in s.containers && s.containers[n].id == id;
    var failed := Extend(s, Step(c, fate));
    assert failed.clients[c].pc == Removing(id) && n in failed.containers && failed.containers[n].id == id;
    t := RemovalCompletes(failed, c, id);
    TwoSteps(s, Step(c, fate), Step(c, Obeys));
  }

  ghost function With(s: State, c: nat, pc: Pc): State
    requires c in s.clients
  {
    s.(clients := s.clients[c := s.clients[c].(pc := pc)])
  }

  lemma UndisturbedCreate(s: State, c: nat) returns (t: State)
    requires Reachable(s) && c in s.clients && s.clients[c].pc == Checking && !s.clients[c].cancelled
    requires s.clients[c].name !in s.containers
    ensures Reachable(t) && t == Add(With(s, c, Starting(s.nextId)), s.clients[c].name, Some(c))
  {
    t := Extend(s, Step(c, Obeys));
    assert t == With(s, c, Pulling);
    t := Extend(t, Step(c, Obeys));
    assert t == With(s, c, Creating);
    t := Extend(t, Step(c, Obeys));
    assert t.clients == With(s, c, Starting(s.nextId)).clients;
  }

  lemma UndisturbedStart(s: State, c: nat, id: nat, n: string) returns (t: State)
    requires Reachable(s) && c in s.clients && s.clients[c].pc == Starting(id) && !s.clients[c].cancelled
    requires n in s.containers && s.containers[n].id == id
    ensures Reachable(t) && c in t.clients && t.clients[c].pc == Done(Started(id))
    ensures t.containers == s.containers[n := s.containers[n].(started := true)]
  {
    InvReachable(s);
    assert exists m <- s.containers :: s.containers[m].id == id;
    t := Extend(s, Step(c, Obeys));
    assert t.containers == StartById(s, id).containers;
  }

  // A client that runs alone against an obedient server and finds its name free succeeds.
  lemma UndisturbedClientStarts(s: State, c: nat) returns (t: State)
    requires Reachable(s) && c in s.clients && s.clients[c].pc == Checking && !s.clients[c].cancelled
    requires s.clients[c].name !in s.containers
    ensures Reachable(t) && c in t.clients && t.clients[c].pc == Done(Started(s.nextId))
    ensures t.containers == s.containers[s.clients[c].name := Container(s.nextId, Some(c), true)]
  {
    var created := UndisturbedCreate(s, c);
    t := UndisturbedStart(created, c, s.nextId, s.clients[c].name);
  }

  // The only errors that can leave a container of the caller behind.
  lemma WhatErrorsLeaveBehind(s: State, c: nat, n: string)
    requires Reachable(s) && c in s.clients && s.clients[c].pc.Done?
    requires n in s.containers && s.containers[n].owner == Some(c)
    ensures s.clients[c].pc.outcome in
      {Started(s.containers[n].id), StartAndRemoveFailed(s.containers[n].id), Failed(Creation)}
  {
    InvReachable(s);
    assert AnswersFor(s.clients[c].pc, s.containers[n].id);
    assert Owns(s, c);
  }

  // CreateContainer's documentation promises ErrContainerAlreadyExists whenever the name is
  // taken. A client that loses the race after its check gets a plain creation error instead.
  lemma LoserGetsAPlainCreationError() returns (s: State)
    ensures Reachable(s) && "n" in s.containers && s.containers["n"].owner == Some(1)
    ensures 2 in s.clients && s.clients[2].pc == Done(Failed(Creation))
  {
    s := BothCalled();
    s := BothPassTheirCheck(s);
    s := Extend(s, Step(1, Obeys));
    s := Extend(s, Step(2, Obeys));
  }

  ghost function Both(pc: Pc): State {
    State(map[], 0, map[1 := Client("n", false, pc), 2 := Client("n", false, pc)])
  }

  lemma BothCalled() returns (s: State)
    ensures Reachable(s) && s == Both(Checking)
  {
    s := Init();
    assert Legal(Init(), []);
    s := Extend(s, Call(1, "n", "i", true));
    s := Extend(s, Call(2, "n", "i", true));
    assert s.clients == Both(Checking).clients;
  }

  lemma BothPassTheirCheck(called: State) returns (s: State)
    requires Reachable(called) && called == Both(Checking)
    ensures Reachable(s) && s == Both(Creating)
  {
    s := BothStep(called, Checking, Pulling);
    s := BothStep(s, Pulling, Creating);
  }

  lemma BothStep(from: State, pc: Pc, next: Pc) returns (s: State)
    requires Reachable(from) && from == Both(pc) && (pc.Checking? || pc.Pulling?)
    requires next == if pc.Checking? then Pulling else Creating
    ensures Reachable(s) && s == Both(next)
  {
    s := Extend(from, Step(1, Obeys));
    s := Extend(s, Step(2, Obeys));
    assert s.clients == Both(next).clients;
  }

  // --- When the error is ErrContainerAlreadyExists --------------------------------------------

  lemma {:induction false} LegalPrefix(s: State, actions: seq<Action>, k: nat)
    requires Legal(s, actions) && k <= |actions|
    ensures Legal(s, actions[..k])
    decreases |actions|
  {
    if k > 0 {
      LegalPrefix(Apply(s, actions[0]), actions[1..], k - 1);
      assert actions[..k][1..] == actions[1..][..k - 1];
    }
  }

  // The state before action k of a run.
  ghost function StateAt(actions: seq<Action>, k: nat): State
    requires Legal(Init(), actions) && k <= |actions|
  {
    LegalPrefix(Init(), actions, k);
    After(Init(), actions[..k])
  }

  lemma {:induction false} PrefixThenOne(s: State, actions: seq<Action>, k: nat)
    requires Legal(s, actions) && k < |actions|
    requires Legal(s, actions[..k]) && Legal(s, actions[..k + 1])
    ensures Enabled(After(s, actions[..k]), actions[k])
    ensures After(s, actions[..k + 1]) == Apply(After(s, actions[..k]), actions[k])
    decreases |actions|
  {
    if k == 0 {
      assert actions[..1][1..] == [];
    } else {
      assert actions[..k][1..] == actions[1..][..k - 1] && actions[..k + 1][1..] == actions[1..][..k];
      PrefixThenOne(Apply(s, actions[0]), actions[1..], k - 1);
    }
  }

  lemma NextState(actions: seq<Action>, k: nat)
    requires Legal(Init(), actions) && k < |actions|
    ensures Enabled(StateAt(actions, k), actions[k])
    ensures StateAt(actions, k + 1) == Apply(StateAt(actions, k), actions[k])
  {
    LegalPrefix(Init(), actions, k);
    LegalPrefix(Init(), actions, k + 1);
    PrefixThenOne(Init(), actions, k);
  }

  lemma NothingAtTheStart(actions: seq<Action>)
    requires Legal(Init(), actions)
    ensures StateAt(actions, 0) == Init()
  {
    assert actions[..0] == [];
  }

  // Action k is an obeyed request of client c at this point of its call.
  ghost predicate ObeyedAt(actions: seq<Action>, k: nat, c: nat, pc: Pc)
    requires Legal(Init(), actions) && k < |actions|
  {
    && actions[k] == Step(c, Obeys)
    && c in StateAt(actions, k).clients && StateAt(actions, k).clients[c].pc == pc
  }

  // The name that client c asks for is taken before action k.
  ghost predicate TakenAt(actions: seq<Action>, k: nat, c: nat)
    requires Legal(Init(), actions) && k <= |actions|
  {
    c in StateAt(actions, k).clients && StateAt(actions, k).clients[c].name in StateAt(actions, k).containers
  }

  // Where client c is before action k.
  ghost predicate IsAt(actions: seq<Action>, k: nat, c: nat, pc: Pc)
    requires Legal(Init(), actions) && k <= |actions|
  {
    c in StateAt(actions, k).clients && StateAt(actions, k).clients[c].pc == pc
  }

  // The check found the name taken at i, and so did the inspection at j.
  ghost predicate FoundTwice(actions: seq<Action>, i: nat, j: nat, c: nat)
    requires Legal(Init(), actions) && i < j < |actions|
  {
    && ObeyedAt(actions, i, c, Checking) && TakenAt(actions, i, c)
    && ObeyedAt(actions, j, c, Inspecting) && TakenAt(actions, j, c)
  }

  // A client that is inspecting had found its name taken.
  lemma {:induction false} InspectingWasTaken(actions: seq<Action>, k: nat, c: nat) returns (i: nat)
    requires Legal(Init(), actions) && k <= |actions| && IsAt(actions, k, c, Inspecting)
    ensures i < k && ObeyedAt(actions, i, c, Checking) && TakenAt(actions, i, c)
    decreases k
  {
    NothingAtTheStart(actions);
    NextState(actions, k - 1);
    i := k - 1;
    if IsAt(actions, k - 1, c, Inspecting) {
      i := InspectingWasTaken(actions, k - 1, c);
    }
  }

  // A client with that outcome was found taken twice.
  lemma {:induction false} AlreadyExistsWasFound(actions: seq<Action>, k: nat, c: nat) returns (i: nat, j: nat)
    requires Legal(Init(), actions) && k <= |actions| && IsAt(actions, k, c, Done(AlreadyExists))
    ensures i < j < k && FoundTwice(actions, i, j, c)
    decreases k
  {
    NothingAtTheStart(actions);
    NextState(actions, k - 1);
    if IsAt(actions, k - 1, c, Done(AlreadyExists)) {
      i, j := AlreadyExistsWasFound(actions, k - 1, c);
    } else {
      j := k - 1;
      assert IsAt(actions, j, c, Inspecting);
      i := InspectingWasTaken(actions, j, c);
    }
  }

  // Past the check with a free name no client returns to it or reports the name as taken.
  predicate PastAFreeCheck(pc: Pc) {
    !pc.Checking? && !pc.Inspecting? && pc != Done(AlreadyExists)
  }

  // An outcome is final, and so is having passed the check with a free name.
  lemma {:induction false} OutcomesAreFinal(actions: seq<Action>, k: nat, m: nat, c: nat)
    requires Legal(Init(), actions) && k <= m <= |actions| && c in StateAt(actions, k).clients
    ensures c in StateAt(actions, m).clients
    ensures var pc, later := StateAt(actions, k).clients[c].pc, StateAt(actions, m).clients[c].pc;
      && (pc.Done? ==> later == pc)
      && (PastAFreeCheck(pc) ==> PastAFreeCheck(later))
    decreases m
  {
    if k < m {
      OutcomesAreFinal(actions, k, m - 1, c);
      NextState(actions, m - 1);
    }
  }

  lemma FoundTwiceExists(actions: seq<Action>, i: nat, j: nat, c: nat)
    requires Legal(Init(), actions) && i < j < |actions| && FoundTwice(actions, i, j, c)
    ensures IsAt(actions, |actions|, c, Done(AlreadyExists))
  {
    NextState(actions, j);
    OutcomesAreFinal(actions, j + 1, |actions|, c);
  }

  lemma StateAtTheEnd(actions: seq<Action>)
    requires Legal(Init(), actions)
    ensures StateAt(actions, |actions|) == After(Init(), actions)
  {
    assert actions[..|actions|] == actions;
  }

  // Over every run: a finished call reports ErrContainerAlreadyExists exactly if its check and
  // after it its inspection both got through and both met the name in use.
  lemma AlreadyExistsIffFoundTwice(actions: seq<Action>, c: nat)
    requires Legal(Init(), actions)
    requires c in After(Init(), actions).clients && After(Init(), actions).clients[c].pc.Done?
    ensures After(Init(), actions).clients[c].pc.outcome == AlreadyExists <==>
      exists i, j :: 0 <= i < j < |actions| && FoundTwice(actions, i, j, c)
  {
    StateAtTheEnd(actions);
    if After(Init(), actions).clients[c].pc.outcome == AlreadyExists {
      var i, j := AlreadyExistsWasFound(actions, |actions|, c);
    }
    forall i, j | 0 <= i < j < |actions| && FoundTwice(actions, i, j, c)
      ensures After(Init(), actions).clients[c].pc == Done(AlreadyExists)
    {
      FoundTwiceExists(actions, i, j, c);
    }
  }

  // A client that finds its name free when it checks never reports it as existing, whoever
  // takes the name afterwards.
  lemma FreeAtTheCheckNeverExists(actions: seq<Action>, k: nat, c: nat)
    requires Legal(Init(), actions) && k < |actions|
    requires actions[k].Step? && actions[k].c == c && IsAt(actions, k, c, Checking) && !TakenAt(actions, k, c)
    ensures c in After(Init(), actions).clients
    ensures After(Init(), actions).clients[c].pc != Done(AlreadyExists)
  {
    StateAtTheEnd(actions);
    NextState(actions, k);
    OutcomesAreFinal(actions, k + 1, |actions|, c);
  }

  // The action frees a name.
  ghost predicate Frees(s: State, a: Action, name: string)
    requires Enabled(s, a)
  {
    name in s.containers && name !in Apply(s, a).containers
  }

  // From i to j the client does nothing, and nobody frees its name.
  ghost predicate KeptTaken(actions: seq<Action>, i: nat, j: nat, c: nat, name: string)
    requires Legal(Init(), actions) && i <= j <= |actions|
  {
    forall m :: i <= m < j ==>
      && (forall fate :: actions[m] != Step(c, fate))
      && Enabled(StateAt(actions, m), actions[m]) && !Frees(StateAt(actions, m), actions[m], name)
  }

  lemma {:induction false} TakenStaysTaken(actions: seq<Action>, i: nat, j: nat, c: nat, name: string)
    requires Legal(Init(), actions) && i <= j <= |actions| && KeptTaken(actions, i, j, c, name)
    requires IsAt(actions, i, c, Inspecting) && StateAt(actions, i).clients[c].name == name
    requires TakenAt(actions, i, c)
    ensures IsAt(actions, j, c, Inspecting) && StateAt(actions, j).clients[c].name == name
    ensures TakenAt(actions, j, c)
    decreases j
  {
    if i < j {
      TakenStaysTaken(actions, i, j - 1, c, name);
      NextState(actions, j - 1);
      assert !Frees(StateAt(actions, j - 1), actions[j - 1], name);
    }
  }

  // The documented promise holds when nobody frees the name in time: a client that finds its
  // name taken when it checks, and whose next request is the obeyed inspection, reports it.
  lemma TakenUntilInspectedExists(actions: seq<Action>, i: nat, j: nat, c: nat)
    requires Legal(Init(), actions) && i < j < |actions|
    requires ObeyedAt(actions, i, c, Checking) && TakenAt(actions, i, c)
    requires actions[j] == Step(c, Obeys)
    requires KeptTaken(actions, i + 1, j, c, StateAt(actions, i).clients[c].name)
    ensures c in After(Init(), actions).clients
    ensures After(Init(), actions).clients[c].pc == Done(AlreadyExists)
  {
    StateAtTheEnd(actions);
    NextState(actions, i);
    TakenStaysTaken(actions, i + 1, j, c, StateAt(actions, i).clients[c].name);
    NextState(actions, j);
    OutcomesAreFinal(actions, j + 1, |actions|, c);
  }

  // --- No step is skipped ----------------------------------------------------------------------

  lemma StateAtIsReachable(actions: seq<Action>, k: nat)
    requires Legal(Init(), actions) && k <= |actions|
    ensures Reachable(StateAt(actions, k))
  {
    LegalPrefix(Init(), actions, k);
  }

  // A client has sent its create request, or is about to.
  predicate PastImage(pc: Pc) {
    pc.Creating? || IdOf(pc).Some? || pc == Done(Failed(Creation))
  }

  // A client that asks for its image had found its name free.
  lemma {:induction false} PullingWasFree(actions: seq<Action>, k: nat, c: nat) returns (i: nat)
    requires Legal(Init(), actions) && k <= |actions| && IsAt(actions, k, c, Pulling)
    ensures i < k && ObeyedAt(actions, i, c, Checking) && !TakenAt(actions, i, c)
    decreases k
  {
    NothingAtTheStart(actions);
    NextState(actions, k - 1);
    i := k - 1;
    if IsAt(actions, k - 1, c, Pulling) {
      i := PullingWasFree(actions, k - 1, c);
    }
  }

  // A client that creates had its image, and its name free before that.
  lemma {:induction false} CreatingWasPrepared(actions: seq<Action>, k: nat, c: nat) returns (i: nat, j: nat)
    requires Legal(Init(), actions) && k <= |actions|
    requires c in StateAt(actions, k).clients && PastImage(StateAt(actions, k).clients[c].pc)
    ensures i < j < k && ObeyedAt(actions, j, c, Pulling)
    ensures ObeyedAt(actions, i, c, Checking) && !TakenAt(actions, i, c)
    decreases k
  {
    NothingAtTheStart(actions);
    NextState(actions, k - 1);
    var before := StateAt(actions, k - 1);
    if c in before.clients && PastImage(before.clients[c].pc) {
      i, j := CreatingWasPrepared(actions, k - 1, c);
    } else {
      j := k - 1;
      assert IsAt(actions, j, c, Pulling);
      i := PullingWasFree(actions, j, c);
    }
  }

  // Over every run: behind each container that a client made stand its obeyed check of a free
  // name and after it its obeyed image request.
  lemma ContainersArePrepared(actions: seq<Action>, n: string, c: nat) returns (i: nat, j: nat)
    requires Legal(Init(), actions)
    requires n in After(Init(), actions).containers && After(Init(), actions).containers[n].owner == Some(c)
    ensures i < j < |actions| && ObeyedAt(actions, j, c, Pulling)
    ensures ObeyedAt(actions, i, c, Checking) && !TakenAt(actions, i, c)
  {
    var s := After(Init(), actions);
    StateAtTheEnd(actions);
    assert Reachable(s);
    InvReachable(s);
    assert AnswersFor(s.clients[c].pc, s.containers[n].id);
    i, j := CreatingWasPrepared(actions, |actions|, c);
  }

  lemma {:induction false} PastImageStays(actions: seq<Action>, k: nat, m: nat, c: nat)
    requires Legal(Init(), actions) && k <= m <= |actions|
    requires c in StateAt(actions, k).clients && PastImage(StateAt(actions, k).clients[c].pc)
    ensures c in StateAt(actions, m).clients && PastImage(StateAt(actions, m).clients[c].pc)
    decreases m
  {
    if k < m {
      PastImageStays(actions, k, m - 1, c);
      NextState(actions, m - 1);
    }
  }

  lemma NotPastImageBefore(actions: seq<Action>, m: nat, c: nat)
    requires Legal(Init(), actions) && m <= |actions|
    requires c in StateAt(actions, |actions|).clients && !PastImage(StateAt(actions, |actions|).clients[c].pc)
    ensures c in StateAt(actions, m).clients ==> !PastImage(StateAt(actions, m).clients[c].pc)
  {
    if c in StateAt(actions, m).clients && PastImage(StateAt(actions, m).clients[c].pc) {
      PastImageStays(actions, m, |actions|, c);
    }
  }

  lemma OwnersArePastImage(s: State, c: nat)
    requires Reachable(s) && (c in s.clients ==> !PastImage(s.clients[c].pc))
    ensures forall n <- s.containers :: s.containers[n].owner != Some(c)
  {
    InvReachable(s);
    assert forall n <- s.containers :: s.containers[n].owner == Some(c) ==>
      c in s.clients && AnswersFor(s.clients[c].pc, s.containers[n].id);
  }

  // No container of this client, at any time of the run.
  ghost predicate NeverOwns(actions: seq<Action>, c: nat)
    requires Legal(Init(), actions)
  {
    forall m: nat :: m <= |actions| ==> OwnsNothingAt(actions, m, c)
  }

  ghost predicate OwnsNothingAt(actions: seq<Action>, m: nat, c: nat)
    requires Legal(Init(), actions) && m <= |actions|
  {
    forall n <- StateAt(actions, m).containers :: StateAt(actions, m).containers[n].owner != Some(c)
  }

  lemma NeverOwnsBeforeImage(actions: seq<Action>, c: nat)
    requires Legal(Init(), actions)
    requires c in After(Init(), actions).clients && !PastImage(After(Init(), actions).clients[c].pc)
    ensures NeverOwns(actions, c)
  {
    StateAtTheEnd(actions);
    forall m: nat | m <= |actions|
      ensures OwnsNothingAt(actions, m, c)
    {
      StateAtIsReachable(actions, m);
      NotPastImageBefore(actions, m, c);
      OwnersArePastImage(StateAt(actions, m), c);
    }
  }

  // The stage of a request up to the create.
  function StageOf(pc: Pc): Stage
    requires pc.Checking? || pc.Inspecting? || pc.Pulling? || pc.Creating?
  {
    match pc
    case Checking => ExistsCheck
    case Inspecting => Inspection
    case Pulling => Image
    case Creating => Creation
  }

  // Over every run: a check, an inspection, an image request or a create that does not get
  // through, be it refused or its reply lost, ends the call with the error of that stage, and
  // before the create the client never has a container.
  lemma FailedRequestEndsTheCall(actions: seq<Action>, k: nat, c: nat, pc: Pc)
    requires Legal(Init(), actions) && k < |actions| && IsAt(actions, k, c, pc)
    requires pc.Checking? || pc.Inspecting? || pc.Pulling? || pc.Creating?
    requires actions[k].Step? && actions[k].c == c && !actions[k].fate.Obeys?
    ensures c in After(Init(), actions).clients
    ensures After(Init(), actions).clients[c].pc == Done(Failed(StageOf(pc)))
    ensures !pc.Creating? ==> NeverOwns(actions, c)
  {
    StateAtTheEnd(actions);
    NextState(actions, k);
    OutcomesAreFinal(actions, k + 1, |actions|, c);
    if !pc.Creating? {
      NeverOwnsBeforeImage(actions, c);
    }
  }

  // A client that knows its container's id got it from its obeyed create under a free name.
  lemma {:induction false} KnownIdWasCreated(actions: seq<Action>, k: nat, c: nat) returns (i: nat)
    requires Legal(Init(), actions) && k <= |actions|
    requires c in StateAt(actions, k).clients && IdOf(StateAt(actions, k).clients[c].pc).Some?
    ensures i < k && ObeyedAt(actions, i, c, Creating) && !TakenAt(actions, i, c)
    decreases k
  {
    NothingAtTheStart(actions);
    NextState(actions, k - 1);
    var before := StateAt(actions, k - 1);
    i := k - 1;
    if c in before.clients && IdOf(before.clients[c].pc).Some? {
      i := KnownIdWasCreated(actions, k - 1, c);
    }
  }

  lemma {:induction false} StartedWasObeyed(actions: seq<Action>, k: nat, c: nat, id: nat) returns (i: nat)
    requires Legal(Init(), actions) && k <= |actions| && IsAt(actions, k, c, Done(Started(id)))
    ensures i < k && ObeyedAt(actions, i, c, Starting(id))
    decreases k
  {
    NothingAtTheStart(actions);
    NextState(actions, k - 1);
    i := k - 1;
    if IsAt(actions, k - 1, c, Done(Started(id))) {
      i := StartedWasObeyed(actions, k - 1, c, id);
    }
  }

  // Over every run: behind a success stand, in this order, the obeyed check of a free name, the
  // obeyed image request, the obeyed create and the obeyed start.
  lemma SuccessTakesEveryRequest(actions: seq<Action>, c: nat, id: nat) returns (i: nat, j: nat, k: nat, l: nat)
    requires Legal(Init(), actions)
    requires c in After(Init(), actions).clients && After(Init(), actions).clients[c].pc == Done(Started(id))
    ensures i < j < k < l < |actions|
    ensures ObeyedAt(actions, i, c, Checking) && !TakenAt(actions, i, c)
    ensures ObeyedAt(actions, j, c, Pulling)
    ensures ObeyedAt(actions, k, c, Creating) && !TakenAt(actions, k, c)
    ensures ObeyedAt(actions, l, c, Starting(id))
  {
    StateAtTheEnd(actions);
    l := StartedWasObeyed(actions, |actions|, c, id);
    k := KnownIdWasCreated(actions, l, c);
    i, j := CreatingWasPrepared(actions, k, c);
  }

  // A start that does not get through is never reported as a success: the removal follows.
  lemma {:induction false} RollbackFollows(actions: seq<Action>, k: nat, m: nat, c: nat, id: nat)
    requires Legal(Init(), actions) && k <= m <= |actions| && IsAt(actions, k, c, Removing(id))
    ensures c in StateAt(actions, m).clients
    ensures StateAt(actions, m).clients[c].pc in {Removing(id), Done(StartFailed(id)), Done(StartAndRemoveFailed(id))}
    decreases m
  {
    if k < m {
      RollbackFollows(actions, k, m - 1, c, id);
      NextState(actions, m - 1);
    }
  }

  lemma FailedStartIsRolledBack(actions: seq<Action>, k: nat, c: nat, id: nat)
    requires Legal(Init(), actions) && k < |actions| && IsAt(actions, k, c, Starting(id))
    requires actions[k].Step? && actions[k].c == c && !actions[k].fate.Obeys?
    ensures c in After(Init(), actions).clients
    ensures After(Init(), actions).clients[c].pc in
      {Removing(id), Done(StartFailed(id)), Done(StartAndRemoveFailed(id))}
  {
    StateAtTheEnd(actions);
    NextState(actions, k);
    RollbackFollows(actions, k + 1, |actions|, c, id);
  }

  // The plain start error means that the removal was confirmed; a removal that does not get
  // through is joined to it.
  lemma {:induction false} PlainErrorWasConfirmed(actions: seq<Action>, k: nat, c: nat, id: nat) returns (i: nat)
    requires Legal(Init(), actions) && k <= |actions| && IsAt(actions, k, c, Done(StartFailed(id)))
    ensures i < k && ObeyedAt(actions, i, c, Removing(id))
    decreases k
  {
    NothingAtTheStart(actions);
    NextState(actions, k - 1);
    i := k - 1;
    if IsAt(actions, k - 1, c, Done(StartFailed(id))) {
      i := PlainErrorWasConfirmed(actions, k - 1, c, id);
    }
  }

  lemma FailedRemovalIsJoined(actions: seq<Action>, k: nat, c: nat, id: nat)
    requires Legal(Init(), actions) && k < |actions| && IsAt(actions, k, c, Removing(id))
    requires actions[k].Step? && actions[k].c == c && !actions[k].fate.Obeys?
    ensures c in After(Init(), actions).clients
    ensures After(Init(), actions).clients[c].pc == Done(StartAndRemoveFailed(id))
  {
    StateAtTheEnd(actions);
    NextState(actions, k);
    OutcomesAreFinal(actions, k + 1, |actions|, c);
  }

  // The outcome tells of a container, started or existing.
  predicate Reports(pc: Pc) {
    pc.Done? && (pc.outcome.Started? || pc.outcome.AlreadyExists?)
  }

  lemma {:induction false} CancelledStays(actions: seq<Action>, k: nat, m: nat, c: nat)
    requires Legal(Init(), actions) && k <= m <= |actions|
    requires c in StateAt(actions, k).clients && StateAt(actions, k).clients[c].cancelled
    requires !Reports(StateAt(actions, k).clients[c].pc)
    ensures c in StateAt(actions, m).clients && StateAt(actions, m).clients[c].cancelled
    ensures !Reports(StateAt(actions, m).clients[c].pc)
    decreases m
  {
    if k < m {
      CancelledStays(actions, k, m - 1, c);
      NextState(actions, m - 1);
    }
  }

  // After the cancellation no request of the client gets through but the removal of its own
  // container.
  lemma CancelledRequestsFail(actions: seq<Action>, k: nat, m: nat, c: nat)
    requires Legal(Init(), actions) && k < m < |actions| && actions[k] == Cancel(c)
    requires c in StateAt(actions, k).clients && !StateAt(actions, k).clients[c].pc.Done?
    requires actions[m].Step? && actions[m].c == c && actions[m].fate.Obeys?
    ensures c in StateAt(actions, m).clients && StateAt(actions, m).clients[c].pc.Removing?
  {
    NextState(actions, k);
    CancelledStays(actions, k + 1, m, c);
    NextState(actions, m);
  }

  // A call that is cancelled before it ended reports neither a started container nor an existing
  // one.
  lemma CancelledCallsFail(actions: seq<Action>, k: nat, c: nat)
    requires Legal(Init(), actions) && k < |actions| && actions[k] == Cancel(c)
    requires c in StateAt(actions, k).clients && !StateAt(actions, k).clients[c].pc.Done?
    ensures c in After(Init(), actions).clients
    ensures !Reports(After(Init(), actions).clients[c].pc)
  {
    StateAtTheEnd(actions);
    NextState(actions, k);
    CancelledStays(actions, k + 1, |actions|, c);
  }

  // A call whose specification does not validate, or names no container or no image, ends at
  // once and sends nothing; every other call gets past that.
  lemma CallsAreValidated(actions: seq<Action>, k: nat)
    requires Legal(Init(), actions) && k < |actions| && actions[k].Call?
    ensures var Call(c, name, image, valid) := actions[k];
      && c in After(Init(), actions).clients && After(Init(), actions).clients[c].name == name
      && (After(Init(), actions).clients[c].pc == Done(Failed(Invalid)) <==> !valid || name == "" || image == "")
      && (!valid || name == "" || image == "" ==> NeverOwns(actions, c))
  {
    var Call(c, name, image, valid) := actions[k];
    StateAtTheEnd(actions);
    NextState(actions, k);
    ValidityIsFinal(actions, k + 1, |actions|, c);
    if !valid || name == "" || image == "" {
      NeverOwnsBeforeImage(actions, c);
    }
  }

  lemma {:induction false} ValidityIsFinal(actions: seq<Action>, k: nat, m: nat, c: nat)
    requires Legal(Init(), actions) && k <= m <= |actions| && c in StateAt(actions, k).clients
    ensures c in StateAt(actions, m).clients
    ensures StateAt(actions, m).clients[c].name == StateAt(actions, k).clients[c].name
    ensures StateAt(actions, m).clients[c].pc == Done(Failed(Invalid)) <==>
      StateAt(actions, k).clients[c].pc == Done(Failed(Invalid))
    decreases m
  {
    if k < m {
      ValidityIsFinal(actions, k, m - 1, c);
      NextState(actions, m - 1);
    }
  }
}
