// The Podman volume API as an adversary: before each request other clients may act, and the
// server may obey, refuse with an error, or obey and lose the reply.
module VolumeServer {
  import opened Strings
  import TarStream

  datatype Node = Node(kind: TarStream.Kind, body: seq<bv8>)
  type Files = map<string, Node>
  datatype Volume = Volume(id: nat, files: Files)

  datatype Reply<+T> = Ok(value: T) | Error(text: string)

  // What another client does.
  datatype Act = Makes(name: string) | Drops(name: string) | Writes(name: string, path: string, node: Node)

  datatype Fate = Obeys | Refuses(text: string) | Loses(text: string)

  // One request's surroundings; missing is the reply to removing a volume that is not there.
  datatype Turn = Turn(others: seq<Act>, fate: Fate, missing: Option<string>)
  type Environment = nat -> Turn

  // A remove request and the error it returned; there says whether the volume was there when
  // the request arrived, refused whether the server refused it.
  datatype RemoveSent = RemoveSent(force: bool, error: Option<string>, there: bool, refused: bool)

  // ids are never reused; removes logs the remove requests of the client under study, creates
  // the ids of the volumes that its create requests made, probes the errors of its existence
  // checks.
  datatype Server = Server(volumes: map<string, Volume>, nextId: nat, clock: nat,
                           removes: seq<RemoveSent>, creates: seq<nat>, probes: seq<Option<string>>)

  ghost predicate WellFormed(s: Server) {
    && (forall n <- s.volumes :: s.volumes[n].id < s.nextId)
    && (forall m, n :: m in s.volumes && n in s.volumes && s.volumes[m].id == s.volumes[n].id ==> m == n)
  }

  function Make(s: Server, name: string): Server {
    s.(volumes := s.volumes[name := Volume(s.nextId, map[])], nextId := s.nextId + 1)
  }

  function Perform(s: Server, act: Act): Server {
    match act
    case Makes(name) => if name in s.volumes then s else Make(s, name)
    case Drops(name) => s.(volumes := s.volumes - {name})
    case Writes(name, path, node) =>
      if name in s.volumes then
        s.(volumes := s.volumes[name := s.volumes[name].(files := s.volumes[name].files[path := node])])
      else s
  }

  function PerformAll(s: Server, acts: seq<Act>): Server
    decreases |acts|
  {
    if acts == [] then s else PerformAll(Perform(s, acts[0]), acts[1..])
  }

  // The server when the next request is served.
  function Arrive(env: Environment, s: Server): Server {
    PerformAll(s.(clock := s.clock + 1), env(s.clock).others)
  }

  function Exists(env: Environment, s: Server, name: string): (Server, Reply<bool>) {
    var at := Arrive(env, s);
    var reply := match env(s.clock).fate
      case Obeys => Ok(name in at.volumes)
      case Refuses(text) => Error(text)
      case Loses(text) => Error(text);
    (at.(probes := at.probes + [if reply.Ok? then None else Some(reply.text)]), reply)
  }

  function Remove(env: Environment, s: Server, name: string, force: bool): (Server, Option<string>) {
    var at := Arrive(env, s);
    var turn := env(s.clock);
    var left := if turn.fate.Refuses? then at.volumes else at.volumes - {name};
    var error := match turn.fate
      case Obeys => if name in at.volumes then None else turn.missing
      case Refuses(text) => Some(text)
      case Loses(text) => Some(text);
    var sent := RemoveSent(force, error, name in at.volumes, turn.fate.Refuses?);
    (at.(volumes := left, removes := at.removes + [sent]), error)
  }

  function Create(env: Environment, s: Server, name: string, reuse: bool): (Server, Reply<string>) {
    var at := Arrive(env, s);
    var fate := env(s.clock).fate;
    if fate.Refuses? then (at, Error(fate.text))
    else if name in at.volumes && !reuse then (at, Error("volume already exists"))
    else
      var made := if name in at.volumes then at else Make(at, name).(creates := at.creates + [at.nextId]);
      (made, if fate.Obeys? then Ok(name) else Error(fate.text))
  }

  // Nobody else acts.
  ghost predicate Quiet(env: Environment) {
    forall t: nat :: env(t).others == []
  }

  // The server does as it is told and every reply arrives.
  ghost predicate Obedient(env: Environment) {
    forall t: nat :: env(t).fate == Obeys
  }

  ghost predicate Later(s: Server, t: Server) {
    && (WellFormed(s) ==> WellFormed(t))
    && s.nextId <= t.nextId && s.creates <= t.creates
  }

  lemma LaterIsTransitive(s: Server, t: Server, u: Server)
    requires Later(s, t) && Later(t, u)
    ensures Later(s, u)
  {
  }

  lemma {:induction false} OthersOnlyAdvance(s: Server, acts: seq<Act>)
    ensures var t := PerformAll(s, acts);
      Later(s, t) && t.removes == s.removes && t.creates == s.creates && t.probes == s.probes
    decreases |acts|
  {
    if acts != [] {
      var t := Perform(s, acts[0]);
      assert Later(s, t);
      OthersOnlyAdvance(t, acts[1..]);
      LaterIsTransitive(s, t, PerformAll(s, acts));
    }
  }

  lemma ArriveOnlyAdvances(env: Environment, s: Server)
    ensures var t := Arrive(env, s);
      Later(s, t) && t.removes == s.removes && t.creates == s.creates && t.probes == s.probes
    ensures Quiet(env) ==> Arrive(env, s).volumes == s.volumes
  {
    OthersOnlyAdvance(s.(clock := s.clock + 1), env(s.clock).others);
  }

  // The volume was made by a create request that the client sent after s.
  ghost predicate MadeSince(s: Server, t: Server, name: string) {
    && s.creates <= t.creates && name in t.volumes
    && t.volumes[name].id in t.creates[|s.creates|..] && t.volumes[name].id >= s.nextId
    && t.volumes[name].files == map[]
  }

  lemma MadeSinceEarlier(s: Server, t: Server, u: Server, name: string)
    requires Later(s, t) && MadeSince(t, u, name)
    ensures MadeSince(s, u, name)
  {
    assert u.creates[|t.creates|..] == u.creates[|s.creates|..][|t.creates| - |s.creates|..];
  }

  // A create that must not reuse succeeds only if the name is free when the request arrives,
  // whatever other clients did before; the volume that it hands on is its own, new and empty.
  lemma CreateIsFresh(env: Environment, s: Server, name: string)
    ensures var (t, reply) := Create(env, s, name, false);
      var at := Arrive(env, s);
      && Later(s, t) && t.removes == s.removes
      && (reply.Ok? ==>
            && name !in at.volumes && t.volumes == at.volumes[name := Volume(at.nextId, map[])]
            && t.creates == s.creates + [at.nextId] && MadeSince(s, t, name))
      && (reply.Ok? && Quiet(env) ==> name !in s.volumes && t.volumes - {name} == s.volumes)
  {
    ArriveOnlyAdvances(env, s);
    var (t, reply) := Create(env, s, name, false);
    if reply.Ok? {
      assert t.creates[|s.creates|..] == [Arrive(env, s).nextId];
    }
  }

  // The flag matters: a create that may reuse hands on what another client just made.
  lemma ReuseMayHandOnAForeignVolume(name: string)
    ensures var env := (_: nat) => Turn([Makes(name)], Obeys, None);
      var s := Server(map[], 0, 0, [], [], []);
      var (t, reply) := Create(env, s, name, true);
      reply.Ok? && name in t.volumes && !MadeSince(s, t, name)
  {
    var env := (_: nat) => Turn([Makes(name)], Obeys, None);
    var s := Server(map[], 0, 0, [], [], []);
    var acts := env(0).others;
    assert PerformAll(s.(clock := 1), acts) == PerformAll(Perform(s.(clock := 1), acts[0]), acts[1..]);
    assert Create(env, s, name, true).0.creates == [];
  }

  // --- Which names the other clients leave in place ---------------------------------------

  // Whether a name that is there or not is there after these acts.
  function ThereAfter(there: bool, acts: seq<Act>, name: string): bool
    decreases |acts|
  {
    if acts == [] then there
    else
      var now := match acts[0]
        case Makes(n) => there || n == name
        case Drops(n) => there && n != name
        case Writes(_, _, _) => there;
      ThereAfter(now, acts[1..], name)
  }

  lemma {:induction false} OthersLeave(s: Server, acts: seq<Act>, name: string)
    ensures name in PerformAll(s, acts).volumes <==> ThereAfter(name in s.volumes, acts, name)
    decreases |acts|
  {
    if acts != [] {
      OthersLeave(Perform(s, acts[0]), acts[1..], name);
    }
  }

  // A name that is longer than every name in these acts.
  function Unmentioned(acts: seq<Act>): string {
    if acts == [] then "" else acts[0].name + "x" + Unmentioned(acts[1..])
  }

  lemma {:induction false} UnmentionedStays(acts: seq<Act>, name: string)
    requires |name| >= |Unmentioned(acts)|
    ensures ThereAfter(true, acts, name)
  {
    if acts != [] {
      UnmentionedStays(acts[1..], name);
    }
  }
}
