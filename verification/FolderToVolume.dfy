// WriteFolderToVolume (volume.go:201-382) end to end: the setup decided by the mode table
// (volume_plan.go:14-31), the temporary container, the tar pipe and the extraction.
module FolderToVolume {
  import opened Strings
  import opened VolumeServer
  import VolumeSetup
  import TarStream
  import TarPipe
  import opened TemporaryContainer
  import Retry

  // VolumeMode is an int type with three named values.
  const MODE_SKIP := 0
  const MODE_UPDATE := 1
  const MODE_OVERWRITE := 2

  datatype SetupAction = Skip | Create | Reuse | Overwrite

  // planVolumeSetup; None is the error for an unknown mode.
  function PlanVolumeSetup(mode: int, exists_: bool): Option<SetupAction> {
    if mode == MODE_OVERWRITE then Some(Overwrite)
    else if mode == MODE_SKIP then Some(if exists_ then Skip else Create)
    else if mode == MODE_UPDATE then Some(if exists_ then Reuse else Create)
    else None
  }

  // The response of a setup that goes on: the action taken and the volume handed on.
  datatype Setup = Setup(action: SetupAction, handedOn: string)

  ghost predicate Uncancelled(ctxs: VolumeSetup.Contexts) {
    Retry.NeverCancelled(ctxs.probe) && Retry.NeverCancelled(ctxs.reprobe) && Retry.NeverCancelled(ctxs.removal)
  }

  // The create of a setup, which must not reuse a volume.
  function CreateFnOf(env: Environment, name: string): VolumeSetup.CreateFn {
    (r: Server) => VolumeServer.Create(env, r, name, false)
  }

  lemma CreateNeverReuses(env: Environment, name: string)
    ensures VolumeSetup.NonReusing(CreateFnOf(env, name), name)
  {
    forall r: Server
      ensures var (t, created) := CreateFnOf(env, name)(r);
        Later(r, t) && (created.Ok? ==> MadeSince(r, t, name))
    {
      CreateIsFresh(env, r, name);
    }
  }

  // What Create and Overwrite hand on when they succeed.
  ghost predicate HandsOnItsOwn(env: Environment, s: Server, after: Server, name: string) {
    && Later(s, after) && MadeSince(s, after, name)
    && (Quiet(env) ==> after.volumes - {name} == s.volumes - {name})
  }

  lemma CreatedItsOwn(env: Environment, s: Server, before: Server, name: string)
    requires Later(s, before) && (Quiet(env) ==> before.volumes - {name} == s.volumes - {name})
    ensures var (t, reply) := CreateFnOf(env, name)(before);
      Later(s, t) && (reply.Ok? ==> HandsOnItsOwn(env, s, t, name))
      && (reply.Error? && Quiet(env) && Obedient(env) ==> name in before.volumes)
  {
    CreateIsFresh(env, before, name);
    ArriveOnlyAdvances(env, before);
    var (t, reply) := CreateFnOf(env, name)(before);
    LaterIsTransitive(s, before, t);
    if reply.Ok? {
      MadeSinceEarlier(s, before, t, name);
    }
  }

  // The overwrite of a setup.
  method Recreate(env: Environment, ctxs: VolumeSetup.Contexts, s: Server, name: string)
    returns (reply: Reply<string>, after: Server)
    ensures Later(s, after)
    ensures reply.Ok? ==> HandsOnItsOwn(env, s, after, name)
    ensures Obedient(env) && Quiet(env) && Uncancelled(ctxs) ==> reply.Ok?
  {
    CreateNeverReuses(env, name);
    var created, t, _, before := VolumeSetup.OverwriteVolume(env, ctxs, s, name, CreateFnOf(env, name));
    reply, after := created, t;
    CreatedItsOwn(env, s, before, name);
  }

  // The setup part of WriteFolderToVolume (volume.go:220-249).
  method SetUpVolume(env: Environment, ctxs: VolumeSetup.Contexts, s: Server, name: string, mode: int)
    returns (reply: Reply<Setup>, after: Server, ghost probed: Server)
    // an unknown mode is an error, and nothing is changed
    ensures !(MODE_SKIP <= mode <= MODE_OVERWRITE) ==> reply.Error? && after == probed
    // the plan is made from one existence check
    ensures reply.Ok? ==>
      && MODE_SKIP <= mode <= MODE_OVERWRITE
      && (reply.value.action.Overwrite? <==> mode == MODE_OVERWRITE)
      && (reply.value.action.Create? <==> mode != MODE_OVERWRITE && name !in probed.volumes)
      && (reply.value.action.Skip? <==> mode == MODE_SKIP && name in probed.volumes)
      && (reply.value.action.Reuse? <==> mode == MODE_UPDATE && name in probed.volumes)
      && reply.value.handedOn == name
      && Later(s, probed) && Later(s, after)
    // under any interference, what Create and Overwrite hand on was made by this very call
    ensures reply.Ok? && (reply.value.action.Create? || reply.value.action.Overwrite?) ==>
      MadeSince(s, after, name)
    ensures reply.Ok? && (reply.value.action.Skip? || reply.value.action.Reuse?) ==> after == probed
    ensures Quiet(env) ==> probed.volumes == s.volumes
    // nothing but a fault, a cancellation, another client or an unknown mode makes it fail
    ensures Obedient(env) && Quiet(env) && Uncancelled(ctxs) && MODE_SKIP <= mode <= MODE_OVERWRITE ==> reply.Ok?
    ensures Quiet(env) && reply.Ok? && (reply.value.action.Create? || reply.value.action.Overwrite?) ==>
      after.volumes - {name} == s.volumes - {name}
  {
    var exists_, at, _ := VolumeSetup.VolumeExists(env, ctxs.probe, s, name);
    probed := at;
    if exists_.Error? {
      return Error("check volume existence: " + exists_.text), at, at;
    }
    var plan := PlanVolumeSetup(mode, exists_.value);
    if plan.None? {
      return Error("volume setup plan: unknown volume mode"), at, at;
    }
    match plan.value {
      case Skip =>
        return Ok(Setup(Skip, name)), at, at;
      case Reuse =>
        return Ok(Setup(Reuse, name)), at, at;
      case Create =>
        CreatedItsOwn(env, s, at, name);
        var (t, created) := CreateFnOf(env, name)(at);
        after := t;
        reply := if created.Ok? then Ok(Setup(Create, name)) else Error("volume setup: " + created.text);
      case Overwrite =>
        var created, t := Recreate(env, ctxs, at, name);
        after := t;
        LaterIsTransitive(s, at, t);
        if created.Ok? {
          MadeSinceEarlier(s, at, t, name);
          reply := Ok(Setup(Overwrite, name));
        } else {
          reply := Error("volume setup: " + created.text);
        }
    }
  }

  // Unpacking entries into a volume, one after the other.
  function Extract(files: Files, entries: seq<TarStream.Entry>): Files
    decreases |entries|
  {
    if entries == [] then files
    else
      var e := entries[0];
      Extract(files[e.name := Node(e.kind, e.body)], entries[1..])
  }

  // The host tree as a map from path to content.
  function HostTree(walk: seq<TarStream.Visit>): Files {
    Extract(map[], TarStream.EntriesOf(walk))
  }

  // Unpacking overrides the old content path by path and keeps the rest.
  lemma {:induction false} ExtractOverrides(files: Files, entries: seq<TarStream.Entry>)
    ensures Extract(files, entries) == files + Extract(map[], entries)
    decreases |entries|
  {
    if entries != [] {
      var e := entries[0];
      var one := map[e.name := Node(e.kind, e.body)];
      ExtractOverrides(files[e.name := Node(e.kind, e.body)], entries[1..]);
      ExtractOverrides(one, entries[1..]);
      assert map[][e.name := Node(e.kind, e.body)] == one;
      assert files + one == files[e.name := Node(e.kind, e.body)];
      assert files + one + Extract(map[], entries[1..]) == files + (one + Extract(map[], entries[1..]));
    }
  }

  lemma ExtractFirst(entries: seq<TarStream.Entry>)
    requires entries != []
    ensures var e := entries[0];
      Extract(map[], entries) == map[e.name := Node(e.kind, e.body)] + Extract(map[], entries[1..])
  {
    var e := entries[0];
    var one := map[e.name := Node(e.kind, e.body)];
    assert map[][e.name := Node(e.kind, e.body)] == one;
    ExtractOverrides(one, entries[1..]);
  }

  // The unpacked tree has exactly the paths of the entries.
  lemma {:induction false} ExtractHasExactlyThePaths(entries: seq<TarStream.Entry>, path: string)
    ensures path in Extract(map[], entries) <==> exists i :: 0 <= i < |entries| && entries[i].name == path
    decreases |entries|
  {
    if entries != [] {
      var rest := entries[1..];
      ExtractFirst(entries);
      ExtractHasExactlyThePaths(rest, path);
      if i :| 0 <= i < |rest| && rest[i].name == path {
        assert entries[i + 1].name == path;
      }
    }
  }

  // Under a path stands the last entry written for it.
  lemma {:induction false} ExtractHoldsTheLastEntry(entries: seq<TarStream.Entry>, i: nat)
    requires i < |entries|
    requires forall j :: i < j < |entries| ==> entries[j].name != entries[i].name
    ensures entries[i].name in Extract(map[], entries)
    ensures Extract(map[], entries)[entries[i].name] == Node(entries[i].kind, entries[i].body)
    decreases |entries|
  {
    var rest := entries[1..];
    ExtractFirst(entries);
    if i == 0 {
      ExtractHasExactlyThePaths(rest, entries[0].name);
    } else {
      ExtractHoldsTheLastEntry(rest, i - 1);
    }
  }

  // The temporary container mounts the volume, which Podman creates if it went missing, and
  // unpacks what the copy delivered.
  function Unpack(s: Server, name: string, entries: seq<TarStream.Entry>): Server {
    var mounted := if name in s.volumes then s else Make(s, name);
    var v := mounted.volumes[name];
    mounted.(volumes := mounted.volumes[name := v.(files := Extract(v.files, entries))])
  }

  // What a mode promises for the content of the volume, given its content before, if any.
  function Promised(mode: int, old_: Option<Files>, host: Files): Files {
    if mode == MODE_OVERWRITE || old_.None? then host
    else if mode == MODE_SKIP then old_.value
    else old_.value + host
  }

  function ContentOf(s: Server, name: string): Option<Files> {
    if name in s.volumes then Some(s.volumes[name].files) else None
  }

  datatype WriteError = HostUnusable | SetupFailed(text: string) | ContainerFailed | CopyFailed

  // The whole call. host is None when the directory cannot be used; requests are those for the
  // temporary container, and pipe is the final state of any run of the producer, the pipe and
  // the consumer on this walk.
  method WriteFolderToVolume(env: Environment, ctxs: VolumeSetup.Contexts, s: Server, name: string,
                             host: Option<seq<TarStream.Visit>>, mode: int, requests: Requests, pipe: TarPipe.State)
    returns (err: Option<WriteError>, after: Server, action: Option<SetupAction>, temp: Temp)
    requires host.Some? ==> TarPipe.Reachable(host.value, pipe) && pipe.main.Returned?
    ensures err.None? ==> host.Some? && action.Some? && MODE_SKIP <= mode <= MODE_OVERWRITE
    // which step an error comes from
    ensures err == Some(HostUnusable) <==> host.None?
    ensures err.Some? && err.value.SetupFailed? ==> action.None? && temp == Absent
    ensures err == Some(ContainerFailed) ==>
      action.Some? && !(Succeeds(requests.image) && Succeeds(requests.create) && Succeeds(requests.start))
    ensures (err == Some(CopyFailed) || err.None?) && action != Some(Skip) ==>
      Succeeds(requests.image) && Succeeds(requests.create) && Succeeds(requests.start)
    ensures err == Some(CopyFailed) ==> pipe.main.result.Some?
    // Without interference a nil result gives exactly the promised content and leaves every
    // other volume alone, provided that a clean end of stream can be trusted.
    ensures Quiet(env) && err.None? && (action == Some(Skip) || !TarPipe.Misleads(host.value)) ==>
      && ContentOf(after, name) == Some(Promised(mode, ContentOf(s, name), HostTree(host.value)))
      && after.volumes - {name} == s.volumes - {name}
    ensures err.None? && action != Some(Skip) ==> pipe.main.result.None? && pipe.producer.Ended?
    // With an obedient server only a failing copy makes it fail.
    ensures Quiet(env) && Obedient(env) && Uncancelled(ctxs) && MODE_SKIP <= mode <= MODE_OVERWRITE && host.Some?
      && Succeeds(requests.image) && Succeeds(requests.create) && Succeeds(requests.start) && pipe.main.result.None?
      ==> err.None?
    // After a nil result the temporary container is gone exactly if the cleanup requests got
    // through; after a failed copy it is always left running, because the cleanup is cancelled too.
    ensures err.None? && action == Some(Skip) ==> temp == Absent
    ensures err.None? && action != Some(Skip) ==>
      (temp == Absent <==> Reaches(requests.stop) && Reaches(requests.remove))
    ensures err == Some(CopyFailed) ==> temp == Running
  {
    action, temp := None, Absent;
    if host.None? {
      return Some(HostUnusable), s, action, temp;
    }
    var setup, at, probed := SetUpVolume(env, ctxs, s, name, mode);
    if setup.Error? {
      return Some(SetupFailed(setup.text)), at, action, temp;
    }
    action := Some(setup.value.action);
    if setup.value.action.Skip? {
      return None, at, action, temp;
    }
    var started, t := StartVolumeContainer(requests);
    temp := t;
    if !started {
      return Some(ContainerFailed), at, action, temp;
    }
    after := Unpack(at, setup.value.handedOn, TarStream.EntriesRead(pipe.received));
    if pipe.main.result.Some? {
      // cancel() runs before the deferred cleanup
      temp := Cleanup(temp, requests.stop.(cancelled := true), requests.remove.(cancelled := true));
      return Some(CopyFailed), after, action, temp;
    }
    err := None;
    temp := Cleanup(temp, requests.stop, requests.remove);
    TarPipe.NilResultMeansDrained(host.value, pipe);
    if !TarPipe.Misleads(host.value) {
      TarPipe.CleanEndProvesCompleteArchive(host.value);
      assert TarPipe.CompleteArchive(host.value, pipe);
      if name in at.volumes {
        UnpackedContent(at, name, host.value);
      }
    }
  }

  lemma UnpackedContent(at: Server, name: string, walk: seq<TarStream.Visit>)
    requires name in at.volumes
    ensures var after := Unpack(at, name, TarStream.EntriesOf(walk));
      && ContentOf(after, name) == Some(at.volumes[name].files + HostTree(walk))
      && (at.volumes[name].files == map[] ==> ContentOf(after, name) == Some(HostTree(walk)))
      && after.volumes - {name} == at.volumes - {name}
  {
    ExtractOverrides(at.volumes[name].files, TarStream.EntriesOf(walk));
    assert map[] + HostTree(walk) == HostTree(walk);
  }
}
