// The temporary container that mounts the volume (volume_runtime.go:96-124) and its deferred
// cleanup, whose requests are made under the caller's context (volume_runtime.go:107).
module TemporaryContainer {
  import opened VolumeServer

  datatype Temp = Absent | Stopped | Running

  // A request under a cancelled context never reaches the server.
  datatype Request = Request(fate: Fate, cancelled: bool)
  datatype Requests = Requests(image: Request, create: Request, start: Request, stop: Request, remove: Request)

  predicate Reaches(q: Request) {
    !q.cancelled && !q.fate.Refuses?
  }

  predicate Succeeds(q: Request) {
    !q.cancelled && q.fate.Obeys?
  }

  // cleanup: stop, then an unforced remove, which a running container refuses.
  method Cleanup(t: Temp, stop: Request, remove: Request) returns (after: Temp)
    ensures after == Absent <==> t == Absent || ((t == Stopped || Reaches(stop)) && Reaches(remove))
    ensures t == Running && stop.cancelled && remove.cancelled ==> after == Running
  {
    after := t;
    if after == Running && Reaches(stop) {
      after := Stopped;
    }
    if after == Stopped && Reaches(remove) {
      after := Absent;
    }
  }

  // startVolumeContainer: what is left behind when it fails.
  method StartVolumeContainer(r: Requests) returns (ok: bool, t: Temp)
    ensures ok <==> Succeeds(r.image) && Succeeds(r.create) && Succeeds(r.start)
    ensures ok ==> t == Running
    // a failed start leaves nothing exactly if the create had no effect, or its reply arrived
    // and the cleanup worked
    ensures !ok ==> (t == Absent <==>
      || !Succeeds(r.image) || !Reaches(r.create)
      || (Succeeds(r.create) && (!Reaches(r.start) || Reaches(r.stop)) && Reaches(r.remove)))
  {
    if !Succeeds(r.image) {
      return false, Absent;
    }
    if !Succeeds(r.create) {
      return false, if Reaches(r.create) then Stopped else Absent;
    }
    t := if Reaches(r.start) then Running else Stopped;
    if !Succeeds(r.start) {
      t := Cleanup(t, r.stop, r.remove);
      return false, t;
    }
    ok := true;
  }
}
