// The file replacement in GenerateExecutor (executor.go:99-143): write a temporary file, sync
// it, compare it with the existing one and rename it over it. Every step may fail, and the
// machine may crash between any two steps.
module ExecutorFile {
  import opened Strings
  import opened FileCompare

  // synced: the data has reached the disk.
  datatype Inode = Inode(data: string, synced: bool, executable: bool)

  type Directory = map<string, nat>

  // dirs are the directory versions that a crash may leave: no directory is ever synced, so
  // every version since the last settled one is possible.
  datatype Disk = Disk(inodes: map<nat, Inode>, next: nat, dir: Directory, dirs: seq<Directory>)

  ghost predicate WellFormed(d: Disk) {
    && d.dir in d.dirs
    && (forall i <- d.inodes :: i < d.next)
    && (forall v <- d.dirs :: forall p <- v :: v[p] in d.inodes)
    && (forall v <- d.dirs :: forall p, q :: p in v && q in v && v[p] == v[q] ==> p == q)
  }

  function ContentOf(d: Disk, path: string): Option<string> {
    if path in d.dir && d.dir[path] in d.inodes then Some(d.inodes[d.dir[path]].data) else None
  }

  predicate IsExecutable(d: Disk, path: string) {
    path in d.dir && d.dir[path] in d.inodes && d.inodes[d.dir[path]].executable
  }

  // Whatever directory version a crash leaves, the path is complete with one of the allowed
  // contents (None: it does not exist).
  ghost predicate SurvivesCrash(d: Disk, path: string, allowed: set<Option<string>>) {
    forall v <- d.dirs ::
      if path !in v then None in allowed
      else v[path] in d.inodes && d.inodes[v[path]].synced && Some(d.inodes[v[path]].data) in allowed
  }

  // What the code asks of the file system, in its own order.
  datatype Operation =
    | MakesDir | Creates(path: string) | Writes(path: string) | Syncs(path: string) | Closes(path: string)
    | Stats(path: string) | Compares(path: string) | Removes(path: string)
    | Renames(from: string, to: string) | MakesExecutable(path: string) | Opens(path: string)

  // The operations that follow each other from before to after are a beginning of the script, or
  // all of it.
  ghost predicate Began(before: seq<Operation>, after: seq<Operation>, script: seq<Operation>, complete: bool) {
    && before <= after <= before + script
    && (complete ==> after == before + script)
  }

  lemma BeganThen(a: seq<Operation>, b: seq<Operation>, c: seq<Operation>, first: seq<Operation>,
                  second: seq<Operation>, complete: bool)
    requires Began(a, b, first, true) && Began(b, c, second, complete)
    ensures Began(a, c, first + second, complete)
  {
    assert a + (first + second) == a + first + second;
  }

  lemma BeganOnly(a: seq<Operation>, b: seq<Operation>, first: seq<Operation>, second: seq<Operation>)
    requires Began(a, b, first, false)
    ensures Began(a, b, first + second, false)
  {
    assert a + (first + second) == a + first + second;
  }

  function Fault(ok: bool): nat {
    if ok then 0 else 1
  }

  class FileSystem {
    var disk: Disk
    // every state the disk went through, the operations in order, the renames done and the
    // number of operations that failed
    ghost var history: seq<Disk>
    ghost var operations: seq<Operation>
    ghost var renames: nat
    ghost var faults: nat

    constructor (disk: Disk)
      ensures this.disk == disk && history == [disk] && operations == [] && renames == 0 && faults == 0
    {
      this.disk := disk;
      history, operations, renames, faults := [disk], [], 0, 0;
    }

    // An operation that does not change the disk's names or data: stat, close, open.
    method Attempt(ghost operation: Operation) returns (ok: bool)
      modifies this`faults, this`operations
      ensures faults == old(faults) + Fault(ok) && operations == old(operations) + [operation]
    {
      ok := *;
      faults, operations := faults + Fault(ok), operations + [operation];
    }

    // os.Create: truncates an existing file, else makes a new one.
    method Create(path: string) returns (ok: bool)
      modifies this
      ensures disk == if ok then Created(old(disk), path) else old(disk)
      ensures history == old(history) + [disk] && renames == old(renames) && faults == old(faults) + Fault(ok)
      ensures operations == old(operations) + [Creates(path)]
    {
      ok := *;
      if ok {
        disk := Created(disk, path);
      }
      history, operations, faults := history + [disk], operations + [Creates(path)], faults + Fault(ok);
    }

    // Appending to an open file; a failing write may leave a part behind.
    method Write(path: string, text: string) returns (ok: bool)
      requires path in disk.dir && disk.dir[path] in disk.inodes
      modifies this
      ensures exists n :: 0 <= n <= |text| && disk == Wrote(old(disk), path, text[..n]) && (ok ==> n == |text|)
      ensures history == old(history) + [disk] && renames == old(renames) && faults == old(faults) + Fault(ok)
      ensures operations == old(operations) + [Writes(path)]
    {
      var n: nat :| n <= |text|;
      ok := n == |text|;
      disk := Wrote(disk, path, text[..n]);
      history, operations, faults := history + [disk], operations + [Writes(path)], faults + Fault(ok);
    }

    method Sync(path: string) returns (ok: bool)
      requires path in disk.dir && disk.dir[path] in disk.inodes
      modifies this
      ensures disk == if ok then Synced(old(disk), path) else old(disk)
      ensures history == old(history) + [disk] && renames == old(renames) && faults == old(faults) + Fault(ok)
      ensures operations == old(operations) + [Syncs(path)]
    {
      ok := *;
      if ok {
        disk := Synced(disk, path);
      }
      history, operations, faults := history + [disk], operations + [Syncs(path)], faults + Fault(ok);
    }

    // os.Chmod with mode 0755
    method MakeExecutable(path: string) returns (ok: bool)
      requires path in disk.dir && disk.dir[path] in disk.inodes
      modifies this
      ensures disk == if ok then MadeExecutable(old(disk), path) else old(disk)
      ensures history == old(history) + [disk] && renames == old(renames) && faults == old(faults) + Fault(ok)
      ensures operations == old(operations) + [MakesExecutable(path)]
    {
      ok := *;
      if ok {
        disk := MadeExecutable(disk, path);
      }
      history, operations, faults := history + [disk], operations + [MakesExecutable(path)], faults + Fault(ok);
    }

    method Remove(path: string) returns (ok: bool)
      modifies this
      ensures disk == if ok then Removed(old(disk), path) else old(disk)
      ensures history == old(history) + [disk] && renames == old(renames) && faults == old(faults) + Fault(ok)
      ensures operations == old(operations) + [Removes(path)]
    {
      ok := *;
      if ok {
        disk := Removed(disk, path);
      }
      history, operations, faults := history + [disk], operations + [Removes(path)], faults + Fault(ok);
    }

    method Rename(from: string, to: string) returns (ok: bool)
      requires from in disk.dir
      modifies this
      ensures disk == if ok then Renamed(old(disk), from, to) else old(disk)
      ensures history == old(history) + [disk]
      ensures renames == old(renames) + 1 - Fault(ok) && faults == old(faults) + Fault(ok)
      ensures operations == old(operations) + [Renames(from, to)]
    {
      ok := *;
      if ok {
        disk := Renamed(disk, from, to);
        renames := renames + 1;
      }
      history, operations, faults := history + [disk], operations + [Renames(from, to)], faults + Fault(ok);
    }
  }

  // Truncating keeps the mode of an existing file; a new one is not executable.
  function Created(d: Disk, path: string): Disk {
    if path in d.dir then d.(inodes := d.inodes[d.dir[path] := Inode("", false, IsExecutable(d, path))])
    else
      var dir := d.dir[path := d.next];
      Disk(d.inodes[d.next := Inode("", false, false)], d.next + 1, dir, d.dirs + [dir])
  }

  function Wrote(d: Disk, path: string, text: string): Disk
    requires path in d.dir && d.dir[path] in d.inodes
  {
    var inode := d.dir[path];
    d.(inodes := d.inodes[inode := d.inodes[inode].(data := d.inodes[inode].data + text, synced := false)])
  }

  function Synced(d: Disk, path: string): Disk
    requires path in d.dir && d.dir[path] in d.inodes
  {
    var inode := d.dir[path];
    d.(inodes := d.inodes[inode := d.inodes[inode].(synced := true)])
  }

  function MadeExecutable(d: Disk, path: string): Disk
    requires path in d.dir && d.dir[path] in d.inodes
  {
    var inode := d.dir[path];
    d.(inodes := d.inodes[inode := d.inodes[inode].(executable := true)])
  }

  function Removed(d: Disk, path: string): Disk {
    var dir := d.dir - {path};
    d.(dir := dir, dirs := d.dirs + [dir])
  }

  function Renamed(d: Disk, from: string, to: string): Disk
    requires from in d.dir
  {
    var dir := (d.dir - {from})[to := d.dir[from]];
    d.(dir := dir, dirs := d.dirs + [dir])
  }

  // --- Replacing the executor ----------------------------------------------------------------

  // The file under this path has the same content and mode, or is absent from both.
  ghost predicate SameFile(d: Disk, e: Disk, path: string) {
    && (path in d.dir <==> path in e.dir)
    && ContentOf(e, path) == ContentOf(d, path)
    && (IsExecutable(e, path) <==> IsExecutable(d, path))
  }

  // While the temporary file is being prepared no directory version shows it as the executor.
  ghost predicate Apart(d: Disk, path: string, tmp: string) {
    && path != tmp && tmp in d.dir && d.dir[tmp] in d.inodes
    && (forall v <- d.dirs :: path in v ==> v[path] != d.dir[tmp])
  }

  // All other files are as they were.
  ghost predicate OthersKept(d: Disk, e: Disk, path: string, tmp: string) {
    forall p: string :: p != path && p != tmp ==> SameFile(d, e, p)
  }

  lemma OthersKeptTwice(d: Disk, e: Disk, f: Disk, path: string, tmp: string)
    requires OthersKept(d, e, path, tmp) && OthersKept(e, f, path, tmp)
    ensures OthersKept(d, f, path, tmp)
  {
    forall p: string | p != path && p != tmp
      ensures SameFile(d, f, p)
    {
      assert SameFile(d, e, p) && SameFile(e, f, p);
    }
  }

  // The disk before the call: whole files, and the temporary name is not the executor itself.
  ghost predicate Ready(d: Disk, path: string, tmp: string, allowed: set<Option<string>>) {
    && WellFormed(d) && SurvivesCrash(d, path, allowed) && path != tmp
    && (tmp in d.dir ==> forall v <- d.dirs :: path in v ==> v[path] != d.dir[tmp])
  }

  // The temporary file holds this data, and nothing else has changed since d.
  ghost predicate Preparing(d: Disk, e: Disk, path: string, tmp: string, allowed: set<Option<string>>, data: string) {
    && WellFormed(e) && SurvivesCrash(e, path, allowed) && Apart(e, path, tmp)
    && e.inodes[e.dir[tmp]].data == data
    && SameFile(d, e, path) && OthersKept(d, e, path, tmp)
  }

  lemma CreatingPrepares(d: Disk, path: string, tmp: string, allowed: set<Option<string>>)
    requires Ready(d, path, tmp, allowed)
    ensures Preparing(d, Created(d, tmp), path, tmp, allowed, "")
  {
  }

  // The inode that no version shows as the executor may be overwritten freely.
  lemma ChangingPrepares(d: Disk, e: Disk, path: string, tmp: string, allowed: set<Option<string>>, data: string,
                         content: Inode)
    requires Preparing(d, e, path, tmp, allowed, data)
    ensures Preparing(d, e.(inodes := e.inodes[e.dir[tmp] := content]), path, tmp, allowed, content.data)
  {
    var f := e.(inodes := e.inodes[e.dir[tmp] := content]);
    forall p: string | p != path && p != tmp
      ensures SameFile(d, f, p)
    {
      assert SameFile(d, e, p);
    }
  }

  lemma WritingPrepares(d: Disk, e: Disk, path: string, tmp: string, allowed: set<Option<string>>, text: string)
    requires Preparing(d, e, path, tmp, allowed, "")
    ensures Preparing(d, Wrote(e, tmp, text), path, tmp, allowed, text)
  {
    var content := e.inodes[e.dir[tmp]].(data := "" + text, synced := false);
    ChangingPrepares(d, e, path, tmp, allowed, "", content);
    assert "" + text == text;
  }

  lemma SyncingPrepares(d: Disk, e: Disk, path: string, tmp: string, allowed: set<Option<string>>, data: string)
    requires Preparing(d, e, path, tmp, allowed, data)
    ensures Preparing(d, Synced(e, tmp), path, tmp, allowed, data)
  {
    ChangingPrepares(d, e, path, tmp, allowed, data, e.inodes[e.dir[tmp]].(synced := true));
  }

  lemma RemovingTheTemporary(d: Disk, path: string, tmp: string, allowed: set<Option<string>>)
    requires Ready(d, path, tmp, allowed)
    ensures var e := Removed(d, tmp);
      Ready(e, path, tmp, allowed) && SameFile(d, e, path) && OthersKept(d, e, path, tmp)
  {
  }

  lemma RenamingTheTemporary(d: Disk, path: string, tmp: string, allowed: set<Option<string>>)
    requires WellFormed(d) && SurvivesCrash(d, path, allowed) && Apart(d, path, tmp)
    requires d.inodes[d.dir[tmp]].synced
    ensures var e := Renamed(d, tmp, path);
      && WellFormed(e) && SurvivesCrash(e, path, allowed + {ContentOf(d, tmp)})
      && ContentOf(e, path) == ContentOf(d, tmp) && tmp !in e.dir && path in e.dir
      && OthersKept(d, e, path, tmp)
      && (IsExecutable(e, path) <==> IsExecutable(d, tmp))
  {
  }

  lemma MakingItExecutable(d: Disk, path: string, tmp: string, allowed: set<Option<string>>)
    requires WellFormed(d) && SurvivesCrash(d, path, allowed) && path in d.dir && tmp !in d.dir
    ensures var e := MadeExecutable(d, path);
      && WellFormed(e) && SurvivesCrash(e, path, allowed) && OthersKept(d, e, path, tmp)
      && ContentOf(e, path) == ContentOf(d, path) && IsExecutable(e, path)
  {
  }

  // The sync is what makes the rename safe: exactly then every directory version that a crash may
  // leave still shows a complete executor, and without it no set of contents is kept.
  lemma RenameNeedsTheSync(d: Disk, path: string, tmp: string, allowed: set<Option<string>>)
    requires WellFormed(d) && Apart(d, path, tmp)
    ensures !d.inodes[d.dir[tmp]].synced ==> !SurvivesCrash(Renamed(d, tmp, path), path, allowed)
    ensures SurvivesCrash(d, path, allowed) ==>
      (SurvivesCrash(Renamed(d, tmp, path), path, allowed + {ContentOf(d, tmp)}) <==> d.inodes[d.dir[tmp]].synced)
  {
    var e := Renamed(d, tmp, path);
    assert e.dir in e.dirs && path in e.dir;
    if d.inodes[d.dir[tmp]].synced && SurvivesCrash(d, path, allowed) {
      RenamingTheTemporary(d, path, tmp, allowed);
    }
  }

  // compareFiles on two regular files decides equality of their contents; None is an error.
  method CompareContents(fs: FileSystem, ghost path: string, a: string, b: string) returns (same: Option<bool>)
    modifies fs`faults, fs`operations
    ensures same.Some? ==> (same.value <==> a == b)
    ensures fs.faults == old(fs.faults) + Fault(same.Some?)
    ensures fs.operations == old(fs.operations) + [Compares(path)]
  {
    FilesAreFillingReaders(a);
    FilesAreFillingReaders(b);
    FillingReadersDecideEquality(FileReader(a), FileReader(b), a, b);
    var f1: File? := null;
    var ok := fs.Attempt(Compares(path));   // opening both files and their status
    if ok {
      f1 := new File(Some(|a|), FileReader(a), a);
    }
    var f2 := new File(Some(|b|), FileReader(b), b);
    var result := CompareFiles(f1, f2);
    same := if result.Failed? then None else Some(result.Same?);
  }

  datatype Generated =
    | Errored           // an error, no handle
    | Unchanged         // the path, no handle
    | Replaced          // the path and an open handle

  // Every state that the disk went through since a point is safe.
  ghost predicate SafeSince(history: seq<Disk>, from: nat, path: string, allowed: set<Option<string>>) {
    forall k :: from <= k < |history| ==> SurvivesCrash(history[k], path, allowed)
  }

  // Writing and syncing the temporary file (executor.go:91-103).
  method Fill(fs: FileSystem, ghost d: Disk, path: string, tmp: string, content: string,
              ghost allowed: set<Option<string>>)
    returns (ok: bool)
    requires Preparing(d, fs.disk, path, tmp, allowed, "")
    modifies fs
    ensures old(fs.history) <= fs.history && SafeSince(fs.history, |old(fs.history)|, path, allowed)
    ensures fs.renames == old(fs.renames)
    ensures old(fs.faults) <= fs.faults && (ok <==> fs.faults == old(fs.faults))
    ensures Began(old(fs.operations), fs.operations, [Writes(tmp), Syncs(tmp)], ok)
    ensures exists data :: Preparing(d, fs.disk, path, tmp, allowed, data) && (ok ==> data == content)
    ensures ok ==> fs.disk.inodes[fs.disk.dir[tmp]].synced
  {
    ghost var created := fs.disk;
    ok := fs.Write(tmp, content);
    ghost var n :| 0 <= n <= |content| && fs.disk == Wrote(created, tmp, content[..n]) && (ok ==> n == |content|);
    WritingPrepares(d, created, path, tmp, allowed, content[..n]);
    if !ok {
      return;
    }
    assert content[..n] == content;
    ghost var written := fs.disk;
    ok := fs.Sync(tmp);
    SyncingPrepares(d, written, path, tmp, allowed, content);
  }

  // A new temporary file reaches the disk before it is closed.
  function Preparation(tmp: string): seq<Operation> {
    [Creates(tmp), Writes(tmp), Syncs(tmp), Closes(tmp)]
  }

  // Creating, writing and syncing the temporary file (executor.go:32-106).
  method PrepareTemporary(fs: FileSystem, path: string, tmp: string, content: string,
                          ghost allowed: set<Option<string>>)
    returns (ok: bool)
    requires Ready(fs.disk, path, tmp, allowed)
    modifies fs
    ensures old(fs.history) <= fs.history && SafeSince(fs.history, |old(fs.history)|, path, allowed)
    ensures fs.renames == old(fs.renames) && SameFile(old(fs.disk), fs.disk, path)
    ensures Ready(fs.disk, path, tmp, allowed)
    ensures OthersKept(old(fs.disk), fs.disk, path, tmp)
    ensures old(fs.faults) <= fs.faults && (ok <==> fs.faults == old(fs.faults))
    ensures Began(old(fs.operations), fs.operations, Preparation(tmp), ok)
    ensures ok ==>
      && Apart(fs.disk, path, tmp)
      && fs.disk.inodes[fs.disk.dir[tmp]].data == content && fs.disk.inodes[fs.disk.dir[tmp]].synced
  {
    ghost var d := fs.disk;
    ok := fs.Create(tmp);
    if !ok {
      return;
    }
    ghost var created := fs.disk;
    CreatingPrepares(d, path, tmp, allowed);
    ok := Fill(fs, d, path, tmp, content, allowed);
    if !ok {
      return;
    }
    ok := fs.Attempt(Closes(tmp));
  }

  // The comparison with what is at the executor's path.
  function Comparing(path: string, current: Option<string>): seq<Operation> {
    [Stats(path)] + if current.Some? then [Compares(path)] else []
  }

  // Whether the executor exists with this content (executor.go:108-117); None is an error.
  method HasContent(fs: FileSystem, path: string, content: string) returns (same: Option<bool>)
    modifies fs`faults, fs`operations
    ensures Began(old(fs.operations), fs.operations, Comparing(path, ContentOf(fs.disk, path)), same.Some?)
    ensures same.Some? ==> (same.value <==> ContentOf(fs.disk, path) == Some(content))
    ensures fs.faults == old(fs.faults) + Fault(same.Some?)
  {
    var ok := fs.Attempt(Stats(path));
    if !ok {
      return None;
    }
    var current := ContentOf(fs.disk, path);
    if current.None? {
      return Some(false);
    }
    same := CompareContents(fs, path, current.value, content);
  }

  // Renaming the temporary file, then the chmod and reopening (executor.go:126-141).
  method RenameIntoPlace(fs: FileSystem, path: string, tmp: string, ghost allowed: set<Option<string>>)
    returns (ok: bool)
    requires Ready(fs.disk, path, tmp, allowed) && Apart(fs.disk, path, tmp)
    requires fs.disk.inodes[fs.disk.dir[tmp]].synced && ContentOf(fs.disk, tmp) in allowed
    modifies fs
    ensures old(fs.history) <= fs.history && SafeSince(fs.history, |old(fs.history)|, path, allowed)
    ensures Ready(fs.disk, path, tmp, allowed)
    ensures OthersKept(old(fs.disk), fs.disk, path, tmp)
    ensures old(fs.faults) <= fs.faults && (ok <==> fs.faults == old(fs.faults))
    ensures old(fs.renames) <= fs.renames <= old(fs.renames) + 1
    ensures if fs.renames == old(fs.renames) then !ok && fs.disk == old(fs.disk)
            else tmp !in fs.disk.dir && ContentOf(fs.disk, path) == old(ContentOf(fs.disk, tmp))
    ensures ok ==> IsExecutable(fs.disk, path)
    ensures Began(old(fs.operations), fs.operations, [Renames(tmp, path), MakesExecutable(path), Opens(path)], ok)
  {
    RenamingTheTemporary(fs.disk, path, tmp, allowed);
    assert allowed + {ContentOf(fs.disk, tmp)} == allowed;
    ok := fs.Rename(tmp, path);
    if !ok {
      return;
    }
    MakingItExecutable(fs.disk, path, tmp, allowed);
    ok := fs.MakeExecutable(path);
    if !ok {
      return;
    }
    ok := fs.Attempt(Opens(path));
  }

  function Placing(same: bool, path: string, tmp: string): seq<Operation> {
    if same then [Removes(tmp)] else [Renames(tmp, path), MakesExecutable(path), Opens(path)]
  }

  function Installation(d: Disk, path: string, tmp: string, content: string): seq<Operation> {
    Comparing(path, ContentOf(d, path)) + Placing(ContentOf(d, path) == Some(content), path, tmp)
  }

  // Comparing with the existing file and renaming over it (executor.go:108-143).
  method InstallTemporary(fs: FileSystem, path: string, tmp: string, content: string,
                          ghost allowed: set<Option<string>>)
    returns (result: Generated)
    requires Ready(fs.disk, path, tmp, allowed) && Apart(fs.disk, path, tmp) && Some(content) in allowed
    requires fs.disk.inodes[fs.disk.dir[tmp]].data == content && fs.disk.inodes[fs.disk.dir[tmp]].synced
    modifies fs
    ensures old(fs.history) <= fs.history && SafeSince(fs.history, |old(fs.history)|, path, allowed)
    ensures Ready(fs.disk, path, tmp, allowed)
    ensures OthersKept(old(fs.disk), fs.disk, path, tmp)
    ensures Installed(old(fs.disk), fs.disk, path, tmp, content, result,
                      fs.renames - old(fs.renames), fs.faults - old(fs.faults))
    ensures Began(old(fs.operations), fs.operations, Installation(old(fs.disk), path, tmp, content), !result.Errored?)
  {
    ghost var start, comparing := fs.operations, Comparing(path, ContentOf(fs.disk, path));
    ghost var placing := Placing(ContentOf(fs.disk, path) == Some(content), path, tmp);
    var same := HasContent(fs, path, content);
    ghost var compared := fs.operations;
    if same.None? {
      BeganOnly(start, compared, comparing, placing);
      return Errored;
    }
    if same.value {
      RemovingTheTemporary(fs.disk, path, tmp, allowed);
      var _ := fs.Remove(tmp);   // a failure is only logged
      BeganThen(start, compared, fs.operations, comparing, placing, true);
      return Unchanged;
    }
    var ok := RenameIntoPlace(fs, path, tmp, allowed);
    BeganThen(start, compared, fs.operations, comparing, placing, ok);
    result := if ok then Replaced else Errored;
  }

  // What a call did, from the disk before it to the disk after it.
  ghost predicate Installed(d: Disk, e: Disk, path: string, tmp: string, content: string,
                            result: Generated, renamed: int, failed: int)
  {
    && 0 <= renamed <= 1 && failed >= 0
    // without a fault it succeeds, and the temporary file is gone
    && (failed == 0 ==> !result.Errored? && tmp !in e.dir)
    // a successful return leaves exactly the new script
    && (!result.Errored? ==> ContentOf(e, path) == Some(content))
    // no rename and no handle exactly when the script was there already
    && (result.Unchanged? ==> ContentOf(d, path) == Some(content) && renamed == 0)
    && (result.Replaced? ==> ContentOf(d, path) != Some(content) && renamed == 1)
    && (ContentOf(d, path) == Some(content) ==> renamed == 0)
    // an error leaves the old script, unless the rename was done
    && ContentOf(e, path) == (if renamed == 0 then ContentOf(d, path) else Some(content))
    && (renamed == 0 ==> (IsExecutable(e, path) <==> IsExecutable(d, path)))
    // a successful return leaves an executable file exactly if the script was new or the file
    // was executable before
    && (!result.Errored? ==>
          (IsExecutable(e, path) <==> ContentOf(d, path) != Some(content) || IsExecutable(d, path)))
  }

  // The disk when the chmod after a first rename fails, or when the machine crashes before it.
  function BeforeChmod(d: Disk, path: string, tmp: string, content: string): Disk
    requires tmp !in d.dir
  {
    Renamed(Synced(Wrote(Created(d, tmp), tmp, content), tmp), tmp, path)
  }

  // Such a script is complete but not executable, and no later call with the same arguments
  // makes it so: each one that succeeds finds it unchanged and leaves its mode.
  lemma FailedChmodIsNeverMadeUpFor(d: Disk, path: string, tmp: string, content: string,
                                    allowed: set<Option<string>>, e: Disk, result: Generated,
                                    renamed: int, failed: int)
    requires Ready(d, path, tmp, allowed) && tmp !in d.dir && Some(content) in allowed
    requires Installed(BeforeChmod(d, path, tmp, content), e, path, tmp, content, result, renamed, failed)
    ensures var s := BeforeChmod(d, path, tmp, content);
      Ready(s, path, tmp, allowed) && ContentOf(s, path) == Some(content) && !IsExecutable(s, path)
    ensures failed == 0 ==> result.Unchanged?
    ensures ContentOf(e, path) == Some(content) && !IsExecutable(e, path)
  {
    var created := Created(d, tmp);
    CreatingPrepares(d, path, tmp, allowed);
    var written := Wrote(created, tmp, content);
    WritingPrepares(d, created, path, tmp, allowed, content);
    SyncingPrepares(d, written, path, tmp, allowed, content);
    var synced := Synced(written, tmp);
    RenamingTheTemporary(synced, path, tmp, allowed);
    assert !IsExecutable(created, tmp) && !IsExecutable(written, tmp) && !IsExecutable(synced, tmp);
    assert allowed + {ContentOf(synced, tmp)} == allowed;
  }

  // Everything that a call does to the file system.
  function Script(d: Disk, path: string, tmp: string, content: string): seq<Operation> {
    [MakesDir] + (Preparation(tmp) + Installation(d, path, tmp, content))
  }

  // GenerateExecutor (executor.go:16-143) for a given script text. join is filepath.Join, and
  // before is what a crash just before the call could leave at the executor's path.
  method GenerateExecutor(fs: FileSystem, join: (string, string) -> string, dirPath: string, fileName: string,
                          content: string, ghost before: set<Option<string>>)
    returns (result: Generated)
    requires Ready(fs.disk, join(dirPath, fileName), join(dirPath, fileName + ".tmp"), before)
    modifies fs
    // After a crash at any point the executor is complete: as before, or the new script.
    ensures old(fs.history) <= fs.history
    ensures SafeSince(fs.history, |old(fs.history)|, join(dirPath, fileName), before + {Some(content)})
    ensures Ready(fs.disk, join(dirPath, fileName), join(dirPath, fileName + ".tmp"), before + {Some(content)})
    ensures OthersKept(old(fs.disk), fs.disk, join(dirPath, fileName), join(dirPath, fileName + ".tmp"))
    ensures dirPath == "" || fileName == "" ==>
      result.Errored? && fs.disk == old(fs.disk) && fs.renames == old(fs.renames)
    ensures dirPath != "" && fileName != "" ==>
      Installed(old(fs.disk), fs.disk, join(dirPath, fileName), join(dirPath, fileName + ".tmp"), content,
                result, fs.renames - old(fs.renames), fs.faults - old(fs.faults))
    ensures result.Errored? || (dirPath != "" && fileName != "")
    // The operations and their order: all of them on success, a beginning of them on an error.
    ensures Began(old(fs.operations), fs.operations,
                  Script(old(fs.disk), join(dirPath, fileName), join(dirPath, fileName + ".tmp"), content),
                  !result.Errored?)
  {
    var path := join(dirPath, fileName);
    var tmp := join(dirPath, fileName + ".tmp");
    ghost var after := before + {Some(content)};
    if dirPath == "" || fileName == "" {
      return Errored;
    }
    ghost var start, preparation := fs.operations, Preparation(tmp);
    ghost var installation := Installation(fs.disk, path, tmp, content);
    var ok := fs.Attempt(MakesDir);
    ghost var made := fs.operations;
    if !ok {
      BeganOnly(start, made, [MakesDir], preparation + installation);
      return Errored;
    }
    ok := PrepareTemporary(fs, path, tmp, content, after);
    ghost var prepared, ready := fs.disk, fs.operations;
    if !ok {
      BeganOnly(made, ready, preparation, installation);
      BeganThen(start, made, ready, [MakesDir], preparation + installation, false);
      return Errored;
    }
    result := InstallTemporary(fs, path, tmp, content, after);
    BeganThen(made, ready, fs.operations, preparation, installation, !result.Errored?);
    BeganThen(start, made, fs.operations, [MakesDir], preparation + installation, !result.Errored?);
    OthersKeptTwice(old(fs.disk), prepared, fs.disk, path, tmp);
  }

  // Two calls with the same arguments: if the first succeeds, or fails after its rename, the
  // second renames nothing, returns no handle and leaves the mode of the file.
  method GenerateTwice(fs: FileSystem, join: (string, string) -> string, dirPath: string, fileName: string,
                       content: string, ghost before: set<Option<string>>)
    returns (first: Generated, second: Generated, ghost middle: Disk, ghost renamed: int)
    requires Ready(fs.disk, join(dirPath, fileName), join(dirPath, fileName + ".tmp"), before)
    modifies fs
    ensures !first.Errored? ==> ContentOf(middle, join(dirPath, fileName)) == Some(content)
    ensures first.Unchanged? ==> renamed == 0
    ensures first.Replaced? ==> renamed == 1
    ensures ContentOf(middle, join(dirPath, fileName)) == Some(content) ==>
      && (second.Errored? || second.Unchanged?)
      && fs.renames == old(fs.renames) + renamed
      && ContentOf(fs.disk, join(dirPath, fileName)) == Some(content)
      && (IsExecutable(fs.disk, join(dirPath, fileName)) <==> IsExecutable(middle, join(dirPath, fileName)))
  {
    first := GenerateExecutor(fs, join, dirPath, fileName, content, before);
    middle, renamed := fs.disk, fs.renames - old(fs.renames);
    second := GenerateExecutor(fs, join, dirPath, fileName, content, before + {Some(content)});
  }
}
