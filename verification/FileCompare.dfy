// compareFiles (executor.go:146-207): the chunked comparison of two open files.
module FileCompare {
  import opened Strings

  const CHUNK: nat := 1024

  datatype ReadError = EndOfFile | Broken

  // What one Read returns: the bytes it put into the buffer, possibly together with an error.
  datatype Reply = Reply(data: seq<char>, error: Option<ReadError>)

  // A reader is given by its replies to one Read after the other.
  type Reader = nat -> Reply

  // What the first k replies delivered.
  function Delivered(r: Reader, k: nat): seq<char> {
    if k == 0 then [] else Delivered(r, k - 1) + r(k - 1).data
  }

  // io.Reader's contract for a file with this content: delivered bytes are its beginning, and
  // end of file is only reported when all of it was delivered.
  ghost predicate ReadsAt(r: Reader, content: seq<char>, k: nat) {
    && Delivered(r, k) <= content && Delivered(r, k + 1) <= content
    && (r(k).error == Some(EndOfFile) ==> Delivered(r, k + 1) == content)
  }

  ghost predicate Reads(r: Reader, content: seq<char>) {
    forall k: nat :: ReadsAt(r, content, k)
  }

  predicate ProgressesAt(r: Reader, k: nat) {
    0 < |r(k).data| || r(k).error.Some?
  }

  // Each Read makes progress or reports an error.
  ghost predicate Progresses(r: Reader) {
    forall k: nat :: ProgressesAt(r, k)
  }

  ghost predicate FitsBuffer(r: Reader) {
    forall k: nat :: |r(k).data| <= CHUNK
  }

  // size is what Stat reports, None if it fails.
  class File {
    const size: Option<nat>
    const replies: Reader
    ghost const content: seq<char>
    var position: nat

    constructor (size: Option<nat>, replies: Reader, ghost content: seq<char>)
      ensures this.size == size && this.replies == replies && this.content == content && position == 0
    {
      this.size, this.replies, this.content, position := size, replies, content, 0;
    }

    ghost predicate Legal() {
      FitsBuffer(replies) && Reads(replies, content) && Progresses(replies)
    }

    method Read(buf: array<char>) returns (n: nat, error: Option<ReadError>)
      requires buf.Length == CHUNK && FitsBuffer(replies)
      modifies this, buf
      ensures position == old(position) + 1
      ensures var reply := replies(old(position));
        n == |reply.data| && error == reply.error && buf[..n] == reply.data
    {
      var reply := replies(position);
      n, error := |reply.data|, reply.error;
      for i := 0 to n
        invariant buf[..i] == reply.data[..i]
        invariant position == old(position)
      {
        buf[i] := reply.data[i];
      }
      position := position + 1;
    }
  }

  datatype Comparison = Same | Different | Failed

  // How the k-th iteration of the loop ends it, if it does.
  function Verdict(a: Reader, b: Reader, k: nat): Option<Comparison> {
    var x, y := a(k), b(k);
    if x.error == Some(Broken) || y.error == Some(Broken) then Some(Failed)
    else if x.data != y.data then Some(Different)
    else if x.error == Some(EndOfFile) && y.error == Some(EndOfFile) then Some(Same)
    else None
  }

  // Bytes that the reader has still to deliver.
  ghost function Undelivered(r: Reader, content: seq<char>, k: nat): int {
    |content| - |Delivered(r, k)|
  }

  lemma ErrorsOf(reply: Reply)
    ensures reply.error in {None, Some(EndOfFile), Some(Broken)}
  {
    match reply.error
    case None =>
    case Some(EndOfFile) =>
    case Some(Broken) =>
  }

  // An iteration that does not end the loop brings both readers forward.
  lemma GoingOnIsProgress(a: Reader, b: Reader, p: seq<char>, k: nat)
    requires ReadsAt(a, p, k) && ProgressesAt(a, k) && ProgressesAt(b, k) && Verdict(a, b, k).None?
    ensures 0 <= Undelivered(a, p, k + 1) < Undelivered(a, p, k)
  {
    ErrorsOf(a(k));
    ErrorsOf(b(k));
    assert |Delivered(a, k + 1)| == |Delivered(a, k)| + |a(k).data|;
  }

  // The outcome of the loop from its k-th iteration on. p is the content that a reads; the
  // bytes of it that are left are what makes the loop end.
  function CompareFrom(a: Reader, b: Reader, ghost p: seq<char>, k: nat): Comparison
    requires Reads(a, p) && Progresses(a) && Progresses(b)
    decreases Undelivered(a, p, k)
  {
    assert ReadsAt(a, p, k) && ProgressesAt(a, k) && ProgressesAt(b, k);
    match Verdict(a, b, k)
    case Some(comparison) => comparison
    case None =>
      GoingOnIsProgress(a, b, p, k);
      CompareFrom(a, b, p, k + 1)
  }

  // null stands for a file that cannot be opened.
  method CompareFiles(f1: File?, f2: File?) returns (result: Comparison)
    requires f1 != null && f2 != null ==> f1 != f2
    requires f1 != null ==> f1.position == 0 && f1.Legal()
    requires f2 != null ==> f2.position == 0 && f2.Legal()
    modifies if f1 == null then {} else {f1}, if f2 == null then {} else {f2}
    ensures result ==
      if f1 == null || f2 == null || f1.size.None? || f2.size.None? then Failed
      else if f1.size != f2.size then Different
      else CompareFrom(f1.replies, f2.replies, f1.content, 0)
  {
    if f1 == null || f2 == null {
      return Failed;
    }
    if f1.size.None? || f2.size.None? {
      return Failed;
    }
    if f1.size != f2.size {
      return Different;
    }
    var buf1, buf2 := new char[CHUNK], new char[CHUNK];
    ghost var a, b, p := f1.replies, f2.replies, f1.content;
    while true
      invariant f1.position == f2.position
      invariant CompareFrom(a, b, p, 0) == CompareFrom(a, b, p, f1.position)
      decreases Undelivered(a, p, f1.position)
    {
      ghost var k := f1.position;
      assert ReadsAt(a, p, k) && ProgressesAt(a, k) && ProgressesAt(b, k);
      var n1, err1 := f1.Read(buf1);
      var n2, err2 := f2.Read(buf2);
      assert n1 == |a(k).data| && n2 == |b(k).data| && err1 == a(k).error && err2 == b(k).error;
      assert n1 == n2 ==> (buf1[..n1] == buf2[..n1] <==> a(k).data == b(k).data);
      if err1 == Some(Broken) || err2 == Some(Broken) {
        return Failed;
      }
      if n1 != n2 || buf1[..n1] != buf2[..n1] {
        return Different;
      }
      if err1 == Some(EndOfFile) && err2 == Some(EndOfFile) {
        return Same;
      }
      GoingOnIsProgress(a, b, p, k);
    }
  }

  // --- When the loop ends -------------------------------------------------------------------

  // The loop ends within one iteration more than there are bytes.
  lemma {:induction false} LoopEnds(a: Reader, b: Reader, p: seq<char>, k: nat) returns (end: nat)
    requires Reads(a, p) && Progresses(a) && Progresses(b)
    ensures k <= end <= k + Undelivered(a, p, k)
    ensures Verdict(a, b, end) == Some(CompareFrom(a, b, p, k))
    ensures forall j: nat :: k <= j < end ==> Verdict(a, b, j).None?
    decreases Undelivered(a, p, k)
  {
    assert ReadsAt(a, p, k) && ProgressesAt(a, k) && ProgressesAt(b, k);
    end := k;
    if Verdict(a, b, k).None? {
      GoingOnIsProgress(a, b, p, k);
      end := LoopEnds(a, b, p, k + 1);
    }
  }

  // An iteration that neither side breaks, whose chunks are equal, and that is not the end of both.
  predicate GoesOn(a: Reader, b: Reader, k: nat) {
    && a(k).error != Some(Broken) && b(k).error != Some(Broken) && a(k).data == b(k).data
    && !(a(k).error == Some(EndOfFile) && b(k).error == Some(EndOfFile))
  }

  // What the result says about the replies: behind iterations that go on, a read error fails the
  // comparison and is not taken for a difference, unequal chunks make the files different, and
  // only the common end of file makes them the same.
  lemma ResultMeaning(a: Reader, b: Reader, p: seq<char>) returns (end: nat)
    requires Reads(a, p) && Progresses(a) && Progresses(b)
    ensures forall j: nat :: j < end ==> GoesOn(a, b, j)
    ensures CompareFrom(a, b, p, 0) == Failed <==> a(end).error == Some(Broken) || b(end).error == Some(Broken)
    ensures CompareFrom(a, b, p, 0) == Different <==>
      a(end).error != Some(Broken) && b(end).error != Some(Broken) && a(end).data != b(end).data
    ensures CompareFrom(a, b, p, 0) == Same <==>
      a(end).error == Some(EndOfFile) && b(end).error == Some(EndOfFile) && a(end).data == b(end).data
  {
    end := LoopEnds(a, b, p, 0);
    forall j: nat | j < end
      ensures GoesOn(a, b, j)
    {
      assert Verdict(a, b, j).None?;
    }
  }

  // Progress is needed: two legal readers that keep returning nothing without an error, for any
  // two contents, keep the loop going for ever.
  lemma StallingReadersNeverEnd(p: seq<char>, q: seq<char>)
    ensures var stalled: Reader := (_: nat) => Reply([], None);
      && Reads(stalled, p) && Reads(stalled, q) && !Progresses(stalled)
      && forall k: nat :: Verdict(stalled, stalled, k).None?
  {
    var stalled: Reader := (_: nat) => Reply([], None);
    forall k: nat
      ensures Delivered(stalled, k) == []
    {
      StalledDeliversNothing(stalled, k);
    }
    assert !ProgressesAt(stalled, 0);
  }

  lemma {:induction false} StalledDeliversNothing(r: Reader, k: nat)
    requires forall j: nat :: r(j).data == []
    ensures Delivered(r, k) == []
  {
    if k > 0 {
      StalledDeliversNothing(r, k - 1);
    }
  }

  // --- What the result means ----------------------------------------------------------------

  predicate UnbrokenAt(r: Reader, k: nat) {
    r(k).error != Some(Broken)
  }

  ghost predicate Unbroken(r: Reader) {
    forall k: nat :: UnbrokenAt(r, k)
  }

  predicate AlignedAt(a: Reader, b: Reader, k: nat) {
    |a(k).data| == |b(k).data|
  }

  // The two readers deliver chunks of the same sizes.
  ghost predicate Aligned(a: Reader, b: Reader) {
    forall k: nat :: AlignedAt(a, b, k)
  }

  lemma {:induction false} EqualRepliesDeliverEqually(a: Reader, b: Reader, k: nat)
    requires forall j: nat :: j < k ==> a(j).data == b(j).data
    ensures Delivered(a, k) == Delivered(b, k)
  {
    if k > 0 {
      EqualRepliesDeliverEqually(a, b, k - 1);
    }
  }

  // For any legal pair of readers, equal is only reported for equal contents.
  lemma SameOnlyIfEqual(a: Reader, b: Reader, p: seq<char>, q: seq<char>)
    requires Reads(a, p) && Reads(b, q) && Progresses(a) && Progresses(b)
    requires CompareFrom(a, b, p, 0) == Same
    ensures p == q
  {
    var end := LoopEnds(a, b, p, 0);
    forall j: nat | j < end + 1
      ensures a(j).data == b(j).data
    {
      assert j < end ==> Verdict(a, b, j).None?;
    }
    EqualRepliesDeliverEqually(a, b, end + 1);
    assert ReadsAt(a, p, end) && ReadsAt(b, q, end);
  }

  lemma {:induction false} NothingAfterTheEnd(r: Reader, content: seq<char>, end: nat, k: nat)
    requires Reads(r, content) && r(end).error == Some(EndOfFile) && k > end
    ensures Delivered(r, k) == content && r(k).data == []
    decreases k
  {
    if k > end + 1 {
      NothingAfterTheEnd(r, content, end, k - 1);
    } else {
      assert ReadsAt(r, content, end);
    }
    assert ReadsAt(r, content, k);
    assert |Delivered(r, k + 1)| == |content| + |r(k).data|;
  }

  lemma {:induction false} AlignedDeliversSame(a: Reader, b: Reader, content: seq<char>, k: nat)
    requires Reads(a, content) && Reads(b, content) && Aligned(a, b)
    ensures Delivered(a, k) == Delivered(b, k) && a(k).data == b(k).data
    decreases k
  {
    if k > 0 {
      AlignedDeliversSame(a, b, content, k - 1);
    }
    assert ReadsAt(a, content, k) && ReadsAt(b, content, k) && AlignedAt(a, b, k);
    var n, m := |Delivered(a, k)|, |a(k).data|;
    assert |Delivered(a, k + 1)| == n + m;
    assert Delivered(a, k + 1) == content[..n + m] == Delivered(b, k + 1);
    assert a(k).data == content[n..n + m] == b(k).data;
  }

  // Exactly when does the loop report equal? The contents must be equal and the two readers
  // must cut them into the same chunks.
  lemma SameIff(a: Reader, b: Reader, p: seq<char>, q: seq<char>)
    requires Reads(a, p) && Reads(b, q) && Progresses(a) && Progresses(b) && Unbroken(a) && Unbroken(b)
    ensures CompareFrom(a, b, p, 0) == Same <==> p == q && Aligned(a, b)
  {
    var end := LoopEnds(a, b, p, 0);
    if CompareFrom(a, b, p, 0) == Same {
      SameOnlyIfEqual(a, b, p, q);
      forall k: nat
        ensures AlignedAt(a, b, k)
      {
        if k > end {
          NothingAfterTheEnd(a, p, end, k);
          NothingAfterTheEnd(b, q, end, k);
        } else {
          assert k < end ==> Verdict(a, b, k).None?;
        }
      }
    }
    if p == q && Aligned(a, b) {
      AlignedDeliversSame(a, b, p, end);
      assert UnbrokenAt(a, end) && UnbrokenAt(b, end);
    }
  }

  // --- Readers that deliver chunks of one size ----------------------------------------------

  function Min(a: nat, b: nat): nat {
    if a < b then a else b
  }

  // Readers that fill every chunk of n bytes until the end.
  ghost predicate FillsAt(r: Reader, content: seq<char>, n: nat, k: nat) {
    |Delivered(r, k)| <= |content| && |r(k).data| == Min(n, |content| - |Delivered(r, k)|)
  }

  ghost predicate FillsChunks(r: Reader, content: seq<char>) {
    forall k: nat :: FillsAt(r, content, 1024, k)
  }

  lemma {:induction false} FillingDeliversSameLength(a: Reader, b: Reader, content: seq<char>, k: nat)
    requires FillsChunks(a, content) && FillsChunks(b, content)
    ensures |Delivered(a, k)| == |Delivered(b, k)|
  {
    if k > 0 {
      FillingDeliversSameLength(a, b, content, k - 1);
      assert FillsAt(a, content, 1024, k - 1) && FillsAt(b, content, 1024, k - 1);
    }
  }

  lemma UnbrokenNeverFails(a: Reader, b: Reader, p: seq<char>)
    requires Reads(a, p) && Progresses(a) && Progresses(b) && Unbroken(a) && Unbroken(b)
    ensures CompareFrom(a, b, p, 0) != Failed
  {
    var end := LoopEnds(a, b, p, 0);
    assert UnbrokenAt(a, end) && UnbrokenAt(b, end);
  }

  lemma FillingReadersDecideEquality(a: Reader, b: Reader, p: seq<char>, q: seq<char>)
    requires Reads(a, p) && Reads(b, q) && Progresses(a) && Progresses(b) && Unbroken(a) && Unbroken(b)
    requires FillsChunks(a, p) && FillsChunks(b, q)
    ensures CompareFrom(a, b, p, 0) == if p == q then Same else Different
  {
    SameIff(a, b, p, q);
    UnbrokenNeverFails(a, b, p);
    if p == q {
      forall k: nat
        ensures AlignedAt(a, b, k)
      {
        FillingDeliversSameLength(a, b, p, k);
        assert FillsAt(a, p, 1024, k) && FillsAt(b, q, 1024, k);
      }
    }
  }

  // Where the k-th chunk of n bytes starts.
  function Start(content: seq<char>, n: nat, k: nat): (start: nat)
    ensures start <= |content|
  {
    if k == 0 then 0 else Min(|content|, Start(content, n, k - 1) + n)
  }

  // A reader that returns n bytes at a time.
  function ChunkReader(content: seq<char>, n: nat): Reader {
    (k: nat) =>
      var lo, hi := Start(content, n, k), Start(content, n, k + 1);
      Reply(content[lo..hi], if lo < |content| then None else Some(EndOfFile))
  }

  // A regular file fills the buffer as long as it can.
  function FileReader(content: seq<char>): Reader {
    ChunkReader(content, CHUNK)
  }

  lemma {:induction false} ChunksDelivered(content: seq<char>, n: nat, k: nat)
    ensures Delivered(ChunkReader(content, n), k) == content[..Start(content, n, k)]
  {
    if k > 0 {
      var lo, hi := Start(content, n, k - 1), Start(content, n, k);
      ChunksDelivered(content, n, k - 1);
      ChunkAt(content, n, k - 1);
      TwoSlices(content, lo, hi);
    }
  }

  lemma ChunkAt(content: seq<char>, n: nat, k: nat)
    ensures ChunkReader(content, n)(k).data == content[Start(content, n, k)..Start(content, n, k + 1)]
  {
  }

  lemma TwoSlices(content: seq<char>, lo: nat, hi: nat)
    requires lo <= hi <= |content|
    ensures content[..lo] + content[lo..hi] == content[..hi]
  {
  }

  lemma ChunkReadersAreLegal(content: seq<char>, n: nat)
    requires n > 0
    ensures var r := ChunkReader(content, n);
      && Reads(r, content) && Progresses(r) && Unbroken(r)
      && forall k: nat :: FillsAt(r, content, n, k)
  {
    var r := ChunkReader(content, n);
    forall k: nat
      ensures ReadsAt(r, content, k) && ProgressesAt(r, k) && UnbrokenAt(r, k) && FillsAt(r, content, n, k)
    {
      ChunksDelivered(content, n, k);
      ChunksDelivered(content, n, k + 1);
    }
  }

  lemma FilesAreFillingReaders(content: seq<char>)
    ensures var r := FileReader(content);
      Reads(r, content) && Progresses(r) && Unbroken(r) && FillsChunks(r, content) && FitsBuffer(r)
  {
    ChunkReadersAreLegal(content, CHUNK);
  }

  // Short reads are enough to miss equality: a legal reader that returns fewer bytes at a time
  // than the other looks different from it on every common content that is longer than that.
  lemma ShortReadLooksDifferent(content: seq<char>, n: nat)
    requires 0 < n < CHUNK && n < |content|
    ensures var short, file := ChunkReader(content, n), FileReader(content);
      && Reads(short, content) && Progresses(short) && Unbroken(short) && FitsBuffer(short)
      && Reads(file, content) && Progresses(file) && Unbroken(file) && FitsBuffer(file)
      && CompareFrom(short, file, content, 0) == Different
  {
    ChunkReadersAreLegal(content, n);
    FilesAreFillingReaders(content);
    var short, file := ChunkReader(content, n), FileReader(content);
    assert short(0) == Reply(content[..n], None);
    assert file(0) == Reply(content[..Min(|content|, CHUNK)], None);
    assert |short(0).data| != |file(0).data|;
  }
}
