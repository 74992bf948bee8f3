// What the producer goroutine of WriteFolderToVolume writes for a directory walk
// (volume.go:265-358), over an abstract tar format: one header unit per entry, one unit per
// body byte, one footer unit. Padding, checksums and compression are not part of the model.
module TarStream {
  import opened Strings

  // An error value. Only the one returned as it came (volume.go:301) can be the bare
  // end-of-file value; every other one is wrapped in a message.
  datatype Cause = EndOfFile | Fault(text: string)

  datatype Kind = Directory | Regular | Special(target: string)

  datatype Unit = Head(name: string, kind: Kind, size: nat) | Byte(value: bv8) | Footer

  datatype Entry = Entry(name: string, kind: Kind, body: seq<bv8>)

  // One call of the WalkDir callback and what the file system answers during it. A regular
  // file has the size that its header announces and the bytes that reading it delivers,
  // which differ when the file changes between the two.
  datatype Visit =
    | Root
    | Unreadable(raw: Cause)                 // WalkDir hands the callback an error
    | NoHeader(text: string)                 // Rel, Info, Readlink or FileInfoHeader fails
    | Dir(name: string)
    | Link(name: string, target: string)
    | File(name: string, size: nat, source: Source)

  datatype Source = CannotOpen(text: string) | Content(bytes: seq<bv8>, readError: Option<string>)

  // How the walk ends if every write succeeds; owed is the number of bytes that the last
  // header announced and that were not written.
  datatype WalkEnd = Finished(owed: nat) | Failed(cause: Cause, owed: nat)

  datatype Plan = Plan(writes: seq<seq<Unit>>, end: WalkEnd)

  function Bytes(bs: seq<bv8>): (us: seq<Unit>)
    ensures |us| == |bs|
  {
    if bs == [] then [] else [Byte(bs[0])] + Bytes(bs[1..])
  }

  function WriteOf(bs: seq<bv8>): seq<seq<Unit>> {
    if bs == [] then [] else [Bytes(bs)]
  }

  function Before(first: seq<seq<Unit>>, rest: Plan): Plan {
    Plan(first + rest.writes, rest.end)
  }

  // The writes of the walk in order. The tar writer refuses a new header while bytes of the
  // previous entry are owed, and refuses body bytes beyond the announced size.
  function PlanOf(walk: seq<Visit>, owed: nat): Plan
    decreases |walk|, 0
  {
    if walk == [] then Plan([], Finished(owed))
    else
      match walk[0]
      case Root => PlanOf(walk[1..], owed)
      case Unreadable(raw) => Plan([], Failed(raw, owed))
      case NoHeader(text) => Plan([], Failed(Fault(text), owed))
      case Dir(name) =>
        if owed > 0 then Plan([], Failed(Fault("write dir header"), owed))
        else Before([[Head(name, Directory, 0)]], PlanOf(walk[1..], 0))
      case Link(name, target) =>
        if owed > 0 then Plan([], Failed(Fault("write header"), owed))
        else Before([[Head(name, Special(target), 0)]], PlanOf(walk[1..], 0))
      case File(name, size, source) =>
        if owed > 0 then Plan([], Failed(Fault("write header"), owed))
        else Before([[Head(name, Regular, size)]], AfterHeader(size, source, walk[1..]))
  }

  // The io.Copy of a regular file, then the rest of the walk.
  function AfterHeader(size: nat, source: Source, rest: seq<Visit>): Plan
    decreases |rest|, 1
  {
    match source
    case CannotOpen(text) => Plan([], Failed(Fault(text), size))
    case Content(bytes, readError) =>
      if |bytes| > size then Plan(WriteOf(bytes[..size]), Failed(Fault("write too long"), 0))
      else if readError.Some? then Plan(WriteOf(bytes), Failed(Fault(readError.value), size - |bytes|))
      else Before(WriteOf(bytes), PlanOf(rest, size - |bytes|))
  }

  function Flatten(writes: seq<seq<Unit>>): seq<Unit> {
    if writes == [] then [] else writes[0] + Flatten(writes[1..])
  }

  lemma Associative(x: seq<Unit>, y: seq<Unit>, z: seq<Unit>)
    ensures x + (y + z) == x + y + z
  {
  }

  lemma {:induction false} FlattenConcat(a: seq<seq<Unit>>, b: seq<seq<Unit>>)
    ensures Flatten(a + b) == Flatten(a) + Flatten(b)
  {
    if a == [] {
      assert a + b == b;
    } else {
      FlattenConcat(a[1..], b);
      assert (a + b)[0] == a[0] && (a + b)[1..] == a[1..] + b;
      Associative(a[0], Flatten(a[1..]), Flatten(b));
    }
  }

  // The archive of a list of entries.
  function Encode(entries: seq<Entry>): seq<Unit> {
    if entries == [] then []
    else EncodeEntry(entries[0]) + Encode(entries[1..])
  }

  function EncodeEntry(e: Entry): seq<Unit> {
    [Head(e.name, e.kind, |e.body|)] + Bytes(e.body)
  }

  // Reading an archive: the complete entries at the front of a stream of units.
  function EntriesRead(units: seq<Unit>): seq<Entry>
    decreases |units|
  {
    if units == [] || !units[0].Head? || |units| - 1 < units[0].size then []
    else
      var n := units[0].size;
      match BodyOf(units[1..1 + n])
      case None => []
      case Some(body) => [Entry(units[0].name, units[0].kind, body)] + EntriesRead(units[1 + n..])
  }

  function BodyOf(units: seq<Unit>): (body: Option<seq<bv8>>)
    ensures body.Some? ==> |body.value| == |units|
  {
    if units == [] then Some([])
    else if !units[0].Byte? then None
    else
      match BodyOf(units[1..])
      case None => None
      case Some(rest) => Some([units[0].value] + rest)
  }

  lemma {:induction false} BodyOfBytes(bs: seq<bv8>)
    ensures BodyOf(Bytes(bs)) == Some(bs)
  {
    if bs != [] {
      BodyOfBytes(bs[1..]);
      assert Bytes(bs)[1..] == Bytes(bs[1..]);
      assert [bs[0]] + bs[1..] == bs;
    }
  }

  lemma PartsOfEntry(e: Entry, rest: seq<Unit>)
    ensures var n, whole := |e.body|, EncodeEntry(e) + rest;
      && |whole| == 1 + n + |rest| && whole[0] == Head(e.name, e.kind, n)
      && whole[1..1 + n] == Bytes(e.body) && whole[1 + n..] == rest
  {
  }

  lemma CutStream(units: seq<Unit>, whole: seq<Unit>, m: nat)
    requires units <= whole && 1 <= m <= |units|
    ensures units[0] == whole[0] && units[1..m] == whole[1..m] && units[m..] <= whole[m..]
  {
  }

  // A stream that begins with an entry: either the entry is cut short, or it is read.
  lemma ReadingAnEntry(e: Entry, rest: seq<Unit>, units: seq<Unit>)
    requires units <= EncodeEntry(e) + rest
    ensures var n := |e.body|;
      if |units| < 1 + n then EntriesRead(units) == []
      else units[1 + n..] <= rest && EntriesRead(units) == [e] + EntriesRead(units[1 + n..])
  {
    var n, whole := |e.body|, EncodeEntry(e) + rest;
    PartsOfEntry(e, rest);
    if |units| >= 1 + n {
      CutStream(units, whole, 1 + n);
      BodyOfBytes(e.body);
    } else if units != [] {
      CutStream(units, whole, 1);
    }
  }

  lemma {:induction false} FooterIsNoBody(bs: seq<bv8>)
    ensures BodyOf(Bytes(bs) + [Footer]) == None
  {
    var us := Bytes(bs) + [Footer];
    if bs == [] {
      assert us[0] == Footer;
    } else {
      FooterIsNoBody(bs[1..]);
      assert us[1..] == Bytes(bs[1..]) + [Footer];
    }
  }

  // An entry whose body ends too early is never read, not even when a footer follows it.
  lemma ReadingATornEntry(name: string, size: nat, bs: seq<bv8>, units: seq<Unit>)
    requires |bs| < size
    requires units <= [Head(name, Regular, size)] + Bytes(bs) + [Footer]
    ensures EntriesRead(units) == []
  {
    var whole := [Head(name, Regular, size)] + Bytes(bs) + [Footer];
    if units != [] && |units| - 1 >= size {
      assert units == whole;
      assert units[1..1 + size] == Bytes(bs) + [Footer];
      FooterIsNoBody(bs);
    }
  }

  // Reading any part of an archive, cut anywhere, gives its entries in order.
  lemma {:induction false} ReadingAPrefix(units: seq<Unit>, entries: seq<Entry>)
    requires units <= Encode(entries) + [Footer]
    ensures EntriesRead(units) <= entries
    ensures |Encode(entries)| <= |units| ==> EntriesRead(units) == entries
    decreases |entries|
  {
    if entries != [] {
      var e, tail := entries[0], Encode(entries[1..]) + [Footer];
      assert Encode(entries) + [Footer] == EncodeEntry(e) + tail;
      ReadingAnEntry(e, tail, units);
      if |units| >= 1 + |e.body| {
        ReadingAPrefix(units[1 + |e.body|..], entries[1..]);
        assert [e] + entries[1..] == entries;
      }
    }
  }

  function Delivered(source: Source): seq<bv8> {
    if source.CannotOpen? then [] else source.bytes
  }

  // The entry that a visit sends, if it sends a complete one.
  function EntryOf(v: Visit): seq<Entry> {
    match v
    case Dir(name) => [Entry(name, Directory, [])]
    case Link(name, target) => [Entry(name, Special(target), [])]
    case File(name, size, source) =>
      var bytes := Delivered(source);
      if |bytes| < size then [] else [Entry(name, Regular, bytes[..size])]
    case _ => []
  }

  // The entries of the non-root visits, in walk order.
  function EntriesOf(walk: seq<Visit>): seq<Entry> {
    if walk == [] then [] else EntryOf(walk[0]) + EntriesOf(walk[1..])
  }

  predicate WholeContent(size: nat, source: Source) {
    source.Content? && source.readError.None? && |source.bytes| == size
  }

  // The visit succeeds and a regular file delivers exactly its announced size. A host tree
  // that does not change under the walk and can be read has only whole visits.
  predicate Whole(v: Visit) {
    match v
    case Unreadable(_) => false
    case NoHeader(_) => false
    case File(_, size, source) => WholeContent(size, source)
    case _ => true
  }

  predicate AllWhole(walk: seq<Visit>) {
    forall v <- walk :: Whole(v)
  }

  function Units(walk: seq<Visit>): seq<Unit> {
    Flatten(PlanOf(walk, 0).writes)
  }

  // Once bytes are owed nothing more is written.
  lemma {:induction false} OwedStopsTheWalk(walk: seq<Visit>, owed: nat)
    requires owed > 0
    ensures PlanOf(walk, owed).writes == [] && PlanOf(walk, owed).end != Finished(0)
  {
    if walk != [] {
      OwedStopsTheWalk(walk[1..], owed);
    }
  }

  lemma FlattenBefore(first: seq<seq<Unit>>, rest: Plan)
    ensures Flatten(Before(first, rest).writes) == Flatten(first) + Flatten(rest.writes)
  {
    FlattenConcat(first, rest.writes);
  }

  lemma UnitsOfWholeContent(size: nat, source: Source, rest: seq<Visit>)
    requires WholeContent(size, source)
    ensures var after := AfterHeader(size, source, rest);
      Flatten(after.writes) == Bytes(source.bytes) + Units(rest) && after.end == PlanOf(rest, 0).end
  {
    FlattenBefore(WriteOf(source.bytes), PlanOf(rest, 0));
  }

  lemma UnitsOfBrokenContent(size: nat, source: Source, rest: seq<Visit>)
    requires !WholeContent(size, source)
    ensures var after := AfterHeader(size, source, rest);
      && after.end != Finished(0)
      && (if |Delivered(source)| < size then Flatten(after.writes) == Bytes(Delivered(source))
          else after.end.Failed? && Flatten(after.writes) == Bytes(Delivered(source)[..size]))
  {
    if source.Content? && |source.bytes| < size && source.readError.None? {
      FlattenBefore(WriteOf(source.bytes), PlanOf(rest, size - |source.bytes|));
      OwedStopsTheWalk(rest, size - |source.bytes|);
    } else if source.Content? && |source.bytes| == size {
      assert source.bytes[..size] == source.bytes;
    }
  }

  // The units of a file that is met while nothing is owed.
  lemma UnitsOfFile(walk: seq<Visit>)
    requires walk != [] && walk[0].File?
    ensures var File(name, size, source) := walk[0];
      var after := AfterHeader(size, source, walk[1..]);
      Units(walk) == [Head(name, Regular, size)] + Flatten(after.writes) && PlanOf(walk, 0).end == after.end
  {
    var File(name, size, source) := walk[0];
    FlattenBefore([[Head(name, Regular, size)]], AfterHeader(size, source, walk[1..]));
    assert Flatten([[Head(name, Regular, size)]]) == [Head(name, Regular, size)];
  }

  lemma UnitsOfHeaderOnly(walk: seq<Visit>)
    requires walk != [] && (walk[0].Dir? || walk[0].Link?)
    ensures Units(walk) == EncodeEntry(EntryOf(walk[0])[0]) + Units(walk[1..])
    ensures PlanOf(walk, 0).end == PlanOf(walk[1..], 0).end
  {
    var e := EntryOf(walk[0])[0];
    assert EncodeEntry(e) == [Head(e.name, e.kind, 0)];
    FlattenBefore([[Head(e.name, e.kind, 0)]], PlanOf(walk[1..], 0));
    assert Flatten([[Head(e.name, e.kind, 0)]]) == [Head(e.name, e.kind, 0)];
  }

  lemma WholeFileEntry(v: Visit)
    requires v.File? && Whole(v)
    ensures EntryOf(v) == [Entry(v.name, Regular, v.source.bytes)]
  {
    assert v.source.bytes[..v.size] == v.source.bytes;
  }

  lemma WholeFile(walk: seq<Visit>)
    requires walk != [] && walk[0].File?
    ensures Whole(walk[0]) ==>
      && PlanOf(walk, 0).end == PlanOf(walk[1..], 0).end
      && |EntryOf(walk[0])| == 1
      && Units(walk) == EncodeEntry(EntryOf(walk[0])[0]) + Units(walk[1..])
    ensures !Whole(walk[0]) ==> PlanOf(walk, 0).end != Finished(0)
  {
    var v := walk[0];
    UnitsOfFile(walk);
    if Whole(v) {
      UnitsOfWholeContent(v.size, v.source, walk[1..]);
      WholeFileEntry(v);
    } else {
      UnitsOfBrokenContent(v.size, v.source, walk[1..]);
    }
  }

  // A whole visit adds its entry, if it has one, in front of the rest of the walk.
  lemma WholeVisit(walk: seq<Visit>)
    requires walk != []
    ensures Whole(walk[0]) ==> PlanOf(walk, 0).end == PlanOf(walk[1..], 0).end
    ensures !Whole(walk[0]) ==> PlanOf(walk, 0).end != Finished(0)
    ensures Whole(walk[0]) && EntryOf(walk[0]) == [] ==> Units(walk) == Units(walk[1..])
    ensures Whole(walk[0]) && EntryOf(walk[0]) != [] ==>
      && |EntryOf(walk[0])| == 1
      && Units(walk) == EncodeEntry(EntryOf(walk[0])[0]) + Units(walk[1..])
  {
    var v := walk[0];
    if v.Dir? || v.Link? {
      UnitsOfHeaderOnly(walk);
    } else if v.File? {
      WholeFile(walk);
    }
  }

  // The walk finishes with nothing owed exactly when every visit is whole, and then the
  // units are the archive of all its entries.
  lemma {:induction false} WholeWalk(walk: seq<Visit>)
    ensures PlanOf(walk, 0).end == Finished(0) <==> AllWhole(walk)
    ensures AllWhole(walk) ==> Units(walk) == Encode(EntriesOf(walk))
  {
    if walk != [] {
      var v, rest := walk[0], walk[1..];
      WholeWalk(rest);
      assert AllWhole(walk) <==> Whole(v) && AllWhole(rest) by {
        assert walk == [v] + rest;
      }
      WholeVisit(walk);
      if Whole(v) {
        if EntryOf(v) == [] {
          assert EntriesOf(walk) == EntriesOf(rest);
        } else {
          assert EntriesOf(walk)[0] == EntryOf(v)[0] && EntriesOf(walk)[1..] == EntriesOf(rest);
        }
      }
    }
  }

  // The walk ends with the error of its first visit that fails.
  lemma {:induction false} FirstFailure(front: seq<Visit>, v: Visit, rest: seq<Visit>)
    requires AllWhole(front)
    ensures var end := PlanOf(front + [v] + rest, 0).end;
      && (v.Unreadable? ==> end == Failed(v.raw, 0))
      && (v.NoHeader? ==> end == Failed(Fault(v.text), 0))
      && (v.File? && v.source.CannotOpen? ==> end == Failed(Fault(v.source.text), v.size))
      && (v.File? && v.source.Content? && |v.source.bytes| <= v.size && v.source.readError.Some? ==>
            end == Failed(Fault(v.source.readError.value), v.size - |v.source.bytes|))
    decreases |front|
  {
    var walk := front + [v] + rest;
    if front == [] {
      assert walk[0] == v;
      if v.File? {
        UnitsOfFile(walk);
      }
    } else {
      FirstFailure(front[1..], v, rest);
      assert walk[0] == front[0] && walk[1..] == front[1..] + [v] + rest;
      WholeVisit(walk);
    }
  }

  // Whatever goes wrong during the walk, and wherever the stream is cut, the complete
  // entries that were sent are the first entries of the walk in order.
  lemma {:induction false} EntriesSentInOrder(walk: seq<Visit>, units: seq<Unit>)
    requires units <= Units(walk) + [Footer]
    ensures EntriesRead(units) <= EntriesOf(walk)
    decreases |walk|, 1
  {
    if walk != [] {
      var v, rest := walk[0], walk[1..];
      if Whole(v) {
        WholeVisit(walk);
        if EntryOf(v) == [] {
          EntriesSentInOrder(rest, units);
        } else {
          EntryThenTail(walk, EntryOf(v)[0], units);
        }
      } else if v.File? {
        BrokenFile(walk, units);
      }
    }
  }

  lemma BrokenFile(walk: seq<Visit>, units: seq<Unit>)
    requires walk != [] && walk[0].File? && !Whole(walk[0])
    requires units <= Units(walk) + [Footer]
    ensures EntriesRead(units) <= EntryOf(walk[0])
  {
    var v := walk[0];
    UnitsOfFile(walk);
    UnitsOfBrokenContent(v.size, v.source, walk[1..]);
    var sent := Delivered(v.source);
    if |sent| < v.size {
      ReadingATornEntry(v.name, v.size, sent, units);
    } else {
      var e := Entry(v.name, Regular, sent[..v.size]);
      assert Units(walk) == EncodeEntry(e);
      ReadingAnEntry(e, [Footer], units);
      assert |units| >= 1 + |e.body| ==> EntriesRead(units[1 + |e.body|..]) == [];
    }
  }

  lemma {:induction false} EntryThenTail(walk: seq<Visit>, e: Entry, units: seq<Unit>)
    requires walk != [] && EntryOf(walk[0]) == [e]
    requires Units(walk) == EncodeEntry(e) + Units(walk[1..])
    requires units <= Units(walk) + [Footer]
    ensures EntriesRead(units) <= EntriesOf(walk)
    decreases |walk|, 0
  {
    var tail := Units(walk[1..]) + [Footer];
    assert Units(walk) + [Footer] == EncodeEntry(e) + tail;
    ReadingAnEntry(e, tail, units);
    if |units| >= 1 + |e.body| {
      EntriesSentInOrder(walk[1..], units[1 + |e.body|..]);
    }
  }
}
