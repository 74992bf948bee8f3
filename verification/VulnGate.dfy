// The decision part of cmd/govulncheckgate/main.go: grouping the reachable findings of a
// scan by vulnerability id and holding them against the list of exceptions.
module VulnGate {
  import opened Strings
  import opened PackagePaths
  import opened Gathering

  // expires is the parsed date, None if it does not parse.
  datatype Exemption = Exemption(id: string, mod: string, pkg: string, expires: Option<int>)
  datatype Frame = Frame(mod: string, pkg: string, func: string)
  datatype Finding = Finding(osv: string, trace: seq<Frame>)
  datatype Message = Message(finding: Option<Finding>)
  datatype Occurrence = Occurrence(mod: string, pkg: string, trace: seq<Frame>)

  // The decoded messages, and whether decoding stopped at an error instead of end of file.
  datatype Stream = Stream(messages: seq<Message>, malformed: bool)

  datatype Failure =
    | InvalidDate(id: string, exemption: Exemption)
    | Expired(id: string, exemption: Exemption)
    | NotCovered(id: string, mod: string, pkg: string)

  // A finding with a trace, at the frame closest to the vulnerable symbol.
  predicate Reaches(m: Message) {
    m.finding.Some? && m.finding.value.trace != []
  }

  function OccurrenceOf(m: Message): Occurrence
    requires Reaches(m)
  {
    var trace := m.finding.value.trace;
    Occurrence(trace[0].mod, trace[0].pkg, trace)
  }

  // --- Grouping --------------------------------------------------------------------------

  // The occurrences of one vulnerability in stream order.
  function OccurrencesOf(ms: seq<Message>, id: string): seq<Occurrence> {
    if ms == [] then []
    else
      var before := OccurrencesOf(ms[..|ms| - 1], id);
      var m := ms[|ms| - 1];
      if Reaches(m) && m.finding.value.osv == id then before + [OccurrenceOf(m)] else before
  }

  ghost predicate Groups(reachable: map<string, seq<Occurrence>>, ms: seq<Message>) {
    && (forall id :: id in reachable <==> exists k :: 0 <= k < |ms| && Reaches(ms[k]) && ms[k].finding.value.osv == id)
    && (forall id <- reachable :: reachable[id] == OccurrencesOf(ms, id))
  }

  lemma {:induction false} UnseenHasNoOccurrences(ms: seq<Message>, id: string)
    requires forall k :: 0 <= k < |ms| && Reaches(ms[k]) ==> ms[k].finding.value.osv != id
    ensures OccurrencesOf(ms, id) == []
  {
    if ms != [] {
      UnseenHasNoOccurrences(ms[..|ms| - 1], id);
    }
  }

  // One message more (main.go:148-153).
  lemma GroupOneMore(reachable: map<string, seq<Occurrence>>, ms: seq<Message>, m: Message)
    requires Groups(reachable, ms)
    ensures !Reaches(m) ==> Groups(reachable, ms + [m])
    ensures Reaches(m) ==>
      var id := m.finding.value.osv;
      var old_ := if id in reachable then reachable[id] else [];
      Groups(reachable[id := old_ + [OccurrenceOf(m)]], ms + [m])
  {
    var all := ms + [m];
    assert all[..|ms|] == ms && all[|ms|] == m;
    forall k | 0 <= k < |ms|
      ensures all[k] == ms[k]
    {
    }
    if Reaches(m) {
      var id := m.finding.value.osv;
      assert Reaches(all[|ms|]);
      if id !in reachable {
        UnseenHasNoOccurrences(ms, id);
      }
    }
  }

  method ParseReachableFindings(r: Stream) returns (count: nat, reachable: Option<map<string, seq<Occurrence>>>)
    ensures count == |r.messages|
    ensures reachable.Some? <==> !r.malformed
    ensures reachable.Some? ==> Groups(reachable.value, r.messages)
  {
    var groups: map<string, seq<Occurrence>> := map[];
    count := 0;
    while count < |r.messages|
      invariant count <= |r.messages|
      invariant Groups(groups, r.messages[..count])
    {
      var m := r.messages[count];
      GroupOneMore(groups, r.messages[..count], m);
      assert r.messages[..count] + [m] == r.messages[..count + 1];
      count := count + 1;
      if m.finding.None? || |m.finding.value.trace| == 0 {
        continue;
      }
      var id := m.finding.value.osv;
      var old_ := if id in groups then groups[id] else [];
      groups := groups[id := old_ + [OccurrenceOf(m)]];
    }
    assert r.messages[..count] == r.messages;
    if r.malformed {
      return count, None;
    }
    reachable := Some(groups);
  }

  // --- Exemptions --------------------------------------------------------------------------

  predicate Matches(e: Exemption, id: string, occ: Occurrence) {
    e.id == id && e.mod == occ.mod && (occ.pkg == "" || PackageCovers(e.pkg, occ.pkg))
  }

  predicate InForce(e: Exemption, now: int) {
    e.expires.Some? && now <= e.expires.value
  }

  predicate Approves(e: Exemption, id: string, occ: Occurrence, now: int) {
    Matches(e, id, occ) && InForce(e, now)
  }

  // The complaints about matching exemptions that are not in force, in list order.
  function Stale(es: seq<Exemption>, id: string, occ: Occurrence, now: int): seq<Failure> {
    if es == [] then []
    else
      var before := Stale(es[..|es| - 1], id, occ, now);
      var e := es[|es| - 1];
      if !Matches(e, id, occ) || InForce(e, now) then before
      else before + [if e.expires.None? then InvalidDate(id, e) else Expired(id, e)]
  }

  ghost predicate Approved(es: seq<Exemption>, id: string, occ: Occurrence, now: int) {
    exists i :: 0 <= i < |es| && Approves(es[i], id, occ, now)
  }

  ghost function FailuresAt(es: seq<Exemption>, id: string, occ: Occurrence, now: int): seq<Failure> {
    Stale(es, id, occ, now) + if Approved(es, id, occ, now) then [] else [NotCovered(id, occ.mod, occ.pkg)]
  }

  ghost function FailuresFor(es: seq<Exemption>, id: string, occs: seq<Occurrence>, now: int): seq<Failure> {
    if occs == [] then []
    else FailuresFor(es, id, occs[..|occs| - 1], now) + FailuresAt(es, id, occs[|occs| - 1], now)
  }

  ghost predicate UsedBy(e: Exemption, id: string, occs: seq<Occurrence>, now: int) {
    exists k :: 0 <= k < |occs| && Approves(e, id, occs[k], now)
  }

  method CheckOccurrence(id: string, occ: Occurrence, es: seq<Exemption>, used: array<bool>, now: int)
    returns (failures: seq<Failure>)
    requires used.Length == |es|
    modifies used
    ensures failures == FailuresAt(es, id, occ, now)
    ensures forall i :: 0 <= i < |es| ==> used[i] == (old(used[i]) || Approves(es[i], id, occ, now))
  {
    var matched := false;
    failures := [];
    for i := 0 to |es|
      invariant failures == Stale(es[..i], id, occ, now)
      invariant matched <==> exists j :: 0 <= j < i && Approves(es[j], id, occ, now)
      invariant forall j :: 0 <= j < i ==> used[j] == (old(used[j]) || Approves(es[j], id, occ, now))
      invariant forall j :: i <= j < |es| ==> used[j] == old(used[j])
    {
      var e := es[i];
      assert es[..i + 1][..i] == es[..i];
      if e.id != id || e.mod != occ.mod {
        continue;
      }
      if occ.pkg != "" && !PackageCovers(e.pkg, occ.pkg) {
        continue;
      }
      if e.expires.None? {
        failures := failures + [InvalidDate(id, e)];
        continue;
      }
      if now > e.expires.value {
        failures := failures + [Expired(id, e)];
        continue;
      }
      assert Approves(es[i], id, occ, now);
      matched := true;
      used[i] := true;
    }
    assert es[..|es|] == es;
    if !matched {
      failures := failures + [NotCovered(id, occ.mod, occ.pkg)];
    }
  }

  method CoveredByExceptions(id: string, occs: seq<Occurrence>, es: seq<Exemption>, used: array<bool>, now: int)
    returns (covered: bool, failures: seq<Failure>)
    requires used.Length == |es|
    modifies used
    ensures failures == FailuresFor(es, id, occs, now)
    ensures covered <==> failures == []
    ensures forall i :: 0 <= i < |es| ==> used[i] == (old(used[i]) || UsedBy(es[i], id, occs, now))
  {
    failures := [];
    for k := 0 to |occs|
      invariant failures == FailuresFor(es, id, occs[..k], now)
      invariant forall i :: 0 <= i < |es| ==> used[i] == (old(used[i]) || UsedBy(es[i], id, occs[..k], now))
    {
      var more := CheckOccurrence(id, occs[k], es, used, now);
      failures := failures + more;
      OneMoreChecked(es, id, occs, k, now);
    }
    assert occs[..|occs|] == occs;
    covered := |failures| == 0;
  }

  lemma OneMoreChecked(es: seq<Exemption>, id: string, occs: seq<Occurrence>, k: nat, now: int)
    requires k < |occs|
    ensures FailuresFor(es, id, occs[..k + 1], now) ==
      FailuresFor(es, id, occs[..k], now) + FailuresAt(es, id, occs[k], now)
    ensures forall i :: 0 <= i < |es| ==>
      (UsedBy(es[i], id, occs[..k + 1], now) <==>
         UsedBy(es[i], id, occs[..k], now) || Approves(es[i], id, occs[k], now))
  {
    assert occs[..k + 1][..k] == occs[..k];
    assert occs[..k] + [occs[k]] == occs[..k + 1];
    forall i | 0 <= i < |es|
      ensures UsedBy(es[i], id, occs[..k + 1], now) <==>
        UsedBy(es[i], id, occs[..k], now) || Approves(es[i], id, occs[k], now)
    {
      UsedByOneMore(es[i], id, occs[..k], occs[k], now);
    }
  }

  lemma UsedByOneMore(e: Exemption, id: string, occs: seq<Occurrence>, occ: Occurrence, now: int)
    ensures UsedBy(e, id, occs + [occ], now) <==> UsedBy(e, id, occs, now) || Approves(e, id, occ, now)
  {
    var all := occs + [occ];
    assert all[|occs|] == occ;
    assert forall k :: 0 <= k < |occs| ==> all[k] == occs[k];
  }

  // --- The verdict, stated on the messages alone -------------------------------------------

  ghost function FailuresOfMessage(es: seq<Exemption>, m: Message, now: int): seq<Failure> {
    if Reaches(m) then FailuresAt(es, m.finding.value.osv, OccurrenceOf(m), now) else []
  }

  ghost function FailuresIn(es: seq<Exemption>, now: int): Message -> multiset<Failure> {
    m => multiset(FailuresOfMessage(es, m, now))
  }

  ghost function AllFailures(es: seq<Exemption>, ms: seq<Message>, now: int): multiset<Failure> {
    Gather(FailuresIn(es, now), ms)
  }

  ghost predicate UsedByAny(e: Exemption, ms: seq<Message>, now: int) {
    exists k :: 0 <= k < |ms| && Reaches(ms[k]) && Approves(e, ms[k].finding.value.osv, OccurrenceOf(ms[k]), now)
  }

  // An exemption is about a finding: it has its id, and the module of the first frame of its
  // trace, and its package is a parent of that frame's package or the same, component by
  // component, or the frame names no package.
  ghost predicate Meets(e: Exemption, f: Finding)
    requires f.trace != []
  {
    && e.id == f.osv && e.mod == f.trace[0].mod
    && (f.trace[0].pkg == "" || Components(e.pkg) <= Components(f.trace[0].pkg))
  }

  // Every finding with a trace is met by some exemption, and by none without a valid date that
  // has not passed.
  ghost predicate Acceptable(es: seq<Exemption>, m: Message, now: int) {
    m.finding.Some? && m.finding.value.trace != [] ==>
      var f := m.finding.value;
      && (exists i :: 0 <= i < |es| && Meets(es[i], f))
      && (forall i :: 0 <= i < |es| && Meets(es[i], f) ==> es[i].expires.Some? && now <= es[i].expires.value)
  }

  lemma MeetsIffMatches(e: Exemption, m: Message)
    requires Reaches(m)
    ensures Meets(e, m.finding.value) <==> Matches(e, m.finding.value.osv, OccurrenceOf(m))
  {
    CoversIffComponentPrefix(e.pkg, m.finding.value.trace[0].pkg);
  }

  // Every failure of a message, and what it says.
  ghost predicate Deserved(es: seq<Exemption>, f: Finding, now: int, failure: Failure)
    requires f.trace != []
  {
    match failure
    case InvalidDate(id, e) => id == f.osv && e in es && Meets(e, f) && e.expires.None?
    case Expired(id, e) => id == f.osv && e in es && Meets(e, f) && e.expires.Some? && now > e.expires.value
    case NotCovered(id, mod, pkg) =>
      && id == f.osv && mod == f.trace[0].mod && pkg == f.trace[0].pkg
      && forall e <- es :: Meets(e, f) ==> e.expires.None? || now > e.expires.value
  }

  lemma {:induction false} StaleMeaning(es: seq<Exemption>, id: string, occ: Occurrence, now: int, failure: Failure)
    ensures failure in Stale(es, id, occ, now) <==>
      && !failure.NotCovered? && failure.id == id && failure.exemption in es
      && Matches(failure.exemption, id, occ) && !InForce(failure.exemption, now)
      && (failure.InvalidDate? <==> failure.exemption.expires.None?)
  {
    if es != [] {
      var init, e := es[..|es| - 1], es[|es| - 1];
      StaleMeaning(init, id, occ, now, failure);
      assert es == init + [e];
    }
  }

  // A message gives exactly the failures that its first frame deserves.
  lemma FailuresAreDeserved(es: seq<Exemption>, m: Message, now: int, failure: Failure)
    ensures failure in FailuresOfMessage(es, m, now) <==>
      m.finding.Some? && m.finding.value.trace != [] && Deserved(es, m.finding.value, now, failure)
  {
    if Reaches(m) {
      var id, occ := m.finding.value.osv, OccurrenceOf(m);
      StaleMeaning(es, id, occ, now, failure);
      forall e: Exemption
        ensures Meets(e, m.finding.value) <==> Matches(e, id, occ)
      {
        MeetsIffMatches(e, m);
      }
      assert Approved(es, id, occ, now) <==> exists e <- es :: Matches(e, id, occ) && InForce(e, now) by {
        forall e | e in es && Matches(e, id, occ) && InForce(e, now)
          ensures Approved(es, id, occ, now)
        {
          var i :| 0 <= i < |es| && es[i] == e;
          assert Approves(es[i], id, occ, now);
        }
      }
    }
  }

  // Only the first frame of a trace counts: two findings with the same id whose traces begin with
  // the same module and package are judged alike.
  lemma FirstFrameDecides(es: seq<Exemption>, m: Message, n: Message, now: int)
    requires m.finding.Some? && n.finding.Some? && m.finding.value.osv == n.finding.value.osv
    requires m.finding.value.trace != [] && n.finding.value.trace != []
    requires m.finding.value.trace[0].mod == n.finding.value.trace[0].mod
    requires m.finding.value.trace[0].pkg == n.finding.value.trace[0].pkg
    ensures Acceptable(es, m, now) <==> Acceptable(es, n, now)
    ensures FailuresOfMessage(es, m, now) == FailuresOfMessage(es, n, now)
  {
    SameOccurrenceSameFailures(es, m.finding.value.osv, OccurrenceOf(m), OccurrenceOf(n), now);
    AcceptableIffNoFailure(es, m, now);
    AcceptableIffNoFailure(es, n, now);
  }

  lemma {:induction false} SameOccurrenceSameFailures(es: seq<Exemption>, id: string, a: Occurrence, b: Occurrence,
                                                      now: int)
    requires a.mod == b.mod && a.pkg == b.pkg
    ensures FailuresAt(es, id, a, now) == FailuresAt(es, id, b, now)
  {
    SameOccurrenceSameStale(es, id, a, b, now);
    assert forall e: Exemption :: Approves(e, id, a, now) <==> Approves(e, id, b, now);
  }

  lemma {:induction false} SameOccurrenceSameStale(es: seq<Exemption>, id: string, a: Occurrence, b: Occurrence,
                                                   now: int)
    requires a.mod == b.mod && a.pkg == b.pkg
    ensures Stale(es, id, a, now) == Stale(es, id, b, now)
  {
    if es != [] {
      SameOccurrenceSameStale(es[..|es| - 1], id, a, b, now);
    }
  }

  // What makes an exemption used.
  lemma UsedIffMeetsInForce(e: Exemption, ms: seq<Message>, now: int)
    ensures UsedByAny(e, ms, now) <==>
      && e.expires.Some? && now <= e.expires.value
      && exists k :: 0 <= k < |ms| && ms[k].finding.Some?
           && ms[k].finding.value.trace != [] && Meets(e, ms[k].finding.value)
  {
    forall k | 0 <= k < |ms| && Reaches(ms[k])
      ensures Meets(e, ms[k].finding.value) <==> Matches(e, ms[k].finding.value.osv, OccurrenceOf(ms[k]))
    {
      MeetsIffMatches(e, ms[k]);
    }
  }

  ghost predicate AllAcceptable(es: seq<Exemption>, ms: seq<Message>, now: int) {
    forall k :: 0 <= k < |ms| ==> Acceptable(es, ms[k], now)
  }

  lemma {:induction false} NoStaleIffAllInForce(es: seq<Exemption>, id: string, occ: Occurrence, now: int)
    ensures Stale(es, id, occ, now) == [] <==>
      forall i :: 0 <= i < |es| && Matches(es[i], id, occ) ==> InForce(es[i], now)
  {
    if es != [] {
      NoStaleIffAllInForce(es[..|es| - 1], id, occ, now);
    }
  }

  lemma AcceptableIffNoFailure(es: seq<Exemption>, m: Message, now: int)
    ensures FailuresOfMessage(es, m, now) == [] <==> Acceptable(es, m, now)
  {
    if Reaches(m) {
      NoStaleIffAllInForce(es, m.finding.value.osv, OccurrenceOf(m), now);
      forall i | 0 <= i < |es|
        ensures Meets(es[i], m.finding.value) <==> Matches(es[i], m.finding.value.osv, OccurrenceOf(m))
      {
        MeetsIffMatches(es[i], m);
      }
    }
  }

  lemma {:induction false} NoFailuresIffAllAcceptable(es: seq<Exemption>, ms: seq<Message>, now: int)
    ensures AllFailures(es, ms, now) == multiset{} <==> AllAcceptable(es, ms, now)
  {
    if ms != [] {
      var init, m := ms[..|ms| - 1], ms[|ms| - 1];
      NoFailuresIffAllAcceptable(es, init, now);
      AcceptableIffNoFailure(es, m, now);
      EmptySumIffEmpty(AllFailures(es, init, now), FailuresOfMessage(es, m, now));
    }
  }

  lemma EmptySumIffEmpty<T>(a: multiset<T>, b: seq<T>)
    ensures a + multiset(b) == multiset{} <==> a == multiset{} && b == []
  {
    if b != [] {
      assert b[0] in a + multiset(b);
    } else if a != multiset{} {
      var x :| x in a;
      assert x in a + multiset(b);
    }
  }

  // --- Iterating over the map of groups ----------------------------------------------------

  function Among(ms: seq<Message>, ids: set<string>): seq<Message> {
    if ms == [] then []
    else
      var before := Among(ms[..|ms| - 1], ids);
      var m := ms[|ms| - 1];
      if Reaches(m) && m.finding.value.osv in ids then before + [m] else before
  }

  // Taking one more group adds exactly what that group contributes.
  lemma {:induction false} GatherOneMoreGroup(f: Message -> multiset<Failure>, g: Occurrence -> multiset<Failure>,
                                              ms: seq<Message>, ids: set<string>, id: string)
    requires id !in ids
    requires forall m: Message :: Reaches(m) && m.finding.value.osv == id ==> f(m) == g(OccurrenceOf(m))
    ensures Gather(f, Among(ms, ids + {id})) == Gather(f, Among(ms, ids)) + Gather(g, OccurrencesOf(ms, id))
  {
    if ms != [] {
      var init, m := ms[..|ms| - 1], ms[|ms| - 1];
      GatherOneMoreGroup(f, g, init, ids, id);
      var some, occs := Among(init, ids), OccurrencesOf(init, id);
      if Reaches(m) && m.finding.value.osv in ids {
        GatherOneMore(f, Among(init, ids + {id}), m);
        GatherOneMore(f, some, m);
        Swap(Gather(f, some), Gather(g, occs), f(m));
      } else if Reaches(m) && m.finding.value.osv == id {
        GatherOneMore(f, Among(init, ids + {id}), m);
        GatherOneMore(g, occs, OccurrenceOf(m));
        Regroup(Gather(f, some), Gather(g, occs), f(m));
      }
    }
  }

  ghost function FailuresAtEach(es: seq<Exemption>, id: string, now: int): Occurrence -> multiset<Failure> {
    occ => multiset(FailuresAt(es, id, occ, now))
  }

  lemma {:induction false} FailuresForIsGather(es: seq<Exemption>, id: string, occs: seq<Occurrence>, now: int)
    ensures multiset(FailuresFor(es, id, occs, now)) == Gather(FailuresAtEach(es, id, now), occs)
  {
    if occs != [] {
      FailuresForIsGather(es, id, occs[..|occs| - 1], now);
      SumOfConcat(FailuresFor(es, id, occs[..|occs| - 1], now), FailuresAt(es, id, occs[|occs| - 1], now));
    }
  }

  lemma SumOfConcat<T>(a: seq<T>, b: seq<T>)
    ensures multiset(a + b) == multiset(a) + multiset(b)
  {
  }

  lemma FailuresOfOneMoreGroup(es: seq<Exemption>, ms: seq<Message>, ids: set<string>, id: string, now: int)
    requires id !in ids
    ensures AllFailures(es, Among(ms, ids + {id}), now)
         == AllFailures(es, Among(ms, ids), now) + multiset(FailuresFor(es, id, OccurrencesOf(ms, id), now))
  {
    GatherOneMoreGroup(FailuresIn(es, now), FailuresAtEach(es, id, now), ms, ids, id);
    FailuresForIsGather(es, id, OccurrencesOf(ms, id), now);
  }

  lemma {:induction false} FailuresAmongAll(es: seq<Exemption>, ms: seq<Message>, ids: set<string>, now: int)
    requires forall k :: 0 <= k < |ms| && Reaches(ms[k]) ==> ms[k].finding.value.osv in ids
    ensures AllFailures(es, Among(ms, ids), now) == AllFailures(es, ms, now)
  {
    if ms != [] {
      var init, m := ms[..|ms| - 1], ms[|ms| - 1];
      FailuresAmongAll(es, init, ids, now);
      GatherOneMore(FailuresIn(es, now), Among(init, ids), m);
    }
  }

  lemma {:induction false} AmongNone(ms: seq<Message>)
    ensures Among(ms, {}) == []
  {
    if ms != [] {
      AmongNone(ms[..|ms| - 1]);
    }
  }

  lemma {:induction false} UsedInGroup(e: Exemption, ms: seq<Message>, id: string, now: int)
    ensures UsedBy(e, id, OccurrencesOf(ms, id), now) <==>
      exists k :: 0 <= k < |ms| && Reaches(ms[k])
        && ms[k].finding.value.osv == id && Approves(e, id, OccurrenceOf(ms[k]), now)
  {
    if ms != [] {
      var init, m := ms[..|ms| - 1], ms[|ms| - 1];
      UsedInGroup(e, init, id, now);
      if Reaches(m) && m.finding.value.osv == id {
        UsedByOneMore(e, id, OccurrencesOf(init, id), OccurrenceOf(m), now);
      }
    }
  }

  // The groups taken so far have used the exemption.
  ghost predicate UsedAmong(e: Exemption, ms: seq<Message>, ids: set<string>, now: int) {
    exists id :: id in ids && UsedBy(e, id, OccurrencesOf(ms, id), now)
  }

  lemma UsedAmongAll(e: Exemption, ms: seq<Message>, ids: set<string>, now: int)
    requires forall k :: 0 <= k < |ms| && Reaches(ms[k]) ==> ms[k].finding.value.osv in ids
    ensures UsedAmong(e, ms, ids, now) <==> UsedByAny(e, ms, now)
  {
    forall id | id in ids
      ensures UsedBy(e, id, OccurrencesOf(ms, id), now) ==> UsedByAny(e, ms, now)
    {
      UsedInGroup(e, ms, id, now);
    }
    forall k | 0 <= k < |ms| && Reaches(ms[k]) && Approves(e, ms[k].finding.value.osv, OccurrenceOf(ms[k]), now)
      ensures UsedAmong(e, ms, ids, now)
    {
      UsedInGroup(e, ms, ms[k].finding.value.osv, now);
    }
  }

  // The loop of evaluate over the groups (main.go:163-167), taken in any order as Go ranges
  // over a map: neither the failures nor the used exemptions depend on it.
  method CheckGroups(es: seq<Exemption>, reachable: map<string, seq<Occurrence>>, used: array<bool>, now: int,
                     ghost ms: seq<Message>)
    returns (failures: seq<Failure>)
    requires Groups(reachable, ms)
    requires used.Length == |es| && forall i :: 0 <= i < |es| ==> !used[i]
    modifies used
    ensures multiset(failures) == AllFailures(es, Among(ms, reachable.Keys), now)
    ensures forall i :: 0 <= i < |es| ==> used[i] == UsedAmong(es[i], ms, reachable.Keys, now)
  {
    failures := [];
    var todo := reachable.Keys;
    ghost var done: set<string> := {};
    AmongNone(ms);
    while todo != {}
      invariant done + todo == reachable.Keys && done !! todo
      invariant multiset(failures) == AllFailures(es, Among(ms, done), now)
      invariant forall i :: 0 <= i < |es| ==> used[i] == UsedAmong(es[i], ms, done, now)
      decreases todo
    {
      var id :| id in todo;
      var covered, msgs := CoveredByExceptions(id, reachable[id], es, used, now);
      FailuresOfOneMoreGroup(es, ms, done, id, now);
      SumOfConcat(failures, msgs);
      if !covered {
        failures := failures + msgs;
      }
      todo, done := todo - {id}, done + {id};
    }
    assert done == reachable.Keys;
  }

  // The exemptions that the scan does not need, in list order.
  ghost function NotUsed(es: seq<Exemption>, ms: seq<Message>, now: int): seq<Exemption> {
    if es == [] then []
    else
      var n := |es| - 1;
      var before := NotUsed(es[..n], ms, now);
      if UsedByAny(es[n], ms, now) then before else before + [es[n]]
  }

  // evaluate (main.go:158-193): what it reports as failures and what it warns about.
  method Evaluate(es: seq<Exemption>, reachable: map<string, seq<Occurrence>>, now: int, ghost ms: seq<Message>)
    returns (failures: seq<Failure>, unused: seq<Exemption>)
    requires Groups(reachable, ms)
    ensures multiset(failures) == AllFailures(es, ms, now)
    ensures unused == NotUsed(es, ms, now)
  {
    var usedException := new bool[|es|](_ => false);
    failures := CheckGroups(es, reachable, usedException, now, ms);
    FailuresAmongAll(es, ms, reachable.Keys, now);
    unused := [];
    for i := 0 to |es|
      invariant unused == NotUsed(es[..i], ms, now)
      modifies {}
    {
      UsedAmongAll(es[i], ms, reachable.Keys, now);
      assert es[..i + 1][..i] == es[..i];
      if usedException[i] {
        continue;
      }
      unused := unused + [es[i]];
    }
    assert es[..|es|] == es;
  }

  datatype Outcome =
    | Pass | BadFlags | NoExceptionsFile | NoInput | Malformed | NoOutput
    | Unapproved(count: nat)
    | ReportLost              // a line could not be written to standard output

  // The first n writes to standard output succeed.
  ghost predicate Written(stdout: nat -> bool, n: nat) {
    forall k: nat :: k < n ==> stdout(k)
  }

  // The report at the end of evaluate (main.go:169-192): a warning for each unused exemption,
  // then each failure or one line of success. stdout says which write succeeds.
  method Report(stdout: nat -> bool, unused: nat, failures: nat) returns (outcome: Outcome)
    ensures outcome == Pass <==> failures == 0 && Written(stdout, unused + 1)
    ensures outcome == Unapproved(failures) <==> failures > 0 && Written(stdout, unused + failures)
    ensures outcome in {Pass, Unapproved(failures), ReportLost}
  {
    for i := 0 to unused
      invariant Written(stdout, i)
    {
      if !stdout(i) {
        return ReportLost;
      }
    }
    if failures > 0 {
      for i := 0 to failures
        invariant Written(stdout, unused + i)
      {
        if !stdout(unused + i) {
          return ReportLost;
        }
      }
      return Unapproved(failures);
    }
    outcome := if stdout(unused) then Pass else ReportLost;
  }

  // run (main.go:77-105); None stands for a file that cannot be read.
  method Run(flags: bool, exceptions: Option<seq<Exemption>>, input: Option<Stream>, now: int, stdout: nat -> bool)
    returns (outcome: Outcome, unused: seq<Exemption>)
    // The exact pass condition: the report, its warnings included, must get through as well.
    ensures outcome.Pass? <==>
      && flags && exceptions.Some? && input.Some?
      && !input.value.malformed && input.value.messages != []
      && AllAcceptable(exceptions.value, input.value.messages, now)
      && Written(stdout, |NotUsed(exceptions.value, input.value.messages, now)| + 1)
    ensures outcome.Unapproved? ==>
      && exceptions.Some? && input.Some?
      && outcome.count == |AllFailures(exceptions.value, input.value.messages, now)|
    ensures outcome.BadFlags? <==> !flags
    ensures outcome.NoExceptionsFile? <==> flags && exceptions.None?
    ensures outcome.NoInput? <==> flags && exceptions.Some? && input.None?
    ensures outcome.Malformed? <==> flags && exceptions.Some? && input.Some? && input.value.malformed
    ensures outcome.NoOutput? <==> flags && exceptions.Some? && input == Some(Stream([], false))
    ensures outcome.Pass? ==> unused == NotUsed(exceptions.value, input.value.messages, now)
  {
    unused := [];
    if !flags {
      return BadFlags, unused;
    }
    if exceptions.None? {
      return NoExceptionsFile, unused;
    }
    if input.None? {
      return NoInput, unused;
    }
    var count, reachable := ParseReachableFindings(input.value);
    if reachable.None? {
      return Malformed, unused;
    }
    if count == 0 {
      return NoOutput, unused;
    }
    var failures, rest := Evaluate(exceptions.value, reachable.value, now, input.value.messages);
    unused := rest;
    NoFailuresIffAllAcceptable(exceptions.value, input.value.messages, now);
    outcome := Report(stdout, |unused|, |failures|);
  }

  // --- Independence of the message order ---------------------------------------------------

  // The same messages in another order give the same failures, use the same exemptions and
  // are accepted alike.
  lemma OrderOfMessagesIsIrrelevant(es: seq<Exemption>, ms: seq<Message>, ps: seq<Message>, now: int)
    requires multiset(ms) == multiset(ps)
    ensures AllFailures(es, ms, now) == AllFailures(es, ps, now)
    ensures forall e: Exemption :: UsedByAny(e, ms, now) <==> UsedByAny(e, ps, now)
    ensures NotUsed(es, ms, now) == NotUsed(es, ps, now)
    ensures AllAcceptable(es, ms, now) <==> AllAcceptable(es, ps, now)
  {
    GatherPermutation(FailuresIn(es, now), ms, ps);
    forall e: Exemption
      ensures UsedByAny(e, ms, now) <==> UsedByAny(e, ps, now)
    {
      UsedInPermutation(e, ms, ps, now);
      UsedInPermutation(e, ps, ms, now);
    }
    SameUsesSameWarnings(es, ms, ps, now);
    NoFailuresIffAllAcceptable(es, ms, now);
    NoFailuresIffAllAcceptable(es, ps, now);
  }

  lemma {:induction false} SameUsesSameWarnings(es: seq<Exemption>, ms: seq<Message>, ps: seq<Message>, now: int)
    requires forall e: Exemption :: UsedByAny(e, ms, now) <==> UsedByAny(e, ps, now)
    ensures NotUsed(es, ms, now) == NotUsed(es, ps, now)
  {
    if es != [] {
      SameUsesSameWarnings(es[..|es| - 1], ms, ps, now);
    }
  }

  lemma UsedInPermutation(e: Exemption, ms: seq<Message>, ps: seq<Message>, now: int)
    requires multiset(ms) == multiset(ps)
    ensures UsedByAny(e, ms, now) ==> UsedByAny(e, ps, now)
  {
    if UsedByAny(e, ms, now) {
      var k :| 0 <= k < |ms| && Reaches(ms[k]) && Approves(e, ms[k].finding.value.osv, OccurrenceOf(ms[k]), now);
      assert ms[k] in multiset(ps);
      var j :| 0 <= j < |ps| && ps[j] == ms[k];
    }
  }

  // --- Conservation of the grouping ----------------------------------------------------------

  function ReachableCount(ms: seq<Message>): nat {
    if ms == [] then 0 else ReachableCount(ms[..|ms| - 1]) + if Reaches(ms[|ms| - 1]) then 1 else 0
  }

  ghost function TotalGrouped(ms: seq<Message>, ids: set<string>): nat
    decreases |ids|
  {
    if ids == {} then 0
    else
      var id :| id in ids;
      |OccurrencesOf(ms, id)| + TotalGrouped(ms, ids - {id})
  }

  lemma {:induction false} TotalOfOneMore(ms: seq<Message>, m: Message, ids: set<string>)
    ensures TotalGrouped(ms + [m], ids) ==
      TotalGrouped(ms, ids) + if Reaches(m) && m.finding.value.osv in ids then 1 else 0
    decreases |ids|
  {
    assert (ms + [m])[..|ms|] == ms;
    if ids != {} {
      var id :| id in ids && TotalGrouped(ms, ids) == |OccurrencesOf(ms, id)| + TotalGrouped(ms, ids - {id});
      TotalSplit(ms + [m], ids, id);
      TotalOfOneMore(ms, m, ids - {id});
    }
  }

  lemma {:induction false} TotalSplit(ms: seq<Message>, ids: set<string>, id: string)
    requires id in ids
    ensures TotalGrouped(ms, ids) == |OccurrencesOf(ms, id)| + TotalGrouped(ms, ids - {id})
    decreases |ids|
  {
    var x :| x in ids && TotalGrouped(ms, ids) == |OccurrencesOf(ms, x)| + TotalGrouped(ms, ids - {x});
    if x != id {
      TotalSplit(ms, ids - {x}, id);
      TotalSplit(ms, ids - {id}, x);
      assert ids - {x} - {id} == ids - {id} - {x};
    }
  }

  lemma {:induction false} NothingGrouped(ids: set<string>)
    ensures TotalGrouped([], ids) == 0
    decreases |ids|
  {
    if ids != {} {
      var id :| id in ids && TotalGrouped([], ids) == |OccurrencesOf([], id)| + TotalGrouped([], ids - {id});
      assert OccurrencesOf([], id) == [];
      NothingGrouped(ids - {id});
    }
  }

  lemma {:induction false} CountedOnce(ms: seq<Message>, ids: set<string>)
    requires forall k :: 0 <= k < |ms| && Reaches(ms[k]) ==> ms[k].finding.value.osv in ids
    ensures TotalGrouped(ms, ids) == ReachableCount(ms)
  {
    if ms == [] {
      NothingGrouped(ids);
    } else {
      var init, m := ms[..|ms| - 1], ms[|ms| - 1];
      CountedOnce(init, ids);
      TotalOfOneMore(init, m, ids);
      assert init + [m] == ms;
    }
  }

  ghost function TotalSize(groups: map<string, seq<Occurrence>>, ids: set<string>): nat
    requires ids <= groups.Keys
    decreases |ids|
  {
    if ids == {} then 0
    else
      var id :| id in ids;
      |groups[id]| + TotalSize(groups, ids - {id})
  }

  lemma {:induction false} SizesOfGroups(groups: map<string, seq<Occurrence>>, ms: seq<Message>, ids: set<string>)
    requires ids <= groups.Keys && forall id <- ids :: groups[id] == OccurrencesOf(ms, id)
    ensures TotalSize(groups, ids) == TotalGrouped(ms, ids)
    decreases |ids|
  {
    if ids != {} {
      var id :| id in ids && TotalSize(groups, ids) == |groups[id]| + TotalSize(groups, ids - {id});
      SizesOfGroups(groups, ms, ids - {id});
      TotalSplit(ms, ids, id);
    }
  }

  // The groups together hold exactly one occurrence per message with a non-empty trace.
  lemma GroupingConserves(reachable: map<string, seq<Occurrence>>, ms: seq<Message>)
    requires Groups(reachable, ms)
    ensures TotalSize(reachable, reachable.Keys) == ReachableCount(ms)
  {
    CountedOnce(ms, reachable.Keys);
    SizesOfGroups(reachable, ms, reachable.Keys);
  }

  // The comment on coveredByExceptions asks for one matching exception that has not expired.
  // The code asks for more: a second, expired match fails the finding.
  lemma ExpiredDuplicateFails()
    ensures var e := Exemption("GO-1", "m", "m/p", Some(10));
      var late := e.(expires := Some(1));
      var m := Message(Some(Finding("GO-1", [Frame("m", "m/p", "f")])));
      && Meets(e, m.finding.value) && Acceptable([e], m, 5)
      && !Acceptable([e, late], m, 5) && Expired("GO-1", late) in FailuresOfMessage([e, late], m, 5)
  {
    var e := Exemption("GO-1", "m", "m/p", Some(10));
    var late := e.(expires := Some(1));
    var m := Message(Some(Finding("GO-1", [Frame("m", "m/p", "f")])));
    assert Meets([e][0], m.finding.value);
    assert Meets([e, late][1], m.finding.value);
    assert late in [e, late];
    FailuresAreDeserved([e, late], m, 5, Expired("GO-1", late));
  }
}
