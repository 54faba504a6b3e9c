/**
 The bounded order scheduler: due orders start oldest first, at most four hostnames are in flight, and
 no hostname ever has two live orders, however scheduling calls and completions interleave.
 */
module Scheduler {
  import opened Text

  const MAX_CONCURRENT := 4

  /** A hostname whose order is due; None is the zero time, due before everything. */
  datatype Candidate = Candidate(hostname: string, due: Option<int>)

  /** Not later: the order `sort.SliceStable` arranges the candidates in. */
  function NoLater(a: Candidate, b: Candidate): bool {
    a.due.None? || (b.due.Some? && a.due.value <= b.due.value)
  }

  function Hostnames(cs: seq<Candidate>): set<string> {
    set c | c in cs :: c.hostname
  }

  /** The candidates a call starts, from a list already in order. */
  function Pick(inflight: set<string>, cs: seq<Candidate>): seq<Candidate>
    decreases |cs|
  {
    if cs == [] || |inflight| >= MAX_CONCURRENT then []
    else if cs[0].hostname in inflight then Pick(inflight, cs[1..])
    else [cs[0]] + Pick(inflight + {cs[0].hostname}, cs[1..])
  }

  function Started(inflight: set<string>, candidates: seq<Candidate>): seq<Candidate> {
    Pick(inflight, StableSort(candidates, NoLater))
  }

  // ---------------------------------------------------------------- what a call starts

  ghost predicate DistinctHostnames(cs: seq<Candidate>) {
    forall i, j :: 0 <= i < j < |cs| ==> cs[i].hostname != cs[j].hostname
  }

  /** Started hostnames are new and distinct. */
  lemma {:induction false} PickFresh(inflight: set<string>, cs: seq<Candidate>)
    ensures var started := Pick(inflight, cs);
            && (forall c :: c in started ==> c in cs && c.hostname !in inflight)
            && DistinctHostnames(started)
    decreases |cs|
  {
    if cs != [] && |inflight| < MAX_CONCURRENT {
      if cs[0].hostname in inflight {
        PickFresh(inflight, cs[1..]);
      } else {
        var rest := Pick(inflight + {cs[0].hostname}, cs[1..]);
        PickFresh(inflight + {cs[0].hostname}, cs[1..]);
        DistinctCons(cs[0], rest);
      }
    }
  }

  lemma DistinctCons(c: Candidate, rest: seq<Candidate>)
    requires DistinctHostnames(rest) && forall x :: x in rest ==> x.hostname != c.hostname
    ensures DistinctHostnames([c] + rest)
  {}

  /** Every start takes one place, and the limit holds. */
  lemma {:induction false} PickBounded(inflight: set<string>, cs: seq<Candidate>)
    requires |inflight| <= MAX_CONCURRENT
    ensures var started := Pick(inflight, cs);
            |Occupied(inflight, started)| == |inflight| + |started| <= MAX_CONCURRENT
    decreases |cs|
  {
    var started := Pick(inflight, cs);
    if cs == [] || |inflight| >= MAX_CONCURRENT {
      assert inflight + Hostnames(started) == inflight;
    } else if cs[0].hostname in inflight {
      PickBounded(inflight, cs[1..]);
    } else {
      var more := inflight + {cs[0].hostname};
      PickBounded(more, cs[1..]);
      HostnamesCons(cs[0], Pick(more, cs[1..]));
      assert inflight + Hostnames(started) == more + Hostnames(Pick(more, cs[1..]));
    }
  }

  /** One turn of the scheduling loop. */
  lemma PickAt(inflight: set<string>, cs: seq<Candidate>, i: nat)
    requires i < |cs| && |inflight| < MAX_CONCURRENT
    ensures Pick(inflight, cs[i..]) ==
            if cs[i].hostname in inflight then Pick(inflight, cs[i + 1..])
            else [cs[i]] + Pick(inflight + {cs[i].hostname}, cs[i + 1..])
  {
    assert cs[i..][1..] == cs[i + 1..];
  }

  /** A candidate left out is in flight, or the limit is reached and nothing started is due later than it. */
  lemma {:induction false} PickOldest(inflight: set<string>, cs: seq<Candidate>, c: Candidate)
    requires |inflight| <= MAX_CONCURRENT && SortedBy(cs, NoLater) && c in cs
    ensures var started := Pick(inflight, cs);
            || c.hostname in Occupied(inflight, started)
            || (|inflight| + |started| == MAX_CONCURRENT && forall s :: s in started ==> NoLater(s, c))
    decreases |cs|
  {
    if |inflight| < MAX_CONCURRENT && c != cs[0] {
      var rest := cs[1..];
      assert forall i :: 0 <= i < |rest| ==> rest[i] == cs[i + 1];
      assert SortedBy(rest, NoLater);
      assert c in rest;
      if cs[0].hostname in inflight {
        PickOldest(inflight, rest, c);
      } else {
        var more := inflight + {cs[0].hostname};
        PickOldest(more, rest, c);
        HeadNoLater(cs, c);
        HostnamesCons(cs[0], Pick(more, rest));
      }
    } else if |inflight| < MAX_CONCURRENT && cs[0].hostname !in inflight {
      HostnamesCons(cs[0], Pick(inflight + {cs[0].hostname}, cs[1..]));
    }
  }

  lemma HeadNoLater(cs: seq<Candidate>, c: Candidate)
    requires SortedBy(cs, NoLater) && c in cs
    ensures NoLater(cs[0], c)
  {
    var i :| 0 <= i < |cs| && cs[i] == c;
    assert i > 0 ==> NoLater(cs[0], cs[i]);
  }

  lemma HostnamesCons(c: Candidate, rest: seq<Candidate>)
    ensures Hostnames([c] + rest) == {c.hostname} + Hostnames(rest)
  {
    assert forall x :: x in [c] + rest <==> x == c || x in rest;
  }

  /** The hostnames in flight after `started` joined them. */
  function Occupied(inflight: set<string>, started: seq<Candidate>): set<string> {
    inflight + Hostnames(started)
  }

  lemma OccupiedSnoc(inflight: set<string>, started: seq<Candidate>, c: Candidate)
    ensures Occupied(inflight, []) == inflight
    ensures Occupied(inflight, started + [c]) == Occupied(inflight, started) + {c.hostname}
  {
    assert forall x :: x in started + [c] <==> x == c || x in started;
  }

  lemma Shift(started: seq<Candidate>, rest: seq<Candidate>)
    requires rest != []
    ensures started + rest == (started + [rest[0]]) + rest[1..]
  {}

  /** An order due earlier, or at the same time; the zero time comes before everything. */
  ghost predicate DueFirst(a: Option<int>, b: Option<int>) {
    a == None || (b != None && a.value <= b.value)
  }

  lemma {:induction false} PickOrdered(inflight: set<string>, cs: seq<Candidate>)
    requires SortedBy(cs, NoLater)
    ensures SortedBy(Pick(inflight, cs), NoLater)
    decreases |cs|
  {
    if cs != [] && |inflight| < MAX_CONCURRENT {
      var rest := cs[1..];
      assert forall i :: 0 <= i < |rest| ==> rest[i] == cs[i + 1];
      if cs[0].hostname in inflight {
        PickOrdered(inflight, rest);
      } else {
        var more := inflight + {cs[0].hostname};
        PickOrdered(more, rest);
        PickFresh(more, rest);
        forall c | c in Pick(more, rest) ensures NoLater(cs[0], c) {
          HeadNoLater(cs, c);
        }
        ConsOrdered(cs[0], Pick(more, rest));
      }
    }
  }

  lemma ConsOrdered(c: Candidate, rest: seq<Candidate>)
    requires SortedBy(rest, NoLater) && forall x :: x in rest ==> NoLater(c, x)
    ensures SortedBy([c] + rest, NoLater)
  {}

  lemma DuesOrdered(started: seq<Candidate>)
    requires SortedBy(started, NoLater)
    ensures forall i, j :: 0 <= i < j < |started| ==> DueFirst(started[i].due, started[j].due)
  {}

  lemma NoLaterPreorder()
    ensures TotalPreorder(NoLater)
  {}

  /** What one scheduling call promises, on the candidates in the order they came. */
  lemma CallPromises(inflight: set<string>, candidates: seq<Candidate>)
    requires |inflight| <= 4
    ensures var started := Started(inflight, candidates);
            var after := Occupied(inflight, started);
            && |after| == |inflight| + |started| <= 4
            && DistinctHostnames(started) && (forall s :: s in started ==> s in candidates && s.hostname !in inflight)
            && (forall i, j :: 0 <= i < j < |started| ==> DueFirst(started[i].due, started[j].due))
            && (forall c :: c in candidates && c.hostname !in after ==>
                  |after| == 4 && forall s :: s in started ==> DueFirst(s.due, c.due))
  {
    var sorted := StableSort(candidates, NoLater);
    SortMembers(candidates, NoLater);
    NoLaterPreorder();
    StableSortSorted(candidates, NoLater);
    PickBounded(inflight, sorted);
    PickFresh(inflight, sorted);
    PickOrdered(inflight, sorted);
    DuesOrdered(Pick(inflight, sorted));
    forall c | c in candidates && c.hostname !in Occupied(inflight, Started(inflight, candidates))
      ensures |inflight| + |Started(inflight, candidates)| == 4
              && forall s :: s in Started(inflight, candidates) ==> DueFirst(s.due, c.due)
    {
      PickOldest(inflight, sorted, c);
    }
  }

  // ---------------------------------------------------------------- the scheduler

  class OrderScheduler {
    var inflight: set<string>

    constructor ()
      ensures inflight == {}
    {
      inflight := {};
    }

    /** `scheduleOrders`: returns the candidates whose order goroutine was started. */
    method Schedule(hasIssuer: bool, candidates: seq<Candidate>) returns (started: seq<Candidate>)
      modifies this
      ensures started == if hasIssuer then Started(old(inflight), candidates) else []
      ensures inflight == Occupied(old(inflight), started)
      ensures |old(inflight)| <= MAX_CONCURRENT ==> |inflight| <= MAX_CONCURRENT
    {
      if |inflight| <= MAX_CONCURRENT { PickBounded(inflight, StableSort(candidates, NoLater)); }
      OccupiedSnoc(inflight, [], Candidate("", None));
      started := [];
      if !hasIssuer || candidates == [] {
        assert StableSort<Candidate>([], NoLater) == [];
        return;
      }
      started := StartInOrder(StableSort(candidates, NoLater));
    }

    /** The locked loop. */
    method StartInOrder(sorted: seq<Candidate>) returns (started: seq<Candidate>)
      modifies this
      ensures started == Pick(old(inflight), sorted)
      ensures inflight == Occupied(old(inflight), started)
    {
      started := [];
      ghost var rest := Pick(inflight, sorted);
      assert Occupied(inflight, []) == inflight;
      assert sorted[0..] == sorted;
      for i := 0 to |sorted|
        invariant inflight == Occupied(old(inflight), started)
        invariant rest == Pick(inflight, sorted[i..])
        invariant started + rest == Pick(old(inflight), sorted)
      {
        if |inflight| >= MAX_CONCURRENT {
          return;
        }
        PickAt(inflight, sorted, i);
        if sorted[i].hostname in inflight {
          continue;
        }
        OccupiedSnoc(old(inflight), started, sorted[i]);
        Shift(started, rest);
        inflight := inflight + {sorted[i].hostname};
        started := started + [sorted[i]];
        rest := rest[1..];
      }
    }

    /** The deferred end of `runOrder`. */
    method Finish(hostname: string)
      modifies this
      ensures inflight == old(inflight) - {hostname}
    {
      inflight := inflight - {hostname};
    }
  }

  // ---------------------------------------------------------------- interleavings

  /** The scheduler's set, and the order goroutines that are really running. */
  datatype Orders = Orders(inflight: set<string>, live: multiset<string>)

  datatype Step = ScheduleStep(hasIssuer: bool, candidates: seq<Candidate>) | FinishStep(hostname: string)

  function Launched(started: seq<Candidate>): multiset<string> {
    if started == [] then multiset{} else multiset{started[0].hostname} + Launched(started[1..])
  }

  /** Only a live order can finish. */
  predicate Enabled(o: Orders, step: Step) {
    step.FinishStep? ==> step.hostname in o.live
  }

  function Apply(o: Orders, step: Step): Orders {
    match step
    case ScheduleStep(hasIssuer, candidates) =>
      var started := if hasIssuer then Started(o.inflight, candidates) else [];
      Orders(Occupied(o.inflight, started), o.live + Launched(started))
    case FinishStep(hostname) => Orders(o.inflight - {hostname}, o.live - multiset{hostname})
  }

  ghost predicate Possible(o: Orders, steps: seq<Step>)
    decreases |steps|
  {
    steps == [] || (Enabled(o, steps[0]) && Possible(Apply(o, steps[0]), steps[1..]))
  }

  function Run(o: Orders, steps: seq<Step>): Orders
    decreases |steps|
  {
    if steps == [] then o else Run(Apply(o, steps[0]), steps[1..])
  }

  /** The set is exactly the hostnames with a live order, each has one, and there are at most four. */
  ghost predicate Inv(o: Orders) {
    && |o.inflight| <= MAX_CONCURRENT
    && forall h :: o.live[h] == if h in o.inflight then 1 else 0
  }

  lemma {:induction false} LaunchedOnce(started: seq<Candidate>, h: string)
    requires DistinctHostnames(started)
    ensures Launched(started)[h] == if h in Hostnames(started) then 1 else 0
  {
    if started != [] {
      var rest := started[1..];
      assert forall i :: 0 <= i < |rest| ==> rest[i] == started[i + 1];
      LaunchedOnce(rest, h);
      assert started == [started[0]] + rest;
      HostnamesCons(started[0], rest);
      assert started[0].hostname !in Hostnames(rest);
    }
  }

  lemma StepKeeps(o: Orders, step: Step)
    requires Inv(o) && Enabled(o, step)
    ensures Inv(Apply(o, step))
  {
    match step
    case ScheduleStep(hasIssuer, candidates) =>
      var sorted := StableSort(candidates, NoLater);
      PickBounded(o.inflight, sorted);
      PickFresh(o.inflight, sorted);
      var started := if hasIssuer then Started(o.inflight, candidates) else [];
      forall h ensures Apply(o, step).live[h] == if h in Apply(o, step).inflight then 1 else 0 {
        LaunchedOnce(started, h);
      }
    case FinishStep(hostname) =>
      assert o.live[hostname] > 0;
      assert o.inflight == (o.inflight - {hostname}) + {hostname};
  }

  /** In every interleaving at most four orders are live, and no hostname has two. */
  lemma {:induction false} RunBounded(o: Orders, steps: seq<Step>)
    requires Inv(o) && Possible(o, steps)
    ensures Inv(Run(o, steps))
    ensures |Run(o, steps).live| <= 4
    ensures forall h :: Run(o, steps).live[h] <= 1
    decreases |steps|
  {
    if steps == [] {
      LiveSize(o.inflight, o.live);
    } else {
      StepKeeps(o, steps[0]);
      RunBounded(Apply(o, steps[0]), steps[1..]);
    }
  }

  lemma {:induction false} LiveSize(s: set<string>, live: multiset<string>)
    requires forall h :: live[h] == if h in s then 1 else 0
    ensures |live| == |s|
    decreases |s|
  {
    if s == {} {
      assert live == multiset{};
    } else {
      var h :| h in s;
      LiveSize(s - {h}, live - multiset{h});
      assert live == (live - multiset{h}) + multiset{h};
    }
  }
}
