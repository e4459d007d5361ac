/** The upstream metrics: four updates for each observation, interleaved with those of other requests
    and with scrapes. A labelled counter is the multiset of the labels it was incremented for, a
    histogram the multiset of the values it was given. */
module Metrics {
  import opened Upstream

  type Label = (Verb, int)

  function LabelOf(o: Observation): Label {
    (o.verb, o.status)
  }

  /** The collector's four metrics. */
  datatype Metrics = Metrics(
    total: multiset<Label>, duration: multiset<real>, reqSize: multiset<real>, respSize: multiset<real>)

  const Empty := Metrics(multiset{}, multiset{}, multiset{}, multiset{})

  /** The k-th of the four updates of an observation. */
  function Update(m: Metrics, o: Observation, k: nat): Metrics
    requires k < 4
  {
    if k == 0 then m.(total := m.total + multiset{LabelOf(o)})
    else if k == 1 then m.(duration := m.duration + multiset{o.seconds})
    else if k == 2 then m.(reqSize := m.reqSize + multiset{o.inBytes as real})
    else m.(respSize := m.respSize + multiset{o.outBytes as real})
  }

  /** The collector object, whose method updates the four metrics one after the other. */
  class UpstreamCollector {
    var total: multiset<Label>
    var duration: multiset<real>
    var reqSize: multiset<real>
    var respSize: multiset<real>

    ghost function Shown(): Metrics
      reads this
    {
      Metrics(total, duration, reqSize, respSize)
    }

    constructor ()
      ensures Shown() == Empty
    {
      total, duration, reqSize, respSize := multiset{}, multiset{}, multiset{}, multiset{};
    }

    /** Four separate updates; seen is what a scrape finds after each of them. */
    method ObserveUpstream(r: Observation) returns (ghost seen: seq<Metrics>)
      modifies this
      ensures |seen| == 4 && seen[0] == Update(old(Shown()), r, 0)
      ensures forall k :: 0 < k < 4 ==> seen[k] == Update(seen[k - 1], r, k)
      ensures Shown() == seen[3]
      ensures total == old(total) + multiset{(r.verb, r.status)}
      ensures duration == old(duration) + multiset{r.seconds}
      ensures reqSize == old(reqSize) + multiset{r.inBytes as real}
      ensures respSize == old(respSize) + multiset{r.outBytes as real}
    {
      total := total + multiset{LabelOf(r)};
      seen := [Shown()];
      duration := duration + multiset{r.seconds};
      seen := seen + [Shown()];
      reqSize := reqSize + multiset{r.inBytes as real};
      seen := seen + [Shown()];
      respSize := respSize + multiset{r.outBytes as real};
      seen := seen + [Shown()];
    }
  }

  // ---------- concurrent observations ----------

  /** A call of the method: its observation and how many of its four updates are done. */
  datatype Activity = Activity(observation: Observation, done: nat)

  datatype State = State(metrics: Metrics, calls: seq<Activity>)

  datatype Event = Enter(observation: Observation) | Advance(i: nat)

  predicate Enabled(s: State, e: Event) {
    e.Advance? ==> e.i < |s.calls| && s.calls[e.i].done < 4
  }

  function Next(s: State, e: Event): State
    requires Enabled(s, e)
  {
    match e
    case Enter(o) => s.(calls := s.calls + [Activity(o, 0)])
    case Advance(i) =>
      var c := s.calls[i];
      State(Update(s.metrics, c.observation, c.done), Advanced(s.calls, i))
  }

  /** The labels or values of the calls that are past their k-th update. */
  function Past<T>(calls: seq<Activity>, k: nat, f: Observation -> T): multiset<T> {
    if calls == [] then multiset{}
    else
      var rest := Past(calls[..|calls| - 1], k, f);
      var c := calls[|calls| - 1];
      if c.done > k then rest + multiset{f(c.observation)} else rest
  }

  function Seconds(o: Observation): real { o.seconds }
  function InSize(o: Observation): real { o.inBytes as real }
  function OutSize(o: Observation): real { o.outBytes as real }

  /** Every metric holds exactly what the calls past its update put there. */
  ghost predicate Booked(m: Metrics, calls: seq<Activity>) {
    && m.total == Past(calls, 0, LabelOf)
    && m.duration == Past(calls, 1, Seconds)
    && m.reqSize == Past(calls, 2, InSize)
    && m.respSize == Past(calls, 3, OutSize)
  }

  predicate Bounded(calls: seq<Activity>) {
    forall i :: 0 <= i < |calls| ==> calls[i].done <= 4
  }

  ghost predicate Accounted(s: State) {
    Booked(s.metrics, s.calls) && Bounded(s.calls)
  }

  lemma PastEnter<T>(calls: seq<Activity>, o: Observation, k: nat, f: Observation -> T)
    ensures Past(calls + [Activity(o, 0)], k, f) == Past(calls, k, f)
  {
    assert (calls + [Activity(o, 0)])[..|calls|] == calls;
  }

  function Advanced(calls: seq<Activity>, i: nat): seq<Activity>
    requires i < |calls|
  {
    calls[i := calls[i].(done := calls[i].done + 1)]
  }

  lemma AdvancedSplits(calls: seq<Activity>, i: nat)
    requires i < |calls|
    ensures var n := |calls| - 1; var next := Advanced(calls, i);
      if i < n then next[..n] == Advanced(calls[..n], i) && next[n] == calls[n]
      else next[..n] == calls[..n] && next[n] == calls[n].(done := calls[n].done + 1)
  {
  }

  lemma {:induction false} PastAdvance<T>(calls: seq<Activity>, i: nat, k: nat, f: Observation -> T)
    requires i < |calls|
    ensures Past(Advanced(calls, i), k, f) ==
            if calls[i].done == k then Past(calls, k, f) + multiset{f(calls[i].observation)} else Past(calls, k, f)
  {
    AdvancedSplits(calls, i);
    var n := |calls| - 1;
    if i < n {
      PastAdvance(calls[..n], i, k, f);
    }
  }

  lemma AdvanceIsBooked(m: Metrics, calls: seq<Activity>, i: nat)
    requires Booked(m, calls) && i < |calls| && calls[i].done < 4
    ensures Booked(Update(m, calls[i].observation, calls[i].done), Advanced(calls, i))
  {
    PastAdvance(calls, i, 0, LabelOf);
    PastAdvance(calls, i, 1, Seconds);
    PastAdvance(calls, i, 2, InSize);
    PastAdvance(calls, i, 3, OutSize);
  }

  lemma EnterIsBooked(m: Metrics, calls: seq<Activity>, o: Observation)
    requires Booked(m, calls)
    ensures Booked(m, calls + [Activity(o, 0)])
  {
    PastEnter(calls, o, 0, LabelOf);
    PastEnter(calls, o, 1, Seconds);
    PastEnter(calls, o, 2, InSize);
    PastEnter(calls, o, 3, OutSize);
  }

  lemma StepKeepsAccount(s: State, e: Event)
    requires Accounted(s) && Enabled(s, e)
    ensures Accounted(Next(s, e))
  {
    match e
    case Enter(o) => EnterIsBooked(s.metrics, s.calls, o);
    case Advance(i) => AdvanceIsBooked(s.metrics, s.calls, i);
  }

  /** The state after a run of events, None when one of them cannot happen. */
  ghost predicate Runs(s: State, events: seq<Event>, end: State)
    decreases |events|
  {
    if events == [] then end == s
    else Enabled(s, events[0]) && Runs(Next(s, events[0]), events[1..], end)
  }

  const Start := State(Empty, [])

  lemma {:induction false} RunKeepsAccount(s: State, events: seq<Event>, end: State)
    requires Accounted(s) && Runs(s, events, end)
    ensures Accounted(end)
    decreases |events|
  {
    if events != [] {
      StepKeepsAccount(s, events[0]);
      RunKeepsAccount(Next(s, events[0]), events[1..], end);
    }
  }

  /** The calls past their k-th update, counted. */
  function CountPast(calls: seq<Activity>, k: nat): nat {
    if calls == [] then 0
    else CountPast(calls[..|calls| - 1], k) + if calls[|calls| - 1].done > k then 1 else 0
  }

  function InFlight(calls: seq<Activity>): nat {
    if calls == [] then 0
    else InFlight(calls[..|calls| - 1]) + if 0 < calls[|calls| - 1].done < 4 then 1 else 0
  }

  lemma {:induction false} PastSize<T>(calls: seq<Activity>, k: nat, f: Observation -> T)
    ensures |Past(calls, k, f)| == CountPast(calls, k)
  {
    if calls != [] {
      PastSize(calls[..|calls| - 1], k, f);
    }
  }

  lemma {:induction false} CountsDescend(calls: seq<Activity>)
    requires forall i :: 0 <= i < |calls| ==> calls[i].done <= 4
    ensures CountPast(calls, 0) >= CountPast(calls, 1) >= CountPast(calls, 2) >= CountPast(calls, 3)
    ensures CountPast(calls, 0) == CountPast(calls, 3) + InFlight(calls)
  {
    if calls != [] {
      CountsDescend(calls[..|calls| - 1]);
    }
  }

  /** In every reachable state: total >= durations >= request sizes >= response sizes, and the whole gap
      is the number of calls that are between their first and their last update. */
  lemma CountsAreOrdered(events: seq<Event>, end: State)
    requires Runs(Start, events, end)
    ensures var m := end.metrics;
      && |m.total| >= |m.duration| >= |m.reqSize| >= |m.respSize|
      && |m.total| == |m.respSize| + InFlight(end.calls)
  {
    RunKeepsAccount(Start, events, end);
    PastSize(end.calls, 0, LabelOf);
    PastSize(end.calls, 1, Seconds);
    PastSize(end.calls, 2, InSize);
    PastSize(end.calls, 3, OutSize);
    CountsDescend(end.calls);
  }

  function AllOf<T>(calls: seq<Activity>, f: Observation -> T): multiset<T> {
    if calls == [] then multiset{}
    else AllOf(calls[..|calls| - 1], f) + multiset{f(calls[|calls| - 1].observation)}
  }

  lemma {:induction false} PastAll<T>(calls: seq<Activity>, k: nat, f: Observation -> T)
    requires forall i :: 0 <= i < |calls| ==> calls[i].done > k
    ensures Past(calls, k, f) == AllOf(calls, f)
  {
    if calls != [] {
      PastAll(calls[..|calls| - 1], k, f);
    }
  }

  /** When every call is through, the metrics are those of all observations, in whatever order the
      updates came: each label counted as often as it was observed, each value recorded as often. */
  lemma QuietMetricsAreExact(events: seq<Event>, end: State)
    requires Runs(Start, events, end)
    requires forall i :: 0 <= i < |end.calls| ==> end.calls[i].done == 4
    ensures end.metrics == Metrics(AllOf(end.calls, LabelOf), AllOf(end.calls, Seconds),
                                   AllOf(end.calls, InSize), AllOf(end.calls, OutSize))
    ensures |end.metrics.total| == |end.metrics.duration| == |end.metrics.reqSize| == |end.metrics.respSize|
  {
    RunKeepsAccount(Start, events, end);
    PastAll(end.calls, 0, LabelOf);
    PastAll(end.calls, 1, Seconds);
    PastAll(end.calls, 2, InSize);
    PastAll(end.calls, 3, OutSize);
    CountsAreOrdered(events, end);
    NoneInFlight(end.calls);
  }

  lemma {:induction false} NoneInFlight(calls: seq<Activity>)
    requires forall i :: 0 <= i < |calls| ==> calls[i].done == 4
    ensures InFlight(calls) == 0
  {
    if calls != [] {
      NoneInFlight(calls[..|calls| - 1]);
    }
  }

  /** The calls whose observation is as given. */
  function Count(calls: seq<Activity>, p: Observation -> bool): nat {
    if calls == [] then 0
    else Count(calls[..|calls| - 1], p) + if p(calls[|calls| - 1].observation) then 1 else 0
  }

  lemma {:induction false} AllOfCounts<T(!new)>(calls: seq<Activity>, f: Observation -> T, v: T, p: Observation -> bool)
    requires forall o :: p(o) <==> f(o) == v
    ensures AllOf(calls, f)[v] == Count(calls, p)
  {
    if calls != [] {
      AllOfCounts(calls[..|calls| - 1], f, v, p);
      assert p(calls[|calls| - 1].observation) <==> f(calls[|calls| - 1].observation) == v;
    }
  }

  /** In numbers: the total of a method and status is how many observations had them, and a histogram has
      every duration and every size as often as it was observed. */
  lemma QuietMetricsCount(events: seq<Event>, end: State, verb: Verb, status: int, seconds: real, size: nat)
    requires Runs(Start, events, end)
    requires forall i :: 0 <= i < |end.calls| ==> end.calls[i].done == 4
    ensures end.metrics.total[(verb, status)] ==
            Count(end.calls, (o: Observation) => o.verb == verb && o.status == status)
    ensures end.metrics.duration[seconds] == Count(end.calls, (o: Observation) => o.seconds == seconds)
    ensures end.metrics.reqSize[size as real] == Count(end.calls, (o: Observation) => o.inBytes == size)
    ensures end.metrics.respSize[size as real] == Count(end.calls, (o: Observation) => o.outBytes == size)
  {
    QuietMetricsAreExact(events, end);
    AllOfCounts(end.calls, LabelOf, (verb, status), (o: Observation) => o.verb == verb && o.status == status);
    AllOfCounts(end.calls, Seconds, seconds, (o: Observation) => o.seconds == seconds);
    AllOfCounts(end.calls, InSize, size as real, (o: Observation) => o.inBytes == size);
    AllOfCounts(end.calls, OutSize, size as real, (o: Observation) => o.outBytes == size);
  }

  // ---------- scrapes ----------

  /** Metrics only grow. */
  predicate Within(a: Metrics, b: Metrics) {
    a.total <= b.total && a.duration <= b.duration && a.reqSize <= b.reqSize && a.respSize <= b.respSize
  }

  lemma {:induction false} MetricsGrow(s: State, events: seq<Event>, end: State)
    requires Runs(s, events, end)
    ensures Within(s.metrics, end.metrics)
    decreases |events|
  {
    if events != [] {
      MetricsGrow(Next(s, events[0]), events[1..], end);
    }
  }

  lemma SizesFollow<T>(a: multiset<T>, b: multiset<T>)
    requires a <= b
    ensures |a| <= |b|
  {
    assert b == a + (b - a);
  }

  lemma {:induction false} RunsCompose(s: State, a: seq<Event>, mid: State, b: seq<Event>, end: State)
    requires Runs(s, a, mid) && Runs(mid, b, end)
    ensures Runs(s, a + b, end)
    decreases |a|
  {
    if a == [] {
      assert a + b == b;
    } else {
      assert (a + b)[1..] == a[1..] + b;
      RunsCompose(Next(s, a[0]), a[1..], mid, b, end);
    }
  }

  /** A scrape that reads the metrics one by one, the last updated first, sees the order too, whatever
      happens between its reads. */
  lemma BackwardScrapeIsOrdered(before: seq<Event>, s0: State, e1: seq<Event>, s1: State,
                                e2: seq<Event>, s2: State, e3: seq<Event>, s3: State)
    requires Runs(Start, before, s0) && Runs(s0, e1, s1) && Runs(s1, e2, s2) && Runs(s2, e3, s3)
    ensures |s3.metrics.total| >= |s2.metrics.duration| >= |s1.metrics.reqSize| >= |s0.metrics.respSize|
  {
    RunsCompose(Start, before, s0, e1, s1);
    RunsCompose(Start, before + e1, s1, e2, s2);
    CountsAreOrdered(before, s0);
    CountsAreOrdered(before + e1, s1);
    CountsAreOrdered(before + e1 + e2, s2);
    MetricsGrow(s0, e1, s1);
    MetricsGrow(s1, e2, s2);
    MetricsGrow(s2, e3, s3);
    SizesFollow(s0.metrics.reqSize, s1.metrics.reqSize);
    SizesFollow(s1.metrics.duration, s2.metrics.duration);
    SizesFollow(s2.metrics.total, s3.metrics.total);
  }

  /** A scrape that reads the total first can see more durations than requests. */
  lemma ForwardScrapeIsNot(o: Observation)
    ensures exists events, end: State ::
      Runs(Start, events, end) && |Start.metrics.total| < |end.metrics.duration|
  {
    var s1 := Next(Start, Enter(o));
    var s2 := Next(s1, Advance(0));
    var s3 := Next(s2, Advance(0));
    var events := [Enter(o), Advance(0), Advance(0)];
    assert events[1..][1..][1..] == [];
    assert Runs(s3, [], s3);
    assert events[2..][1..] == [] && events[1..][1..] == events[2..];
    assert Runs(s2, events[2..], s3);
    assert Runs(s1, events[1..], s3);
    assert Runs(Start, events, s3);
    assert |s3.metrics.duration| == 1;
  }
}
