// The per-model concurrency limiter (app/core/registry.py): two gauges kept beside an
// asyncio semaphore, whose permits are handed over first come, first served.
module ConcurrencyLimiter {
  import opened Wrappers

  type Task = nat

  // `waiting` are queued tasks, `granted` ones that were handed a permit and have not run
  // yet, `holding` ones inside the `async with` body. The gauges are the limiter's own.
  datatype State = State(
    inFlight: int,
    queued: int,
    free: nat,
    waiting: seq<Task>,
    granted: set<Task>,
    holding: set<Task>)

  datatype Event =
    | Arrive(task: Task)
    | Resume(task: Task)
    | Cancel(task: Task)
    | Leave(task: Task)

  function Initial(limit: nat): State {
    State(0, 0, limit, [], {}, {})
  }

  function Without(ts: seq<Task>, t: Task): seq<Task> {
    if ts == [] then []
    else if ts[0] == t then ts[1..]
    else [ts[0]] + Without(ts[1..], t)
  }

  // The semaphore hands one free permit to the longest waiting task.
  function WakeOne(s: State): State {
    if s.free > 0 && s.waiting != []
    then s.(free := s.free - 1, waiting := s.waiting[1..], granted := s.granted + {s.waiting[0]})
    else s
  }

  function WakeAll(s: State): State
    decreases |s.waiting|
  {
    if s.free > 0 && s.waiting != [] then WakeAll(WakeOne(s)) else s
  }

  predicate Enabled(s: State, e: Event) {
    match e
    case Arrive(t) => t !in s.waiting && t !in s.granted && t !in s.holding
    case Resume(t) => t in s.granted
    case Cancel(t) => t in s.waiting || t in s.granted
    case Leave(t) => t in s.holding
  }

  function Next(s: State, e: Event): State {
    match e
    case Arrive(t) =>
      if s.free > 0 && s.waiting == [] && s.granted == {}
      then s.(free := s.free - 1, inFlight := s.inFlight + 1, holding := s.holding + {t})
      else s.(queued := s.queued + 1, waiting := s.waiting + [t])
    case Resume(t) =>
      var w := WakeAll(s.(granted := s.granted - {t}));
      w.(queued := s.queued - 1, inFlight := s.inFlight + 1, holding := s.holding + {t})
    case Cancel(t) =>
      var w := if t in s.granted
               then WakeAll(s.(granted := s.granted - {t}, free := s.free + 1))
               else WakeAll(s.(waiting := Without(s.waiting, t)));
      w.(queued := s.queued - 1)
    case Leave(t) =>
      WakeOne(s.(inFlight := s.inFlight - 1, holding := s.holding - {t}, free := s.free + 1))
  }

  // The limiter object. Each method is one uninterrupted stretch of `acquire`.
  class ModelConcurrencyLimiter {
    const limit: nat
    var inFlight: int
    var queued: int
    var free: nat
    var waiting: seq<Task>
    var granted: set<Task>
    ghost var holding: set<Task>

    ghost function Now(): State
      reads this
    {
      State(inFlight, queued, free, waiting, granted, holding)
    }

    constructor (limit: nat)
      ensures this.limit == limit && Now() == Initial(limit)
    {
      this.limit := limit;
      inFlight, queued, free, waiting, granted, holding := 0, 0, limit, [], {}, {};
    }

    // Up to the first await: counts a task as queued, and lets it straight through if a
    // permit is free and nobody is in front of it.
    method Arrive(t: Task) returns (entered: bool)
      requires Enabled(Now(), Event.Arrive(t))
      modifies this
      ensures Now() == Next(old(Now()), Event.Arrive(t))
      ensures entered <==> t in holding
    {
      queued := queued + 1;
      if free > 0 && waiting == [] && granted == {} {
        free := free - 1;
        queued := queued - 1;
        inFlight := inFlight + 1;
        holding := holding + {t};
        entered := true;
      } else {
        waiting := waiting + [t];
        entered := false;
      }
    }

    // A task that was handed a permit runs on into the body.
    method Resume(t: Task)
      requires Enabled(Now(), Event.Resume(t))
      modifies this
      ensures Now() == Next(old(Now()), Event.Resume(t))
    {
      granted := granted - {t};
      WakeWaiters();
      queued := queued - 1;
      inFlight := inFlight + 1;
      holding := holding + {t};
    }

    // Cancelled before it got in; a permit it was already handed goes to the next in line.
    method Cancel(t: Task)
      requires Enabled(Now(), Event.Cancel(t))
      modifies this
      ensures Now() == Next(old(Now()), Event.Cancel(t))
    {
      if t in granted {
        granted := granted - {t};
        free := free + 1;
      } else {
        waiting := Without(waiting, t);
      }
      WakeWaiters();
      queued := queued - 1;
    }

    // The body ended, by completion, error or cancellation.
    method Leave(t: Task)
      requires Enabled(Now(), Event.Leave(t))
      modifies this
      ensures Now() == Next(old(Now()), Event.Leave(t))
    {
      inFlight := inFlight - 1;
      holding := holding - {t};
      free := free + 1;
      if waiting != [] {
        free, granted, waiting := free - 1, granted + {waiting[0]}, waiting[1..];
      }
    }

    method WakeWaiters()
      modifies this`free, this`waiting, this`granted
      ensures Now() == WakeAll(old(Now()))
    {
      while free > 0 && waiting != []
        invariant WakeAll(Now()) == WakeAll(old(Now()))
        invariant Now() == old(Now()).(free := free, waiting := waiting, granted := granted)
        decreases |waiting|
      {
        free, granted, waiting := free - 1, granted + {waiting[0]}, waiting[1..];
      }
    }
  }

  ghost predicate NoDuplicates(ts: seq<Task>) {
    forall i, j :: 0 <= i < j < |ts| ==> ts[i] != ts[j]
  }

  ghost predicate Separate(s: State) {
    && NoDuplicates(s.waiting)
    && (forall t <- s.waiting :: t !in s.granted && t !in s.holding)
    && s.granted !! s.holding
  }

  // The gauges are the truth, permits are conserved, and no permit idles while a task waits
  // with nobody about to pass it on.
  ghost predicate Accurate(s: State, limit: nat) {
    && Separate(s)
    && s.inFlight == |s.holding|
    && s.queued == |s.waiting| + |s.granted|
    && s.free + |s.granted| + |s.holding| == limit
    && (s.free > 0 ==> s.waiting == [] || s.granted != {})
  }

  lemma {:induction false} WithoutFacts(ts: seq<Task>, t: Task)
    requires t in ts && NoDuplicates(ts)
    ensures |Without(ts, t)| == |ts| - 1 && NoDuplicates(Without(ts, t))
    ensures forall u :: u in Without(ts, t) <==> u in ts && u != t
  {
    if ts[0] != t {
      WithoutFacts(ts[1..], t);
      assert ts[0] !in Without(ts[1..], t);
    }
  }

  lemma {:induction false} WakeAllFacts(s: State)
    requires Separate(s)
    ensures var w := WakeAll(s);
            && Separate(w) && w.holding == s.holding && w.inFlight == s.inFlight && w.queued == s.queued
            && |w.waiting| + |w.granted| == |s.waiting| + |s.granted|
            && w.free + |w.granted| == s.free + |s.granted|
            && (w.free > 0 ==> w.waiting == [])
    decreases |s.waiting|
  {
    if s.free > 0 && s.waiting != [] {
      WakeAllFacts(WakeOne(s));
    }
  }

  lemma ResumeKeepsAccurate(s: State, t: Task, limit: nat)
    requires Accurate(s, limit) && Enabled(s, Resume(t))
    ensures Accurate(Next(s, Resume(t)), limit)
  {
    hide WakeAll;
    var s' := s.(granted := s.granted - {t});
    WakeAllFacts(s');
    WakesOnlyWaiting(s');
  }

  lemma CancelKeepsAccurate(s: State, t: Task, limit: nat)
    requires Accurate(s, limit) && Enabled(s, Cancel(t))
    ensures Accurate(Next(s, Cancel(t)), limit)
  {
    hide WakeAll, Without;
    if t in s.granted {
      WakeAllFacts(s.(granted := s.granted - {t}, free := s.free + 1));
    } else {
      WithoutFacts(s.waiting, t);
      WakeAllFacts(s.(waiting := Without(s.waiting, t)));
    }
  }

  lemma ArriveKeepsAccurate(s: State, t: Task, limit: nat)
    requires Accurate(s, limit) && Enabled(s, Arrive(t))
    ensures Accurate(Next(s, Arrive(t)), limit)
  {
    hide WakeAll, Without;
  }

  lemma LeaveKeepsAccurate(s: State, t: Task, limit: nat)
    requires Accurate(s, limit) && Enabled(s, Leave(t))
    ensures Accurate(Next(s, Leave(t)), limit)
  {
    hide WakeAll, Without;
  }

  lemma NextKeepsAccurate(s: State, e: Event, limit: nat)
    requires Accurate(s, limit) && Enabled(s, e)
    ensures Accurate(Next(s, e), limit)
  {
    hide Accurate, Next, Enabled;
    match e
    case Arrive(t) => ArriveKeepsAccurate(s, t, limit);
    case Resume(t) => ResumeKeepsAccurate(s, t, limit);
    case Cancel(t) => CancelKeepsAccurate(s, t, limit);
    case Leave(t) => LeaveKeepsAccurate(s, t, limit);
  }

  lemma {:induction false} WakesOnlyWaiting(s: State)
    ensures forall t <- WakeAll(s).waiting :: t in s.waiting
    ensures forall t <- WakeAll(s).granted :: t in s.granted || t in s.waiting
    decreases |s.waiting|
  {
    if s.free > 0 && s.waiting != [] {
      WakesOnlyWaiting(WakeOne(s));
    }
  }

  // The state after a schedule, if every event could happen when it did.
  function Execute(limit: nat, events: seq<Event>): Option<State> {
    if events == [] then Some(Initial(limit))
    else
      var before, e := Execute(limit, events[..|events| - 1]), events[|events| - 1];
      if before.Some? && Enabled(before.value, e) then Some(Next(before.value, e)) else None
  }

  // Under any interleaving of arrivals, grants, completions and cancellations.
  lemma {:induction false} AlwaysAccurate(limit: nat, events: seq<Event>)
    requires Execute(limit, events).Some?
    ensures Accurate(Execute(limit, events).value, limit)
    ensures Execute(limit, events).value.inFlight <= limit
  {
    if events != [] {
      var init := events[..|events| - 1];
      AlwaysAccurate(limit, init);
      NextKeepsAccurate(Execute(limit, init).value, events[|events| - 1], limit);
    }
  }

  // No lost wakeup: while tasks wait, either every permit is inside a body, or some task
  // that was handed one is about to run.
  lemma WaitingMeansBusy(limit: nat, events: seq<Event>)
    requires Execute(limit, events).Some? && Execute(limit, events).value.waiting != []
    ensures var s := Execute(limit, events).value; s.granted != {} || s.inFlight == limit
  {
    AlwaysAccurate(limit, events);
  }

  // ----- First come, first served -----

  // When a task last arrived.
  ghost function ArrivedAt(events: seq<Event>, t: Task): int {
    if events == [] then -1
    else if events[|events| - 1] == Arrive(t) then |events| - 1
    else ArrivedAt(events[..|events| - 1], t)
  }

  lemma {:induction false} ArrivedBefore(events: seq<Event>, t: Task)
    ensures ArrivedAt(events, t) < |events|
  {
    if events != [] {
      ArrivedBefore(events[..|events| - 1], t);
    }
  }

  // Waking takes tasks off the front of the queue, and nothing else off it.
  lemma {:induction false} WakeAllTakesFront(s: State) returns (k: nat)
    ensures k <= |s.waiting| && WakeAll(s).waiting == s.waiting[k..]
    ensures forall t :: t in WakeAll(s).granted <==> t in s.granted || t in s.waiting[..k]
    ensures WakeAll(s).holding == s.holding
    decreases |s.waiting|
  {
    k := 0;
    if s.free > 0 && s.waiting != [] {
      var j := WakeAllTakesFront(WakeOne(s));
      k := j + 1;
      assert s.waiting[1..][..j] == s.waiting[1..k];
      assert s.waiting[..k] == [s.waiting[0]] + s.waiting[1..k];
    }
  }

  // The queue is in order of arrival.
  ghost predicate InOrder(waiting: seq<Task>, events: seq<Event>) {
    forall i, j :: 0 <= i < j < |waiting| ==> ArrivedAt(events, waiting[i]) < ArrivedAt(events, waiting[j])
  }

  lemma {:induction false} WithoutInOrder(waiting: seq<Task>, t: Task, events: seq<Event>)
    requires InOrder(waiting, events)
    ensures InOrder(Without(waiting, t), events)
    ensures forall u :: u in Without(waiting, t) ==> u in waiting
  {
    if waiting != [] && waiting[0] != t {
      WithoutInOrder(waiting[1..], t, events);
      var rest := Without(waiting[1..], t);
      forall j | 0 <= j < |rest|
        ensures ArrivedAt(events, waiting[0]) < ArrivedAt(events, rest[j])
      {
        assert rest[j] in waiting[1..];
      }
    }
  }

  // One event: the queue stays in order, and whoever is let in came before whoever still waits.
  lemma StepInOrder(limit: nat, events: seq<Event>, e: Event)
    requires Execute(limit, events).Some? && Enabled(Execute(limit, events).value, e)
    requires InOrder(Execute(limit, events).value.waiting, events)
    ensures var s, more := Execute(limit, events).value, events + [e];
            var after := Next(s, e);
            && InOrder(after.waiting, more)
            && forall t, u | t in after.waiting && u in after.granted + after.holding && u !in s.granted + s.holding ::
                 ArrivedAt(more, u) < ArrivedAt(more, t)
  {
    hide Execute, WakeAll, Without;
    var s, more := Execute(limit, events).value, events + [e];
    assert more[..|events|] == events;
    forall t | !e.Arrive? || e.task != t
      ensures ArrivedAt(more, t) == ArrivedAt(events, t)
    {
    }
    match e
    case Arrive(t) =>
      forall u
        ensures ArrivedAt(events, u) < |events|
      {
        ArrivedBefore(events, u);
      }
    case Resume(t) =>
      var k := WakeAllTakesFront(s.(granted := s.granted - {t}));
    case Cancel(t) =>
      if t in s.granted {
        var k := WakeAllTakesFront(s.(granted := s.granted - {t}, free := s.free + 1));
      } else {
        WithoutInOrder(s.waiting, t, events);
        var k := WakeAllTakesFront(s.(waiting := Without(s.waiting, t)));
      }
    case Leave(t) =>
  }

  lemma {:induction false} AlwaysInOrder(limit: nat, events: seq<Event>)
    requires Execute(limit, events).Some?
    ensures InOrder(Execute(limit, events).value.waiting, events)
  {
    if events != [] {
      hide Next, Enabled, InOrder;
      var n := |events| - 1;
      AlwaysInOrder(limit, events[..n]);
      StepInOrder(limit, events[..n], events[n]);
      assert events == events[..n] + [events[n]];
    } else {
      assert Execute(limit, events).value.waiting == [];
    }
  }

  // First come, first served: in any run, a task that is let in arrived before every task
  // that is still waiting then.
  lemma FirstComeFirstServed(limit: nat, events: seq<Event>, e: Event, t: Task, u: Task)
    requires Execute(limit, events).Some? && Enabled(Execute(limit, events).value, e)
    requires var s := Execute(limit, events).value;
             var after := Next(s, e);
             t in after.waiting && u in after.granted + after.holding && u !in s.granted + s.holding
    ensures ArrivedAt(events + [e], u) < ArrivedAt(events + [e], t)
  {
    hide Execute, Next, Enabled;
    AlwaysInOrder(limit, events);
    StepInOrder(limit, events, e);
  }

  // A task that arrives gets in at once exactly if nobody is queued and the limit is not
  // reached; and one that leaves lets in the task that has waited longest, if any waits.
  lemma EntersAndPassesOn(limit: nat, events: seq<Event>, t: Task)
    requires Execute(limit, events).Some?
    ensures var s := Execute(limit, events).value;
            t !in s.waiting && t !in s.granted && t !in s.holding ==>
              Enabled(s, Arrive(t)) && (t in Next(s, Arrive(t)).holding <==> s.queued == 0 && s.inFlight < limit)
    ensures var s := Execute(limit, events).value;
            t in s.holding && s.waiting != [] ==>
              && Enabled(s, Leave(t)) && s.waiting[0] in Next(s, Leave(t)).granted
              && forall u <- s.waiting :: u != s.waiting[0] ==> ArrivedAt(events, s.waiting[0]) < ArrivedAt(events, u)
  {
    AlwaysAccurate(limit, events);
    AlwaysInOrder(limit, events);
    hide Execute;
  }

  // Everything a task may do at any time, it can: leave the queue, go in once let in, leave.
  lemma NobodyIsStuck(limit: nat, events: seq<Event>, t: Task)
    requires Execute(limit, events).Some?
    ensures var s := Execute(limit, events).value;
            && (t in s.waiting || t in s.granted ==>
                  var c := Next(s, Cancel(t));
                  Enabled(s, Cancel(t)) && t !in c.waiting && t !in c.granted && t !in c.holding)
            && (t in s.granted ==> Enabled(s, Resume(t)) && t in Next(s, Resume(t)).holding)
            && (t in s.holding ==> Enabled(s, Leave(t)) && t !in Next(s, Leave(t)).holding)
  {
    AlwaysAccurate(limit, events);
    var s := Execute(limit, events).value;
    hide Execute, WakeAll, Without;
    if t in s.granted {
      var k := WakeAllTakesFront(s.(granted := s.granted - {t}, free := s.free + 1));
      var j := WakeAllTakesFront(s.(granted := s.granted - {t}));
    } else if t in s.waiting {
      WithoutFacts(s.waiting, t);
      var k := WakeAllTakesFront(s.(waiting := Without(s.waiting, t)));
    }
  }

  // ----- The first to come -----

  ghost function Arrivals(ts: seq<Task>): seq<Event> {
    seq(|ts|, i requires 0 <= i < |ts| => Arrive(ts[i]))
  }

  // The first of these tasks up to the limit are inside and the others wait in their order.
  ghost predicate FirstIn(s: State, ts: seq<Task>, limit: nat) {
    var n := if |ts| <= limit then |ts| else limit;
    && s.free == limit - n && s.waiting == ts[n..] && s.granted == {}
    && forall t :: t in s.holding <==> t in ts[..n]
  }

  lemma NextArrives(s: State, ts: seq<Task>, t: Task, limit: nat)
    requires FirstIn(s, ts, limit) && t !in ts
    ensures Enabled(s, Arrive(t)) && FirstIn(Next(s, Arrive(t)), ts + [t], limit)
  {
    var all := ts + [t];
    if |ts| < limit {
      assert ts[..|ts|] == ts && all[..|ts| + 1] == all && all[|ts| + 1..] == [];
    } else {
      assert all[..limit] == ts[..limit] && all[limit..] == ts[limit..] + [t];
    }
  }

  lemma ArrivalsButLast(ts: seq<Task>)
    requires ts != [] && NoDuplicates(ts)
    ensures var k := |ts| - 1;
            NoDuplicates(ts[..k]) && ts[k] !in ts[..k] && Arrivals(ts) == Arrivals(ts[..k]) + [Arrive(ts[k])]
  {
  }

  lemma OneMoreEvent(limit: nat, events: seq<Event>, e: Event)
    requires Execute(limit, events).Some? && Enabled(Execute(limit, events).value, e)
    ensures Execute(limit, events + [e]) == Some(Next(Execute(limit, events).value, e))
  {
    hide Next, Enabled;
    assert (events + [e])[..|events|] == events;
  }

  // So it is for any tasks that arrive one behind the other, whatever the limit.
  lemma {:induction false} FirstOnesEnter(limit: nat, ts: seq<Task>)
    requires NoDuplicates(ts)
    ensures Execute(limit, Arrivals(ts)).Some? && FirstIn(Execute(limit, Arrivals(ts)).value, ts, limit)
  {
    if ts != [] {
      ArrivalsButLast(ts);
      hide Execute, Next, Enabled, FirstIn, Arrivals, NoDuplicates;
      var k := |ts| - 1;
      FirstOnesEnter(limit, ts[..k]);
      NextArrives(Execute(limit, Arrivals(ts[..k])).value, ts[..k], ts[k], limit);
      OneMoreEvent(limit, Arrivals(ts[..k]), Arrive(ts[k]));
      assert ts[..k] + [ts[k]] == ts;
    }
  }
}
