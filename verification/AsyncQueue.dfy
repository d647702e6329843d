/**
 The queue between coroutines (src/utils/asyncqueue.hpp). All code runs on one
 thread, so a put, the part of a get before it parks, and its resumption are each
 one atomic step. `QueueState` is the history of such steps; the class keeps to it.
 */
module AsyncQueues {
  import opened Bytes

  /**
   Gets are numbered in the order they start. `served` records the value meant
   for a get, `returned` the value its caller has received.
   */
  datatype QueueState<T> = QueueState(
    queue: seq<T>,
    waiting: seq<nat>,
    served: map<nat, T>,
    returned: map<nat, T>,
    puts: seq<T>,
    gets: nat)

  datatype Event<T> = Put(value: T) | StartGet | Resume(ticket: nat)

  function Initial<T>(): QueueState<T> { QueueState([], [], map[], map[], [], 0) }

  function PutStep<T>(s: QueueState<T>, x: T): QueueState<T> {
    var s' := s.(puts := s.puts + [x]);
    if s.waiting != [] then s'.(served := s.served[s.waiting[0] := x], waiting := s.waiting[1..])
    else s'.(queue := s.queue + [x])
  }

  function StartGetStep<T>(s: QueueState<T>): QueueState<T> {
    var s' := s.(gets := s.gets + 1);
    if s.queue != [] then
      s'.(queue := s.queue[1..],
          served := s.served[s.gets := s.queue[0]],
          returned := s.returned[s.gets := s.queue[0]])
    else s'.(waiting := s.waiting + [s.gets])
  }

  /** A parked get resumes once its waiter was completed; otherwise nothing happens. */
  function ResumeStep<T>(s: QueueState<T>, ticket: nat): QueueState<T> {
    if ticket in s.served then s.(returned := s.returned[ticket := s.served[ticket]]) else s
  }

  function Apply<T>(s: QueueState<T>, e: Event<T>): QueueState<T> {
    match e
    case Put(x) => PutStep(s, x)
    case StartGet => StartGetStep(s)
    case Resume(ticket) => ResumeStep(s, ticket)
  }

  /** The state after a whole interleaving. */
  function Run<T>(events: seq<Event<T>>): QueueState<T> {
    if events == [] then Initial() else Apply(Run(events[..|events| - 1]), events[|events| - 1])
  }

  function Min(a: nat, b: nat): nat { if a < b then a else b }

  /** Gets and puts are matched by number; what is unmatched waits on one side only. */
  ghost predicate Matched<T>(s: QueueState<T>) {
    var n := Min(s.gets, |s.puts|);
    && s.queue == s.puts[n..]
    && |s.waiting| == s.gets - n
    && (forall i :: 0 <= i < |s.waiting| ==> s.waiting[i] == n + i)
    && (forall k :: k in s.served <==> 0 <= k < n)
    && (forall k :: 0 <= k < n ==> s.served[k] == s.puts[k])
    && (forall k <- s.returned :: k in s.served && s.returned[k] == s.served[k])
  }

  lemma InitialIsMatched<T>()
    ensures Matched(Initial<T>())
  {
  }

  lemma PutKeepsMatched<T>(s: QueueState<T>, x: T)
    requires Matched(s)
    ensures Matched(PutStep(s, x))
  {
    var n := Min(s.gets, |s.puts|);
    if s.waiting == [] {
      assert (s.puts + [x])[n..] == s.puts[n..] + [x];
    }
  }

  lemma StartGetKeepsMatched<T>(s: QueueState<T>)
    requires Matched(s)
    ensures Matched(StartGetStep(s))
  {
  }

  lemma NewGetIsUnserved<T>(s: QueueState<T>)
    requires Matched(s)
    ensures s.gets !in s.served
  {
  }

  /** Over every interleaving of puts, gets and resumptions. */
  lemma {:induction false} RunsAreMatched<T>(events: seq<Event<T>>)
    ensures Matched(Run(events))
    decreases |events|
  {
    if events != [] {
      var before, e := Run(events[..|events| - 1]), events[|events| - 1];
      RunsAreMatched(events[..|events| - 1]);
      match e {
        case Put(x) => PutKeepsMatched(before, x);
        case StartGet => StartGetKeepsMatched(before);
        case Resume(_) =>
      }
    }
  }

  // ---- What a run does, told by its events alone ----

  /** The values put, in order. */
  function Values<T>(events: seq<Event<T>>): seq<T> {
    if events == [] then []
    else
      var before, e := Values(events[..|events| - 1]), events[|events| - 1];
      if e.Put? then before + [e.value] else before
  }

  /** How many gets have started. */
  function Starts<T>(events: seq<Event<T>>): nat {
    if events == [] then 0
    else Starts(events[..|events| - 1]) + if events[|events| - 1].StartGet? then 1 else 0
  }

  /** Nothing put or started is forgotten. */
  lemma {:induction false} RunsCountEvents<T>(events: seq<Event<T>>)
    ensures Run(events).puts == Values(events) && Run(events).gets == Starts(events)
    decreases |events|
  {
    if events != [] { RunsCountEvents(events[..|events| - 1]); }
  }

  /** How many gets have met their put. */
  function Met<T>(events: seq<Event<T>>): nat { Min(Starts(events), |Values(events)|) }

  /**
   Linearizability: the k-th get to start receives the k-th value put, in whatever
   order the parked gets resume. What is unmatched is queued or waits, in order, and
   values and parked gets never coexist.
   */
  lemma {:induction false} KthGetReceivesKthPut<T>(events: seq<Event<T>>)
    ensures var s, values, n := Run(events), Values(events), Met(events);
      && (s.queue == [] || s.waiting == [])
      && s.queue == values[n..]
      && |s.waiting| == Starts(events) - n
      && (forall i :: 0 <= i < |s.waiting| ==> s.waiting[i] == n + i)
      && (forall k :: k in s.served <==> 0 <= k < n)
      && (forall k <- s.served :: s.served[k] == values[k])
      && (forall k <- s.returned :: k < n && s.returned[k] == values[k])
  {
    RunsAreMatched(events);
    RunsCountEvents(events);
  }

  /**
   The step at `i` returns from the k-th get: it starts behind the k-th put, or it is
   resumed behind it.
   */
  predicate ReturnsAt<T(==)>(events: seq<Event<T>>, i: nat, k: nat)
    requires i < |events|
  {
    match events[i]
    case Put(_) => false
    case StartGet => k == Starts(events[..i]) && k < |Values(events[..i])|
    case Resume(ticket) => k == ticket && k < Met(events[..i])
  }

  lemma StepReturns<T>(s: QueueState<T>, e: Event<T>, k: nat)
    requires Matched(s)
    ensures var n := Min(s.gets, |s.puts|);
      k in Apply(s, e).returned
      <==> k in s.returned || (e.StartGet? && k == s.gets < |s.puts|) || (e.Resume? && k == e.ticket < n)
  {
  }

  /** Exactly which gets have returned. */
  lemma {:induction false} ReturnedExactly<T>(events: seq<Event<T>>, k: nat)
    ensures k in Run(events).returned <==> exists i :: 0 <= i < |events| && ReturnsAt(events, i, k)
    decreases |events|
  {
    if events != [] {
      var n, before, e := |events| - 1, events[..|events| - 1], events[|events| - 1];
      ReturnedExactly(before, k);
      RunsAreMatched(before);
      RunsCountEvents(before);
      StepReturns(Run(before), e, k);
      hide Run, Matched, Values, Starts;
      forall i | 0 <= i < n ensures ReturnsAt(events, i, k) <==> ReturnsAt(before, i, k) {
        assert events[..i] == before[..i];
      }
      assert k in Run(events).returned <==> k in Run(before).returned || ReturnsAt(events, n, k);
    }
  }

  // ---- The class ----

  class GetWaiter<T> {
    var done: bool
    var value: Option<T>
    var cancels: nat              // how often the timer was cancelled
    ghost const ticket: nat

    constructor (ghost ticket: nat)
      ensures !done && value == None && cancels == 0 && this.ticket == ticket
    {
      done, value, cancels := false, None, 0;
      this.ticket := ticket;
    }

    /** Done, with the timer cancelled once, exactly when it holds the value served to its get. */
    ghost predicate Agrees(served: map<nat, T>)
      reads this
    {
      && (done <==> ticket in served)
      && cancels == (if done then 1 else 0)
      && value == if ticket in served then Some(served[ticket]) else None
    }

    /** Cancels the timer the parked get waits on, which resumes it; a second call does nothing. */
    method Complete()
      modifies this`done, this`cancels
      ensures done && cancels == old(cancels) + if old(done) then 0 else 1
    {
      if done { return; }
      done := true;
      cancels := cancels + 1;
    }
  }

  class AsyncQueue<T> {
    var queue: seq<T>
    var getWaiters: seq<GetWaiter<T>>

    ghost var state: QueueState<T>
    ghost var parked: map<nat, GetWaiter<T>>   // every get that had to park, by number
    ghost var waiters: set<GetWaiter<T>>

    ghost predicate Valid()
      reads this, waiters
    {
      && Matched(state)
      && queue == state.queue
      && |getWaiters| == |state.waiting|
      && (forall i :: 0 <= i < |getWaiters| ==>
            state.waiting[i] in parked && parked[state.waiting[i]] == getWaiters[i])
      && (forall k <- parked :: k < state.gets && parked[k] in waiters && parked[k].ticket == k)
      && (forall k <- parked :: parked[k].Agrees(state.served))
    }

    constructor ()
      ensures Valid() && state == Initial<T>() && parked == map[] && waiters == {}
    {
      hide Matched;
      InitialIsMatched<T>();
      queue, getWaiters, state, parked, waiters := [], [], Initial<T>(), map[], {};
    }

    method Put(value: T)
      requires Valid()
      modifies this, waiters
      ensures Valid() && state == PutStep(old(state), value)
      ensures parked == old(parked) && waiters == old(waiters)
    {
      if getWaiters != [] {
        ServeWaiter(value);
        return;
      }
      hide Matched;
      PutKeepsMatched(state, value);
      state := PutStep(state, value);
      queue := queue + [value];
    }

    /** The branch of `put` that hands the value to the oldest waiter. */
    method ServeWaiter(value: T)
      requires Valid() && getWaiters != []
      modifies this`getWaiters, this`state, waiters
      ensures Valid() && state == PutStep(old(state), value)
    {
      hide Matched;
      PutKeepsMatched(state, value);
      var waiter := getWaiters[0];
      ghost var served := state.waiting[0];
      state := PutStep(state, value);
      getWaiters := getWaiters[1..];
      waiter.value := Some(value);
      waiter.Complete();
      assert forall k <- parked :: k != served ==> parked[k] != waiter;
    }

    /** `get` up to the point where it returns or parks. */
    method StartGet() returns (value: Option<T>, waiter: GetWaiter?<T>)
      requires Valid()
      modifies this
      ensures Valid() && state == StartGetStep(old(state))
      ensures (value.Some? <==> waiter == null) && (value.Some? <==> old(queue) != [])
      ensures value.Some? ==> old(state).gets in state.returned && value.value == state.returned[old(state).gets]
      ensures waiter != null ==> fresh(waiter) && parked == old(parked)[old(state).gets := waiter]
      ensures waiter == null ==> parked == old(parked)
      ensures old(waiters) <= waiters && fresh(waiters - old(waiters))
    {
      if queue != [] {
        var first := TakeQueued();
        return Some(first), null;
      }
      waiter := Park();
      value := None;
    }

    method TakeQueued() returns (value: T)
      requires Valid() && queue != []
      modifies this`queue, this`state
      ensures Valid() && state == StartGetStep(old(state))
      ensures old(state).gets in state.returned && value == state.returned[old(state).gets]
    {
      hide Matched;
      StartGetKeepsMatched(state);
      value := queue[0];
      state := StartGetStep(state);
      queue := queue[1..];
    }

    method Park() returns (waiter: GetWaiter<T>)
      requires Valid() && queue == []
      modifies this
      ensures Valid() && state == StartGetStep(old(state))
      ensures fresh(waiter) && parked == old(parked)[old(state).gets := waiter]
      ensures waiters == old(waiters) + {waiter}
    {
      hide Matched;
      StartGetKeepsMatched(state);
      NewGetIsUnserved(state);
      waiter := new GetWaiter<T>(state.gets);
      parked, waiters := parked[state.gets := waiter], waiters + {waiter};
      state := StartGetStep(state);
      getWaiters := getWaiters + [waiter];
    }

    /** `get` after its waiter was completed: the value is there, and it is the k-th put. */
    method FinishGet(waiter: GetWaiter<T>, ghost ticket: nat) returns (value: T)
      requires Valid() && ticket in parked && parked[ticket] == waiter && waiter.done
      modifies this`state
      ensures Valid() && state == ResumeStep(old(state), ticket)
      ensures ticket < |state.puts| && value == state.puts[ticket]
      ensures ticket in state.returned && value == state.returned[ticket]
    {
      assert waiter.Agrees(state.served);
      value := waiter.value.value;
      state := ResumeStep(state, ticket);
    }
  }

  // ---- Runs of the class ----

  lemma RunOfNothing<T>()
    ensures Run<T>([]) == Initial()
  {
  }

  lemma RunOfNext<T>(events: seq<Event<T>>, i: nat)
    requires i < |events|
    ensures Run(events[..i + 1]) == Apply(Run(events[..i]), events[i])
  {
    assert events[..i + 1][..i] == events[..i];
  }

  lemma PutReturnsNothing<T>(s: QueueState<T>, x: T)
    ensures PutStep(s, x).returned == s.returned && PutStep(s, x).gets == s.gets
  {
  }

  lemma ServedHasStarted<T>(s: QueueState<T>)
    requires Matched(s)
    ensures forall k <- s.served :: k < s.gets
  {
  }

  /** A get that has returned is not affected by another resumption. */
  lemma ResumeAgain<T>(s: QueueState<T>, ticket: nat)
    requires Matched(s) && (ticket in s.served ==> ticket in s.returned)
    ensures ResumeStep(s, ticket) == s
  {
    if ticket in s.served {
      assert s.returned[ticket := s.served[ticket]] == s.returned;
    }
  }

  /** Any interleaving of puts, gets and resumptions on one queue is the run of the steps. */
  method Interleave<T>(events: seq<Event<T>>) returns (queue: AsyncQueue<T>, results: map<nat, T>)
    ensures queue.Valid() && queue.state == Run(events) && results == Run(events).returned
  {
    hide Matched, PutStep, Run;
    queue := new AsyncQueue();
    results := map[];
    var gets: nat := 0;
    var parked: map<nat, GetWaiter<T>> := map[];
    assert events[..0] == [];
    RunOfNothing<T>();
    for i := 0 to |events|
      invariant fresh(queue) && fresh(queue.waiters) && queue.Valid()
      invariant queue.state == Run(events[..i]) && parked == queue.parked
      invariant gets == queue.state.gets && results == queue.state.returned
      invariant forall k: nat :: k < gets ==> k in parked || k in results
    {
      RunOfNext(events, i);
      match events[i] {
        case Put(x) =>
          PutReturnsNothing(queue.state, x);
          queue.Put(x);
        case StartGet =>
          var value, waiter := queue.StartGet();
          if waiter == null { results := results[gets := value.value]; }
          else { parked := parked[gets := waiter]; }
          gets := gets + 1;
        case Resume(ticket) =>
          ServedHasStarted(queue.state);
          if ticket in parked && parked[ticket].done {
            var value := queue.FinishGet(parked[ticket], ticket);
            results := results[ticket := value];
          } else {
            ResumeAgain(queue.state, ticket);
          }
      }
    }
    assert events[..|events|] == events;
  }
}
