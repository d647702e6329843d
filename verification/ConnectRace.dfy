/**
 Connecting to every address of a domain at once (src/tcp/tcpclient.cpp): the attempts
 share `result` and a timer that never expires, and the caller waits on the timer.
 Attempts complete, and the caller resumes, in any order.
 */
module ConnectRace {
  import opened Bytes

  /** `std::optional<tcp::socket>`: taking the socket out leaves `has_value` true. */
  datatype Slot = Empty | Holding(socket: nat) | MovedFrom

  datatype Event = Succeed(attempt: nat) | Fail(attempt: nat) | Wake

  datatype Ending = Connected(socket: nat) | AllFailed

  /** `ended` is how `connect_address` returned, `discarded` the sockets closed unused. */
  datatype State = State(result: Slot, cancelled: bool, ended: Option<Ending>, discarded: seq<nat>)

  function Initial(): State { State(Empty, false, None, []) }

  function Apply(s: State, e: Event): State {
    match e
    case Fail(_) => s
    case Succeed(i) =>
      if s.result.Empty? then s.(result := Holding(i), cancelled := true)
      else s.(discarded := s.discarded + [i])
    case Wake =>
      if !s.cancelled || s.ended.Some? then s      // still parked, or already back
      else match s.result
        case Empty => s.(ended := Some(AllFailed))
        case Holding(i) => s.(result := MovedFrom, ended := Some(Connected(i)))
        case MovedFrom => s
  }

  function Run(events: seq<Event>): State {
    if events == [] then Initial() else Apply(Run(events[..|events| - 1]), events[|events| - 1])
  }

  /** The attempts that succeeded, in order. */
  function Successes(events: seq<Event>): seq<nat> {
    if events == [] then []
    else
      var before, e := Successes(events[..|events| - 1]), events[|events| - 1];
      if e.Succeed? then before + [e.attempt] else before
  }

  /** The caller is woken at some point after the timer was cancelled. */
  predicate Woken(events: seq<Event>) {
    events != [] && (
      Woken(events[..|events| - 1])
      || (events[|events| - 1].Wake? && Successes(events[..|events| - 1]) != []))
  }

  /**
   For every order of completions: the first success and only it is handed to the
   caller, later ones discard their own socket, the caller is released if and only if
   some attempt has succeeded, and it is never told that all attempts failed.
   */
  lemma {:induction false} FirstSuccessWins(events: seq<Event>)
    ensures var s, won := Run(events), Successes(events);
      && (s.cancelled <==> won != [])
      && s.discarded == (if won == [] then [] else won[1..])
      && (s.ended.Some? <==> Woken(events))
      && (Woken(events) ==> won != [])
      && (s.ended.Some? ==> s.ended == Some(Connected(won[0])) && s.result == MovedFrom)
      && (s.ended.None? ==> s.result == if won == [] then Empty else Holding(won[0]))
    decreases |events|
  {
    if events != [] {
      FirstSuccessWins(events[..|events| - 1]);
    }
  }

  /** When every attempt fails, or there is none, the caller waits for ever. */
  lemma {:induction false} NoSuccessNoReturn(events: seq<Event>)
    requires forall e <- events :: !e.Succeed?
    ensures Run(events).ended == None && !Run(events).cancelled
    decreases |events|
  {
    FirstSuccessWins(events);
    if events != [] {
      NoSuccessNoReturn(events[..|events| - 1]);
      assert events[|events| - 1] in events;
    }
  }

  // ---- The shared state of the coroutines ----

  class Race {
    var result: Slot
    var cancelled: bool
    ghost var state: State

    ghost predicate Valid()
      reads this
    {
      && result == state.result && cancelled == state.cancelled
      && (result.Empty? <==> !cancelled)
      && (state.ended.Some? <==> result.MovedFrom?)
    }

    constructor ()
      ensures Valid() && state == Initial()
    {
      result, cancelled, state := Empty, false, Initial();
    }

    /** `connect_address_work` once its `async_connect` is done; `kept` says who owns the socket. */
    method Complete(attempt: nat, connected: bool) returns (kept: bool)
      requires Valid()
      modifies this
      ensures Valid() && state == Apply(old(state), if connected then Succeed(attempt) else Fail(attempt))
      ensures kept <==> connected && old(result).Empty?
    {
      if !connected { return false; }
      state := Apply(state, Succeed(attempt));
      if !result.Empty? { return false; }
      result := Holding(attempt);
      cancelled := true;
      return true;
    }

    /**
     `connect_address` behind its wait, which only a cancelled timer ends. `Valid` leaves
     no way into the branch of lines 53 to 55 that throws for an empty result.
     */
    method Resume() returns (r: Ending)
      requires Valid() && cancelled && state.ended.None?
      modifies this
      ensures Valid() && state == Apply(old(state), Wake)
      ensures r.Connected? && old(result) == Holding(r.socket)
    {
      state := Apply(state, Wake);
      match result {
        case Holding(socket) =>
          result := MovedFrom;
          return Connected(socket);
      }
    }
  }

  // ---- Runs of the class ----

  lemma RunOfPrefix(events: seq<Event>, i: nat)
    requires i < |events|
    ensures Run(events[..i + 1]) == Apply(Run(events[..i]), events[i])
  {
    assert events[..i + 1][..i] == events[..i];
  }

  /** Any interleaving of completions and wake-ups on one race is the run of the steps. */
  method Interleave(events: seq<Event>) returns (ended: Option<Ending>, discarded: seq<nat>)
    ensures ended == Run(events).ended && discarded == Run(events).discarded
  {
    hide Run;
    var race := new Race();
    ended, discarded := None, [];
    RunOfNothing();
    assert events[..0] == [];
    for i := 0 to |events|
      invariant fresh(race) && race.Valid() && race.state == Run(events[..i])
      invariant ended == race.state.ended && discarded == race.state.discarded
    {
      RunOfPrefix(events, i);
      match events[i] {
        case Succeed(attempt) =>
          var kept := race.Complete(attempt, true);
          if !kept { discarded := discarded + [attempt]; }
        case Fail(attempt) =>
          var _ := race.Complete(attempt, false);
        case Wake =>
          if race.cancelled && ended.None? {
            var r := race.Resume();
            ended := Some(r);
          }
      }
    }
    assert events[..|events|] == events;
  }

  lemma RunOfNothing()
    ensures Run([]) == Initial()
  {
  }
}
