/**
 The two-way relay (src/connections/relay.cpp): two forwarding loops over one pair of
 connections, interleaved in any order, and the timer the first one to end cancels.
 */
module Relay {
  import opened Bytes
  import opened Connections

  const CHUNK: nat := 4096

  // ---- One direction ----

  /**
   `held` is the chunk between the read and the write. `lost` is the part of a chunk
   whose write failed; `wire` is the reading side of the source, `out` all bytes
   written to the destination.
   */
  datatype Pump = Pump(wire: Wire, held: bytes, out: bytes, lost: bytes, live: bool)

  datatype Action =
    | DoRead                       // `read` completes, with data or an error
    | DoWrite                      // `write` completes
    | FailWrite(accepted: nat)     // `write` throws after so many bytes went out; with nothing held, the read does

  function Start(w: Wire, out: bytes): Pump { Pump(w, [], out, [], true) }

  function Act(p: Pump, a: Action): Pump {
    if !p.live then p
    else match a
      case DoRead =>
        if p.held != [] then p      // the loop is at its write
        else
          var (r, w) := ReadFrom(p.wire, CHUNK);
          if r.Ok? then p.(wire := w, held := r.value) else p.(wire := w, live := false)
      case DoWrite => p.(held := [], out := p.out + p.held)
      case FailWrite(n) =>
        var k := if n < |p.held| then n else |p.held|;
        p.(held := [], out := p.out + p.held[..k], lost := p.held[k..], live := false)
  }

  /** Everything one direction ever carries, in order. */
  function Flow(p: Pump): bytes { p.out + p.lost + p.held + Pending(p.wire) }

  lemma ActConserves(p: Pump, a: Action)
    requires ValidWire(p.wire) && (p.live ==> p.lost == [])
    ensures var p' := Act(p, a);
      && ValidWire(p'.wire) && (p'.live ==> p'.lost == [])
      && Flow(p') == Flow(p) && p.out <= p'.out
  {
    if p.live {
      match a {
        case DoRead =>
          ReadConserves(p.wire, CHUNK);
          if p.held == [] {
            var (r, w) := ReadFrom(p.wire, CHUNK);
            var got := if r.Ok? then r.value else [];
            assert p.out + p.lost + [] + (got + Pending(w)) == p.out + p.lost + got + Pending(w);
          }
        case DoWrite =>
          assert p.out + [] + p.held + Pending(p.wire) == p.out + p.held + [] + [] + Pending(p.wire);
        case FailWrite(n) =>
          var k := if n < |p.held| then n else |p.held|;
          assert p.out + [] + p.held + Pending(p.wire)
              == p.out + p.held[..k] + p.held[k..] + [] + Pending(p.wire);
      }
    }
  }

  // ---- Both directions ----

  /** `up` reads the first connection and writes the second; `down` the other way round. */
  datatype RelayState = RelayState(up: Pump, down: Pump, cancelled: bool)

  datatype Event = Up(action: Action) | Down(action: Action)

  /** A forwarder that ends cancels the timer `relay` waits on. */
  function Apply(s: RelayState, e: Event): RelayState {
    match e
    case Up(a) =>
      var up := Act(s.up, a);
      s.(up := up, cancelled := s.cancelled || (s.up.live && !up.live))
    case Down(a) =>
      var down := Act(s.down, a);
      s.(down := down, cancelled := s.cancelled || (s.down.live && !down.live))
  }

  function Run(s: RelayState, events: seq<Event>): RelayState
    decreases |events|
  {
    if events == [] then s else Run(Apply(s, events[0]), events[1..])
  }

  predicate Sound(s: RelayState) {
    && ValidWire(s.up.wire) && ValidWire(s.down.wire)
    && (s.up.live ==> s.up.lost == []) && (s.down.live ==> s.down.lost == [])
    && (s.cancelled <==> !s.up.live || !s.down.live)
  }

  /**
   In every interleaving, with failures anywhere, each direction has written a prefix
   of what it carries, and the timer is cancelled exactly when some direction ended.
   */
  lemma {:induction false} RunConserves(s: RelayState, events: seq<Event>)
    requires Sound(s)
    ensures var t := Run(s, events);
      && Sound(t)
      && Flow(t.up) == Flow(s.up) && s.up.out <= t.up.out <= Flow(s.up)
      && Flow(t.down) == Flow(s.down) && s.down.out <= t.down.out <= Flow(s.down)
    decreases |events|
  {
    hide ValidWire, Pending, ReadFrom;
    if events != [] {
      match events[0] {
        case Up(a) => ActConserves(s.up, a);
        case Down(a) => ActConserves(s.down, a);
      }
      hide Act;
      RunConserves(Apply(s, events[0]), events[1..]);
    }
  }

  /** A direction that is still running has lost nothing. */
  lemma LiveLosesNothing(s: RelayState, events: seq<Event>)
    requires Sound(s)
    ensures var t := Run(s, events);
      && (t.up.live ==> t.up.out + t.up.held + Pending(t.up.wire) == Flow(s.up))
      && (t.down.live ==> t.down.out + t.down.held + Pending(t.down.wire) == Flow(s.down))
  {
    RunConserves(s, events);
    var t := Run(s, events);
    assert t.up.out + [] == t.up.out && t.down.out + [] == t.down.out;
  }

  /** One direction ending does not touch the other: the events of each run on their own. */
  function Only(events: seq<Event>, up: bool): seq<Action>
    decreases |events|
  {
    if events == [] then []
    else
      var rest := Only(events[1..], up);
      if events[0].Up? == up then [events[0].action] + rest else rest
  }

  function RunPump(p: Pump, actions: seq<Action>): Pump
    decreases |actions|
  {
    if actions == [] then p else RunPump(Act(p, actions[0]), actions[1..])
  }

  lemma {:induction false} DirectionsAreIndependent(s: RelayState, events: seq<Event>)
    ensures Run(s, events).up == RunPump(s.up, Only(events, true))
    ensures Run(s, events).down == RunPump(s.down, Only(events, false))
    decreases |events|
  {
    hide Act;
    if events != [] {
      DirectionsAreIndependent(Apply(s, events[0]), events[1..]);
      var up, down := Only(events, true), Only(events, false);
      assert events[0].Up? ==> up[1..] == Only(events[1..], true);
      assert events[0].Down? ==> down[1..] == Only(events[1..], false);
    }
  }

  // ---- Progress ----

  predicate NoFailure(actions: seq<Action>) { forall a <- actions :: !a.FailWrite? }

  /** How often a read completes and then a write; `reading` says which is awaited. */
  function Rounds(actions: seq<Action>, reading: bool): nat {
    if actions == [] then 0
    else if reading then Rounds(actions[1..], !actions[0].DoRead?)
    else if actions[0].DoWrite? then 1 + Rounds(actions[1..], true)
    else Rounds(actions[1..], false)
  }

  /** A pump whose source is up, with only binary messages to come. */
  predicate Running(p: Pump) {
    p.live && p.lost == [] && ValidWire(p.wire) && AllBinary(p.wire.stream)
  }

  /** How many rounds a pump takes at most to be done with what it carries. */
  function Need(p: Pump, reading: bool): nat {
    Left(p.wire) + if reading && p.held == [] then 0 else 1
  }

  /** A completed read holds the next bytes, or ends a loop whose source is exhausted. */
  lemma ReadAdvances(p: Pump)
    requires Running(p) && p.held == []
    ensures var p' := Act(p, DoRead);
      if p'.live then Running(p') && Left(p'.wire) < Left(p.wire) else p'.out == Flow(p)
  {
    hide Pending;
    ReadConserves(p.wire, CHUNK);
    BinaryRead(p.wire, CHUNK);
    if ReadFrom(p.wire, CHUNK).0.Err? {
      assert p.out + [] + [] + [] == p.out;
    }
  }

  /** A completed write puts the whole chunk out, a failed one what was accepted of it. */
  lemma WritesGoOut(p: Pump, n: nat)
    requires p.live
    ensures Act(p, DoWrite) == Pump(p.wire, [], p.out + p.held, p.lost, true)
    ensures n <= |p.held| ==> Act(p, FailWrite(n)) == Pump(p.wire, [], p.out + p.held[..n], p.held[n..], false)
  {
  }

  lemma {:induction false} DeadStaysDead(p: Pump, actions: seq<Action>)
    requires !p.live
    ensures RunPump(p, actions) == p
    decreases |actions|
  {
    if actions != [] { DeadStaysDead(p, actions[1..]); }
  }

  lemma NothingLeft(p: Pump)
    requires Running(p) && Need(p, true) == 0
    ensures p.out == Flow(p)
  {
    assert p.out + [] + [] + [] == p.out;
  }

  lemma StepKeepsNeed(p: Pump, a: Action, reading: bool)
    requires Running(p) && !a.FailWrite?
    ensures var p' := Act(p, a);
      if !p'.live then p'.out == Flow(p)
      else if reading then Running(p') && Need(p', !a.DoRead?) <= Need(p, true)
      else if a.DoWrite? then Running(p') && Need(p', true) + 1 <= Need(p, false)
      else Running(p') && Need(p', false) <= Need(p, false)
    ensures Act(p, a).live && reading && a.DoRead? && p.held == [] ==> Left(p.wire) > 0
  {
    hide Left, Pending, ReadFrom, ValidWire;
    if a.DoRead? && p.held == [] { ReadAdvances(p); }
  }

  /**
   A direction without failed writes gets everything across: after enough rounds of a
   read and a write the destination has every byte, and after one more the loop has ended.
   */
  lemma {:induction false} EverythingArrives(p: Pump, actions: seq<Action>, reading: bool)
    requires Running(p) && NoFailure(actions) && Need(p, reading) <= Rounds(actions, reading)
    ensures var q := RunPump(p, actions);
      && q.out == Flow(p)
      && (Need(p, reading) < Rounds(actions, reading) ==> !q.live)
    decreases |actions|
  {
    hide Act, Flow, Running, Need;
    if actions == [] {
      NeedIsPositive(p);
      NothingLeft(p);
    } else {
      var a, p' := actions[0], Act(p, actions[0]);
      StepKeepsNeed(p, a, reading);
      RunningConserves(p, a);
      if p'.live {
        EverythingArrives(p', actions[1..], if reading then !a.DoRead? else a.DoWrite?);
      } else {
        DeadStaysDead(p', actions[1..]);
      }
    }
  }

  lemma NeedIsPositive(p: Pump)
    ensures Need(p, false) > 0
  {
  }

  lemma RunningConserves(p: Pump, a: Action)
    requires Running(p)
    ensures Flow(Act(p, a)) == Flow(p)
  {
    ActConserves(p, a);
  }

  /** No write fails, and there are rounds enough for `left` bytes and pieces. */
  predicate Fair(actions: seq<Action>, left: nat) { NoFailure(actions) && left <= Rounds(actions, true) }

  /** A direction from `w` is treated fairly. */
  predicate FairTo(events: seq<Event>, up: bool, w: Wire) {
    AllBinary(w.stream) && Fair(Only(events, up), Left(w))
  }

  /**
   Of two interleaved directions, each that is treated fairly gets everything across,
   whatever happens to the other.
   */
  lemma {:induction false} FairDirectionsArrive(up: Pump, down: Pump, events: seq<Event>)
    requires ValidWire(up.wire) && up == Start(up.wire, up.out)
    requires ValidWire(down.wire) && down == Start(down.wire, down.out)
    ensures var t := Run(RelayState(up, down, false), events);
      && (FairTo(events, true, up.wire) ==> t.up.out == up.out + Pending(up.wire))
      && (FairTo(events, false, down.wire) ==> t.down.out == down.out + Pending(down.wire))
  {
    hide Run, RunPump, Left, Pending, ValidWire, Only, NoFailure, Rounds;
    DirectionsAreIndependent(RelayState(up, down, false), events);
    NeedAtStart(up);
    NeedAtStart(down);
    assert Flow(up) == up.out + Pending(up.wire) && Flow(down) == down.out + Pending(down.wire);
    if FairTo(events, true, up.wire) { EverythingArrives(up, Only(events, true), true); }
    if FairTo(events, false, down.wire) { EverythingArrives(down, Only(events, false), true); }
  }

  lemma NeedAtStart(p: Pump)
    requires p.held == []
    ensures Need(p, true) == Left(p.wire)
  {
  }

  // ---- The loops on connections ----

  /** One forwarder over two connections; `live` is false once its loop has thrown. */
  class Forwarder {
    const source: Connection
    const target: Connection
    var held: bytes
    var live: bool
    ghost var lost: bytes

    ghost function State(): Pump
      reads this, source, target
    {
      Pump(source.Reading(), held, target.sent, lost, live)
    }

    constructor (source: Connection, target: Connection)
      ensures this.source == source && this.target == target
      ensures held == [] && lost == [] && live
    {
      this.source, this.target, held, lost, live := source, target, [], [], true;
    }

    /** One resumption of `forward`: its pending read or write completes as `a` says. */
    method Resume(a: Action)
      requires source != target
      modifies this`held, this`live, this`lost, source`stream, source`buffer, target`sent
      ensures State() == Act(old(State()), a)
    {
      if !live { return; }
      match a {
        case DoRead =>
          if held != [] { return; }
          var data := source.Read(CHUNK);
          if data.Err? { live := false; } else { held := data.value; }
        case DoWrite =>
          target.Write(held);
          held := [];
        case FailWrite(n) =>
          var k := if n < |held| then n else |held|;
          target.Write(held[..k]);
          lost := held[k..];
          held, live := [], false;
      }
    }
  }

  /**
   `relay` over a whole schedule of completions. `cancelled` says whether its own wait
   has ended; the forwarders go on without it.
   */
  method RunRelay(conn1: Connection, conn2: Connection, schedule: seq<Event>)
    returns (cancelled: bool, ghost final: RelayState)
    requires conn1 != conn2
    modifies conn1`stream, conn1`buffer, conn1`sent, conn2`stream, conn2`buffer, conn2`sent
    ensures final == Run(RelayState(Start(old(conn1.Reading()), old(conn2.sent)),
                                    Start(old(conn2.Reading()), old(conn1.sent)), false), schedule)
    ensures cancelled == final.cancelled
    ensures conn2.sent == final.up.out && conn1.sent == final.down.out
    ensures conn1.Reading() == final.up.wire && conn2.Reading() == final.down.wire
  {
    var up := new Forwarder(conn1, conn2);
    var down := new Forwarder(conn2, conn1);
    cancelled := false;
    ghost var start := RelayState(up.State(), down.State(), false);
    assert schedule[0..] == schedule;
    for i := 0 to |schedule|
      invariant up.source == conn1 && up.target == conn2 && down.source == conn2 && down.target == conn1
      invariant Run(start, schedule) == Run(RelayState(up.State(), down.State(), cancelled), schedule[i..])
    {
      ghost var before := RelayState(up.State(), down.State(), cancelled);
      match schedule[i] {
        case Up(a) =>
          var was := up.live;
          up.Resume(a);
          cancelled := cancelled || (was && !up.live);
        case Down(a) =>
          var was := down.live;
          down.Resume(a);
          cancelled := cancelled || (was && !down.live);
      }
      assert RelayState(up.State(), down.State(), cancelled) == Apply(before, schedule[i]);
      assert schedule[i..][1..] == schedule[i + 1..];
    }
    final := RelayState(up.State(), down.State(), cancelled);
  }
}
