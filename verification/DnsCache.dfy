/**
 The DNS cache and its sweeper (src/dns/cache.cpp). Every operation is one atomic step
 on the single thread and takes the clock's reading as a parameter.
 */
module DnsCache {
  import opened Bytes
  import opened Address

  /** `expTime_`, one hour, in nanoseconds. */
  const EXPIRY: nat := 3_600_000_000_000

  datatype Item = Item(lastAccess: int, ips: seq<Ip>)

  type Table = map<bytes, Item>

  // ---- The steps ----

  function Found(t: Table, domain: bytes): seq<Ip> {
    if domain in t then t[domain].ips else []
  }

  /** A hit refreshes the entry. */
  function Touched(t: Table, domain: bytes, now: int): Table {
    if domain in t then t[domain := t[domain].(lastAccess := now)] else t
  }

  function Stored(t: Table, domain: bytes, ips: seq<Ip>, now: int): Table {
    t[domain := Item(now, ips)]
  }

  predicate Fresh(item: Item, now: int) { now - item.lastAccess <= EXPIRY }

  function Swept(t: Table, now: int): Table {
    map d | d in t && Fresh(t[d], now) :: t[d]
  }

  class Cache {
    var data: Table

    constructor ()
      ensures data == map[]
    {
      data := map[];
    }

    method Lookup(domain: bytes, now: int) returns (ips: seq<Ip>)
      modifies this
      ensures ips == Found(old(data), domain) && data == Touched(old(data), domain, now)
    {
      if domain !in data { return []; }
      data := data[domain := data[domain].(lastAccess := now)];
      return data[domain].ips;
    }

    method Store(domain: bytes, ips: seq<Ip>, now: int)
      modifies this
      ensures data == Stored(old(data), domain, ips, now)
    {
      data := data[domain := Item(now, ips)];
    }

    /** One round of `mainWork_`: the entries are visited in an arbitrary order. */
    method Sweep(now: int)
      modifies this
      ensures data == Swept(old(data), now)
    {
      var unvisited := data.Keys;
      while unvisited != {}
        invariant unvisited <= data.Keys <= old(data).Keys
        invariant forall d <- data :: data[d] == old(data)[d]
        invariant forall d <- old(data) :: d in data <==> d in unvisited || Fresh(old(data)[d], now)
        decreases unvisited
      {
        var d :| d in unvisited;
        unvisited := unvisited - {d};
        if now - data[d].lastAccess > EXPIRY {
          data := data - {d};
        }
      }
    }
  }

  // ---- Runs ----

  datatype Event =
    | Lookup(domain: bytes, time: int)
    | Store(domain: bytes, ips: seq<Ip>, time: int)
    | Sweep(time: int)

  function Apply(t: Table, e: Event): Table {
    match e
    case Lookup(d, now) => Touched(t, d, now)
    case Store(d, ips, now) => Stored(t, d, ips, now)
    case Sweep(now) => Swept(t, now)
  }

  function Run(events: seq<Event>): Table {
    if events == [] then map[] else Apply(Run(events[..|events| - 1]), events[|events| - 1])
  }

  predicate Concerns(e: Event, domain: bytes) { !e.Sweep? && e.domain == domain }

  predicate Monotone(events: seq<Event>) {
    forall i, j :: 0 <= i <= j < |events| ==> events[i].time <= events[j].time
  }

  /** The position of the last lookup or store of a domain, -1 if there is none. */
  function LastUse(events: seq<Event>, domain: bytes): (i: int)
    ensures -1 <= i < |events|
    ensures i >= 0 ==> Concerns(events[i], domain)
    ensures forall k :: i < k < |events| ==> !Concerns(events[k], domain)
  {
    if events == [] then -1
    else if Concerns(events[|events| - 1], domain) then |events| - 1
    else LastUse(events[..|events| - 1], domain)
  }

  /** The position of the last store of a domain, -1 if there is none. */
  function LastStore(events: seq<Event>, domain: bytes): (i: int)
    ensures -1 <= i < |events|
    ensures i >= 0 ==> events[i].Store? && events[i].domain == domain
    ensures forall k :: i < k < |events| ==> !(events[k].Store? && events[k].domain == domain)
  {
    if events == [] then -1
    else if Concerns(events[|events| - 1], domain) && events[|events| - 1].Store? then |events| - 1
    else LastStore(events[..|events| - 1], domain)
  }

  /** A present entry holds the last list stored, and the time of the last use. */
  lemma {:induction false} EntryIsLastStored(events: seq<Event>, domain: bytes)
    requires domain in Run(events)
    ensures var i, k := LastStore(events, domain), LastUse(events, domain);
      && 0 <= i <= k
      && Run(events)[domain] == Item(events[k].time, events[i].ips)
    decreases |events|
  {
    var e := events[|events| - 1];
    if !(e.Store? && e.domain == domain) {
      EntryIsLastStored(events[..|events| - 1], domain);
    }
  }

  /** A lookup answers nothing, or the last list stored for the domain. */
  lemma LookupIsLastStored(events: seq<Event>, domain: bytes)
    ensures Found(Run(events), domain) == []
         || (LastStore(events, domain) >= 0
             && Found(Run(events), domain) == events[LastStore(events, domain)].ips)
  {
    if domain in Run(events) {
      EntryIsLastStored(events, domain);
    }
  }

  /** The sweep at position `j` finds the entry used recently enough. */
  predicate SparedBy(events: seq<Event>, j: int, domain: bytes)
    requires 0 <= j < |events|
  {
    var k := LastUse(events[..j], domain);
    events[j].Sweep? ==> k >= 0 && events[j].time - events[k].time <= 3_600_000_000_000
  }

  /** Every sweep since position `i` spares the entry. */
  predicate SparedSince(events: seq<Event>, i: int, domain: bytes)
    requires -1 <= i
  {
    forall j :: i < j < |events| ==> SparedBy(events, j, domain)
  }

  /**
   Exactly which entries are present after a run: those stored at some point whose
   every later sweep came at most `EXPIRY` after their last use before it.
   */
  lemma {:induction false} PresentExactly(events: seq<Event>, domain: bytes)
    ensures domain in Run(events)
       <==> LastStore(events, domain) >= 0 && SparedSince(events, LastStore(events, domain), domain)
    decreases |events|
  {
    if events != [] {
      var n, before, e := |events| - 1, events[..|events| - 1], events[|events| - 1];
      var i := LastStore(events, domain);
      PresentExactly(before, domain);
      if !(e.Store? && e.domain == domain) {
        assert i == LastStore(before, domain);
        forall j | i < j < n ensures SparedBy(events, j, domain) == SparedBy(before, j, domain) {
          assert events[..j] == before[..j];
        }
        assert SparedSince(events, i, domain) <==> SparedSince(before, i, domain) && (i < n ==> SparedBy(events, n, domain));
        if domain in Run(before) {
          EntryIsLastStored(before, domain);
        }
      }
    }
  }

  lemma UseOfPrefix(events: seq<Event>, j: nat, domain: bytes)
    requires j <= |events|
    ensures LastUse(events[..j], domain) <= LastUse(events, domain)
    ensures LastUse(events, domain) < j ==> LastUse(events[..j], domain) == LastUse(events, domain)
  {
    var k, m := LastUse(events[..j], domain), LastUse(events, domain);
    assert k >= 0 ==> events[k] == events[..j][k];
    assert 0 <= m < j ==> events[..j][m] == events[m];
  }

  lemma StoreBeforeUse(events: seq<Event>, domain: bytes)
    ensures LastStore(events, domain) <= LastUse(events, domain)
  {
    var i := LastStore(events, domain);
    assert i >= 0 ==> Concerns(events[i], domain);
  }

  /** No entry is swept within `EXPIRY` of a use, whatever else happens meanwhile. */
  lemma {:induction false} NotSweptEarly(events: seq<Event>, k: nat, domain: bytes)
    requires Monotone(events) && k <= |events| && domain in Run(events[..k])
    requires var used := LastUse(events[..k], domain);
      used >= 0 && forall j :: k <= j < |events| ==> events[j].time <= events[used].time + EXPIRY
    ensures domain in Run(events)
    decreases |events|
  {
    if k == |events| {
      assert events[..k] == events;
    } else {
      var before, e := events[..|events| - 1], events[|events| - 1];
      assert before[..k] == events[..k];
      EntryIsLastStored(events[..k], domain);
      NotSweptEarly(before, k, domain);
      EntryIsLastStored(before, domain);
      UseOfPrefix(before, k, domain);
      assert events[LastUse(events[..k], domain)].time <= events[LastUse(before, domain)].time;
    }
  }

  /** A sweep runs in every window of this length. */
  predicate SweptWithin(events: seq<Event>, from: int, gap: nat) {
    exists j :: 0 <= j < |events| && events[j].Sweep? && from < events[j].time <= from + gap
  }

  /**
   If sweeps are never more than `gap` apart, an entry still present has been used
   less than `EXPIRY + gap` ago. The sweeper waits `EXPIRY` between rounds, so with a
   delay of at most d the bound is twice `EXPIRY` plus d.
   */
  lemma IdleEntriesGo(events: seq<Event>, domain: bytes, now: int, gap: nat)
    requires Monotone(events) && domain in Run(events)
    requires forall from: int :: events[0].time <= from <= now - gap ==> SweptWithin(events, from, gap)
    ensures LastUse(events, domain) >= 0
    ensures now - events[LastUse(events, domain)].time < EXPIRY + gap
  {
    PresentExactly(events, domain);
    StoreBeforeUse(events, domain);
    var m := LastUse(events, domain);
    var used := events[m].time;
    if now - used >= EXPIRY + gap {
      assert SweptWithin(events, used + EXPIRY, gap);
      var j :| 0 <= j < |events| && events[j].Sweep? && used + EXPIRY < events[j].time <= used + EXPIRY + gap;
      var spared := SparedBy(events, j, domain);
      UseOfPrefix(events, j, domain);
      assert false;
    }
  }
}
