/**
 The DNS center (src/dns/dns.cpp): `resolve` is two atomic steps around the relay of
 its query, and any number of resolves interleave with each other and the sweeper.
 */
module DnsCenter {
  import opened Bytes
  import opened Address
  import opened DnsName
  import opened DnsMessage
  import opened Rules
  import Builder
  import DnsCache

  /** How the first step of a resolve ends. */
  datatype Begun = Hit(ips: seq<Ip>) | Asking(query: bytes)

  // ---- The class ----

  class Center {
    const rules: seq<Builder.DnsRule>
    const servers: set<bytes>
    const final: bytes
    const regex: RegexMatch
    const cache: DnsCache.Cache

    constructor (rules: seq<Builder.DnsRule>, servers: set<bytes>, final: bytes, regex: RegexMatch)
      ensures this.rules == rules && this.servers == servers && this.final == final && this.regex == regex
      ensures fresh(cache) && cache.data == map[]
    {
      this.rules, this.servers, this.final, this.regex := rules, servers, final, regex;
      cache := new DnsCache.Cache();
    }

    /** `relay` up to the server it asks: by the domain in the query itself. */
    method ChooseServer(data: bytes) returns (r: Result<bytes>)
      ensures r == ServerOf(data, rules, servers, final, regex)
    {
      var domain := ParseDnsQuery(data);
      if domain.Err? { return Err(domain.why); }
      var serverTag := Builder.MatchServer(rules, final, domain.value, regex);
      if serverTag !in servers { return Err(UnknownServer); }
      return Ok(serverTag);
    }

    /** `resolve` up to its `co_await`: an empty cached list counts as a miss. */
    method BeginResolve(domain: bytes, id: u16, now: int) returns (r: Result<Begun>)
      modifies cache
      ensures r == BeginResult(old(cache.data), domain, id)
      ensures cache.data == DnsCache.Touched(old(cache.data), domain, now)
    {
      var ips := cache.Lookup(domain, now);
      if ips != [] { return Ok(Hit(ips)); }
      var data := BuildDnsQuery(id, domain, false);
      if data.Err? { return Err(data.why); }
      return Ok(Asking(data.value));
    }

    /** `resolve` behind its `co_await`, with whatever the server sent. */
    method FinishResolve(domain: bytes, data: bytes, now: int) returns (r: Result<seq<Ip>>)
      modifies cache
      ensures r == Response(data)
      ensures cache.data == if r.Ok? then DnsCache.Stored(old(cache.data), domain, r.value, now)
                            else old(cache.data)
    {
      var ips := ParseDnsResponse(data);
      if ips.Err? { return Err(ips.why); }
      cache.Store(domain, ips.value, now);
      return ips;
    }
  }

  // ---- Which server a query reaches ----

  function ServerOf(data: bytes, rules: seq<Builder.DnsRule>, servers: set<bytes>, final: bytes,
                    regex: RegexMatch): Result<bytes> {
    match QueryDomain(data)
    case Err(e) => Err(e)
    case Ok(domain) =>
      var tag := Builder.FirstServer(rules, final, domain, regex);
      if tag in servers then Ok(tag) else Err(UnknownServer)
  }

  /**
   A resolve reaches the server the configuration names for its domain without the
   trailing dots: encoding, decoding and flattening in between change nothing.
   */
  lemma ResolveReachesItsServer(configs: seq<Builder.DnsConfig>, sets: Builder.RuleSets, servers: set<bytes>,
                                final: bytes, regex: RegexMatch, id: u16, domain: bytes, v6: bool)
    requires Builder.DnsLoaded(configs, sets) && Query(id, domain, v6).Ok?
    ensures var tag := Builder.ServerFor(configs, sets, final, StripDots(domain), regex);
      ServerOf(Query(id, domain, v6).value, Builder.FlatDns(configs, sets), servers, final, regex)
      == if tag in servers then Ok(tag) else Err(UnknownServer)
  {
    QueryRoundTrip(id, domain, v6);
    Builder.FlatDnsMeans(configs, sets, final, StripDots(domain), regex);
  }

  // ---- Interleaved resolves ----

  function BeginResult(t: DnsCache.Table, domain: bytes, id: u16): Result<Begun> {
    var ips := DnsCache.Found(t, domain);
    if ips != [] then Ok(Hit(ips))
    else match Query(id, domain, false)
      case Err(e) => Err(e)
      case Ok(query) => Ok(Asking(query))
  }

  /** `cached` when no server was asked. */
  datatype Answer = Answer(domain: bytes, ips: seq<Ip>, cached: bool)

  /** `asking` holds the domain of every resolve that awaits its response. */
  datatype State = State(
    table: DnsCache.Table,
    asking: map<nat, bytes>,
    answers: seq<Answer>,
    responses: seq<(bytes, bytes)>)

  datatype Event =
    | Begin(ticket: nat, domain: bytes, id: u16, time: int)
    | Finish(ticket: nat, data: bytes, time: int)
    | Sweep(time: int)

  function Apply(s: State, e: Event): State {
    match e
    case Begin(ticket, domain, id, now) =>
      var s1 := s.(table := DnsCache.Touched(s.table, domain, now));
      (match BeginResult(s.table, domain, id)
       case Err(_) => s1
       case Ok(Hit(ips)) => s1.(answers := s.answers + [Answer(domain, ips, true)])
       case Ok(Asking(_)) => s1.(asking := s.asking[ticket := domain]))
    case Finish(ticket, data, now) =>
      if ticket !in s.asking then s
      else
        var domain := s.asking[ticket];
        var s1 := s.(asking := s.asking - {ticket}, responses := s.responses + [(domain, data)]);
        (match Response(data)
         case Err(_) => s1
         case Ok(ips) =>
           s1.(table := DnsCache.Stored(s.table, domain, ips, now), answers := s.answers + [Answer(domain, ips, false)]))
    case Sweep(now) => s.(table := DnsCache.Swept(s.table, now))
  }

  function Run(events: seq<Event>): State {
    if events == [] then State(map[], map[], [], [])
    else Apply(Run(events[..|events| - 1]), events[|events| - 1])
  }

  /** The list came out of a response obtained for that very domain. */
  predicate Obtained(responses: seq<(bytes, bytes)>, domain: bytes, ips: seq<Ip>) {
    exists r <- responses :: r.0 == domain && Response(r.1) == Ok(ips)
  }

  predicate Honest(s: State) {
    && (forall d <- s.table :: Obtained(s.responses, d, s.table[d].ips))
    && (forall a <- s.answers :: Obtained(s.responses, a.domain, a.ips))
  }

  lemma ObtainedStays(responses: seq<(bytes, bytes)>, more: (bytes, bytes), domain: bytes, ips: seq<Ip>)
    requires Obtained(responses, domain, ips)
    ensures Obtained(responses + [more], domain, ips)
  {
    var r :| r in responses && r.0 == domain && Response(r.1) == Ok(ips);
    assert r in responses + [more];
  }

  lemma BeginIsHonest(s: State, e: Event)
    requires Honest(s) && e.Begin?
    ensures Honest(Apply(s, e))
  {
    hide Obtained, Query;
    var s' := Apply(s, e);
    forall a | a in s'.answers ensures Obtained(s'.responses, a.domain, a.ips) {
      if a !in s.answers {
        assert a.domain in s.table && a.ips == s.table[a.domain].ips;
      }
    }
  }

  lemma FinishIsHonest(s: State, e: Event)
    requires Honest(s) && e.Finish?
    ensures Honest(Apply(s, e))
  {
    hide Response;
    var s' := Apply(s, e);
    if e.ticket in s.asking {
      var domain := s.asking[e.ticket];
      var more := (domain, e.data);
      assert more in s'.responses;
      forall d | d in s.table ensures Obtained(s'.responses, d, s.table[d].ips) {
        ObtainedStays(s.responses, more, d, s.table[d].ips);
      }
      forall a | a in s.answers ensures Obtained(s'.responses, a.domain, a.ips) {
        ObtainedStays(s.responses, more, a.domain, a.ips);
      }
      if Response(e.data).Ok? {
        assert Obtained(s'.responses, domain, Response(e.data).value);
      }
    }
  }

  /**
   However resolves and sweeps interleave, every answer, cached or not, is what some
   response for that same domain parses to.
   */
  lemma {:induction false} EveryAnswerWasObtained(events: seq<Event>)
    ensures Honest(Run(events))
    decreases |events|
  {
    if events != [] {
      var before, e := Run(events[..|events| - 1]), events[|events| - 1];
      EveryAnswerWasObtained(events[..|events| - 1]);
      match e {
        case Begin(_, _, _, _) => BeginIsHonest(before, e);
        case Finish(_, _, _) => FinishIsHonest(before, e);
        case Sweep(_) => hide Obtained;
      }
    }
  }

  // ---- The cache under interleaved resolves ----

  /** What an event of the center does to the cache. */
  function CacheEvents(s: State, e: Event): seq<DnsCache.Event> {
    match e
    case Begin(_, domain, _, now) => [DnsCache.Lookup(domain, now)]
    case Finish(ticket, data, now) =>
      if ticket in s.asking && Response(data).Ok?
      then [DnsCache.Store(s.asking[ticket], Response(data).value, now)] else []
    case Sweep(now) => [DnsCache.Sweep(now)]
  }

  /** A run of the center, as the cache sees it. */
  function Project(events: seq<Event>): seq<DnsCache.Event> {
    if events == [] then []
    else
      var before := events[..|events| - 1];
      Project(before) + CacheEvents(Run(before), events[|events| - 1])
  }

  lemma CacheStep(events: seq<DnsCache.Event>, more: seq<DnsCache.Event>)
    requires |more| <= 1
    ensures DnsCache.Run(events + more)
         == if more == [] then DnsCache.Run(events) else DnsCache.Apply(DnsCache.Run(events), more[0])
  {
    if more == [] {
      assert events + more == events;
    } else {
      assert (events + more)[..|events + more| - 1] == events;
    }
  }

  lemma StepIsCacheStep(s: State, e: Event)
    ensures |CacheEvents(s, e)| <= 1
    ensures Apply(s, e).table
         == if CacheEvents(s, e) == [] then s.table else DnsCache.Apply(s.table, CacheEvents(s, e)[0])
  {
    hide Response, BeginResult, DnsCache.Touched, DnsCache.Stored, DnsCache.Swept;
  }

  /** Interleaved resolves leave the cache as the lookups and stores among them would. */
  lemma {:induction false} TableIsCacheRun(events: seq<Event>)
    ensures Run(events).table == DnsCache.Run(Project(events))
    decreases |events|
  {
    if events != [] {
      hide Apply, DnsCache.Apply, CacheEvents;
      var before, e := events[..|events| - 1], events[|events| - 1];
      TableIsCacheRun(before);
      StepIsCacheStep(Run(before), e);
      CacheStep(Project(before), CacheEvents(Run(before), e));
    }
  }

  predicate Monotone(events: seq<Event>) {
    forall i, j :: 0 <= i <= j < |events| ==> events[i].time <= events[j].time
  }

  /** So every theorem about cache runs in order of time applies to interleaved resolves. */
  lemma {:induction false} ProjectionKeepsTime(events: seq<Event>)
    requires Monotone(events)
    ensures DnsCache.Monotone(Project(events))
    ensures forall e <- Project(events) :: e.time <= events[|events| - 1].time
    decreases |events|
  {
    hide Run, Response;
    if events != [] {
      var before, e := events[..|events| - 1], events[|events| - 1];
      ProjectionKeepsTime(before);
      forall x | x in Project(before) ensures x.time <= e.time {
        assert before != [] && before[|before| - 1].time <= e.time;
      }
    }
  }

  /**
   Exactly when a resolve is answered without asking a server, and with what: the
   domain's last stored list is not empty, and every later sweep spared it.
   */
  lemma {:induction false} HitExactly(events: seq<Event>, domain: bytes, id: u16, ips: seq<Ip>)
    ensures var seen := Project(events);
      var i := DnsCache.LastStore(seen, domain);
      BeginResult(Run(events).table, domain, id) == Ok(Hit(ips))
      <==> ips != [] && i >= 0 && seen[i].ips == ips && DnsCache.SparedSince(seen, i, domain)
  {
    hide Query;
    TableIsCacheRun(events);
    DnsCache.PresentExactly(Project(events), domain);
    if domain in Run(events).table {
      DnsCache.EntryIsLastStored(Project(events), domain);
    }
  }

  predicate NoEmptyHits(s: State) { forall a <- s.answers :: a.cached ==> a.ips != [] }

  lemma StepAddsNoEmptyHit(s: State, e: Event)
    requires NoEmptyHits(s)
    ensures NoEmptyHits(Apply(s, e))
  {
    hide Response, Query, DnsCache.Found, DnsCache.Touched, DnsCache.Stored, DnsCache.Swept;
  }

  lemma AskedWhenEmpty(t: DnsCache.Table, domain: bytes, id: u16)
    requires DnsCache.Found(t, domain) == [] && Query(id, domain, false).Ok?
    ensures BeginResult(t, domain, id) == Ok(Asking(Query(id, domain, false).value))
  {
    hide Query, DnsCache.Found;
  }

  /**
   Over all interleavings an answer from the cache is never empty: when the last list
   obtained for a domain was empty, the next resolve asks a server again.
   */
  lemma {:induction false} EmptyAnswersAreAskedAgain(events: seq<Event>, domain: bytes, id: u16)
    ensures NoEmptyHits(Run(events))
    ensures var seen := Project(events);
      var i := DnsCache.LastStore(seen, domain);
      i >= 0 && seen[i].ips == [] && Query(id, domain, false).Ok?
      ==> BeginResult(Run(events).table, domain, id) == Ok(Asking(Query(id, domain, false).value))
    decreases |events|
  {
    hide Query, Apply, BeginResult, Project, DnsCache.Found, DnsCache.LastStore, DnsCache.Run;
    TableIsCacheRun(events);
    DnsCache.LookupIsLastStored(Project(events), domain);
    if DnsCache.Found(Run(events).table, domain) == [] && Query(id, domain, false).Ok? {
      AskedWhenEmpty(Run(events).table, domain, id);
    }
    if events != [] {
      EmptyAnswersAreAskedAgain(events[..|events| - 1], domain, id);
      StepAddsNoEmptyHit(Run(events[..|events| - 1]), events[|events| - 1]);
    }
  }

  // ---- Resolves end to end ----

  predicate Concerns(e: Event, ticket: nat) { !e.Sweep? && e.ticket == ticket }

  lemma RunOfNext(events: seq<Event>, e: Event)
    ensures Run(events + [e]) == Apply(Run(events), e)
  {
    assert (events + [e])[..|events|] == events;
  }

  lemma {:induction false} StillAsking(events: seq<Event>, i: nat, ticket: nat)
    requires i <= |events| && ticket in Run(events[..i]).asking
    requires forall k :: i <= k < |events| ==> !Concerns(events[k], ticket)
    ensures ticket in Run(events).asking && Run(events).asking[ticket] == Run(events[..i]).asking[ticket]
    decreases |events|
  {
    if i == |events| {
      assert events[..i] == events;
    } else {
      var before := events[..|events| - 1];
      assert before[..i] == events[..i];
      StillAsking(before, i, ticket);
      OthersKeepAsking(Run(before), events[|events| - 1], ticket);
    }
  }

  lemma OthersKeepAsking(s: State, e: Event, ticket: nat)
    requires ticket in s.asking && !Concerns(e, ticket)
    ensures ticket in Apply(s, e).asking && Apply(s, e).asking[ticket] == s.asking[ticket]
  {
    hide Response, BeginResult;
  }

  /**
   Whatever happens between a resolve that asks and its response, the response's addresses
   answer it and are the domain's entry from then on; one that does not parse does neither.
   */
  lemma {:induction false} AskedResolveIsAnswered(events: seq<Event>, i: nat, data: bytes, now: int)
    requires i < |events| && events[i].Begin?
    requires BeginResult(Run(events[..i]).table, events[i].domain, events[i].id).Ok?
    requires BeginResult(Run(events[..i]).table, events[i].domain, events[i].id).value.Asking?
    requires forall k :: i < k < |events| ==> !Concerns(events[k], events[i].ticket)
    ensures var domain, ticket := events[i].domain, events[i].ticket;
      var s, s' := Run(events), Run(events + [Finish(ticket, data, now)]);
      && ticket !in s'.asking
      && match Response(data)
         case Ok(ips) =>
           && s'.answers == s.answers + [Answer(domain, ips, false)]
           && s'.table == s.table[domain := DnsCache.Item(now, ips)]
         case Err(_) => s'.answers == s.answers && s'.table == s.table
  {
    var e := events[i];
    BeginAsks(events[..i], e);
    assert events[..i + 1] == events[..i] + [e];
    StillAsking(events, i + 1, e.ticket);
    RunOfNext(events, Finish(e.ticket, data, now));
    hide Run, Response;
  }

  lemma BeginAsks(events: seq<Event>, e: Event)
    requires e.Begin? && BeginResult(Run(events).table, e.domain, e.id).Ok?
    requires BeginResult(Run(events).table, e.domain, e.id).value.Asking?
    ensures var s := Run(events + [e]); e.ticket in s.asking && s.asking[e.ticket] == e.domain
  {
    RunOfNext(events, e);
    hide Run, BeginResult;
  }

  /** A resolve that hits is answered at once, with the cached list. */
  lemma {:induction false} HitIsAnswered(events: seq<Event>, e: Event, ips: seq<Ip>)
    requires e.Begin? && BeginResult(Run(events).table, e.domain, e.id) == Ok(Hit(ips))
    ensures Run(events + [e]).answers == Run(events).answers + [Answer(e.domain, ips, true)]
    ensures Run(events + [e]).asking == Run(events).asking
  {
    RunOfNext(events, e);
    hide Run, BeginResult;
  }

  lemma RunOfPrefix(events: seq<Event>, i: nat)
    requires i < |events|
    ensures Run(events[..i + 1]) == Apply(Run(events[..i]), events[i])
  {
    assert events[..i + 1] == events[..i] + [events[i]];
    RunOfNext(events[..i], events[i]);
  }

  /** Any interleaving of resolves and sweeps on one center is the run of the steps. */
  method Interleave(rules: seq<Builder.DnsRule>, servers: set<bytes>, final: bytes, regex: RegexMatch,
                    events: seq<Event>)
    returns (center: Center, answers: seq<Answer>)
    ensures center.cache.data == Run(events).table && answers == Run(events).answers
  {
    hide Run, Response, BeginResult, DnsCache.Touched, DnsCache.Stored, DnsCache.Swept;
    center := new Center(rules, servers, final, regex);
    answers := [];
    var asking: map<nat, bytes> := map[];
    RunOfNothing();
    assert events[..0] == [];
    for i := 0 to |events|
      invariant fresh(center) && fresh(center.cache)
      invariant center.cache.data == Run(events[..i]).table
      invariant answers == Run(events[..i]).answers && asking == Run(events[..i]).asking
    {
      RunOfPrefix(events, i);
      match events[i] {
        case Begin(ticket, domain, id, now) =>
          var r := center.BeginResolve(domain, id, now);
          if r.Ok? {
            match r.value {
              case Hit(ips) => answers := answers + [Answer(domain, ips, true)];
              case Asking(_) => asking := asking[ticket := domain];
            }
          }
        case Finish(ticket, data, now) =>
          if ticket in asking {
            var domain := asking[ticket];
            asking := asking - {ticket};
            var r := center.FinishResolve(domain, data, now);
            if r.Ok? { answers := answers + [Answer(domain, r.value, false)]; }
          }
        case Sweep(now) =>
          center.cache.Sweep(now);
      }
    }
    assert events[..|events|] == events;
  }

  lemma RunOfNothing()
    ensures Run([]) == State(map[], map[], [], [])
  {
  }
}
