/**
 How configured rules become the lists the program scans (src/common/builder.cpp):
 rule sets are spliced in by tag, behind the rule's own conditions for routes and
 before them for DNS. Neither order changes what a configuration means.
 */
module Builder {
  import opened Bytes
  import opened Address
  import opened Rules

  type RuleSets = map<bytes, seq<Rule>>

  datatype RouteConfig = RouteConfig(own: Rule, ruleSets: seq<bytes>, outbound: bytes)

  datatype DnsConfig = DnsConfig(own: DomainRule, ruleSets: seq<bytes>, server: bytes)

  datatype DnsRule = DnsRule(rule: DomainRule, server: bytes)

  predicate Loaded(tags: seq<bytes>, sets: RuleSets) { forall t <- tags :: t in sets }

  predicate RoutesLoaded(configs: seq<RouteConfig>, sets: RuleSets) {
    forall c <- configs :: Loaded(c.ruleSets, sets)
  }

  predicate DnsLoaded(configs: seq<DnsConfig>, sets: RuleSets) {
    forall c <- configs :: Loaded(c.ruleSets, sets)
  }

  // ---- What a configuration means ----

  predicate SetsMatch(tags: seq<bytes>, sets: RuleSets, address: Address, regex: RegexMatch)
    requires Loaded(tags, sets)
  {
    exists t <- tags :: GroupMatches(sets[t], address, regex)
  }

  /** The outbound of the first rule whose own conditions or rule sets match. */
  function OutboundFor(configs: seq<RouteConfig>, sets: RuleSets, final: bytes,
                       address: Address, regex: RegexMatch): bytes
    requires RoutesLoaded(configs, sets)
  {
    if configs == [] then final
    else
      assert Loaded(configs[0].ruleSets, sets);
      if RuleMatches(configs[0].own, address, regex) || SetsMatch(configs[0].ruleSets, sets, address, regex)
      then configs[0].outbound
      else OutboundFor(configs[1..], sets, final, address, regex)
  }

  predicate DomainSetsMatch(tags: seq<bytes>, sets: RuleSets, domain: bytes, regex: RegexMatch)
    requires Loaded(tags, sets)
  {
    exists t <- tags :: exists r <- sets[t] :: DomainMatches(r.domainRule, domain, regex)
  }

  /** The server of the first DNS rule whose own conditions or rule sets match. */
  function ServerFor(configs: seq<DnsConfig>, sets: RuleSets, final: bytes,
                     domain: bytes, regex: RegexMatch): bytes
    requires DnsLoaded(configs, sets)
  {
    if configs == [] then final
    else
      assert Loaded(configs[0].ruleSets, sets);
      if DomainMatches(configs[0].own, domain, regex) || DomainSetsMatch(configs[0].ruleSets, sets, domain, regex)
      then configs[0].server
      else ServerFor(configs[1..], sets, final, domain, regex)
  }

  // ---- Flattening ----

  /** The rules of the named sets, in order. */
  function Splice(tags: seq<bytes>, sets: RuleSets): seq<Rule>
    requires Loaded(tags, sets)
  {
    if tags == [] then []
    else
      assert tags[0] in tags;
      sets[tags[0]] + Splice(tags[1..], sets)
  }

  function FlatRoutes(configs: seq<RouteConfig>, sets: RuleSets): seq<RouteRule>
    requires RoutesLoaded(configs, sets)
  {
    if configs == [] then []
    else
      var c := configs[0];
      assert Loaded(c.ruleSets, sets);
      [RouteRule([c.own] + Splice(c.ruleSets, sets), c.outbound)] + FlatRoutes(configs[1..], sets)
  }

  function Tagged(rules: seq<Rule>, server: bytes): seq<DnsRule> {
    seq(|rules|, i requires 0 <= i < |rules| => DnsRule(rules[i].domainRule, server))
  }

  function FlatDns(configs: seq<DnsConfig>, sets: RuleSets): seq<DnsRule>
    requires DnsLoaded(configs, sets)
  {
    if configs == [] then []
    else
      var c := configs[0];
      assert Loaded(c.ruleSets, sets);
      Tagged(Splice(c.ruleSets, sets), c.server) + [DnsRule(c.own, c.server)] + FlatDns(configs[1..], sets)
  }

  lemma {:induction false} SpliceAppend(tags: seq<bytes>, tag: bytes, sets: RuleSets)
    requires Loaded(tags, sets) && tag in sets
    ensures Loaded(tags + [tag], sets) && Splice(tags + [tag], sets) == Splice(tags, sets) + sets[tag]
    decreases |tags|
  {
    assert forall t :: t in tags + [tag] ==> t in tags || t == tag;
    if tags == [] {
      assert [tag][1..] == [] && Splice([tag], sets) == sets[tag] + Splice([], sets);
      assert tags + [tag] == [tag];
    } else {
      assert (tags + [tag])[1..] == tags[1..] + [tag];
      SpliceAppend(tags[1..], tag, sets);
      assert Splice(tags + [tag], sets) == sets[tags[0]] + Splice(tags[1..] + [tag], sets);
    }
  }

  /** `buildRouteRule`; the own rule is already built. */
  method BuildRouteRule(config: RouteConfig, sets: RuleSets) returns (r: Result<RouteRule>)
    ensures r == if Loaded(config.ruleSets, sets)
                 then Ok(RouteRule([config.own] + Splice(config.ruleSets, sets), config.outbound))
                 else Err(UnknownRuleSet)
  {
    var rules := [config.own];
    var tags := config.ruleSets;
    for i := 0 to |tags|
      invariant Loaded(tags[..i], sets) && rules == [config.own] + Splice(tags[..i], sets)
    {
      if tags[i] !in sets { return Err(UnknownRuleSet); }
      SpliceAppend(tags[..i], tags[i], sets);
      assert tags[..i + 1] == tags[..i] + [tags[i]];
      rules := rules + sets[tags[i]];
    }
    assert tags[..|tags|] == tags;
    return Ok(RouteRule(rules, config.outbound));
  }

  lemma {:induction false} FlatRoutesAppend(configs: seq<RouteConfig>, c: RouteConfig, sets: RuleSets)
    requires RoutesLoaded(configs, sets) && Loaded(c.ruleSets, sets)
    ensures RoutesLoaded(configs + [c], sets)
    ensures FlatRoutes(configs + [c], sets)
         == FlatRoutes(configs, sets) + [RouteRule([c.own] + Splice(c.ruleSets, sets), c.outbound)]
    decreases |configs|
  {
    assert forall x :: x in configs + [c] ==> x in configs || x == c;
    if configs == [] {
      assert configs + [c] == [c] && [c][1..] == [];
      assert FlatRoutes([c][1..], sets) == [];
    } else {
      assert (configs + [c])[1..] == configs[1..] + [c];
      FlatRoutesAppend(configs[1..], c, sets);
    }
  }

  /** The loop of `buildRouter`. */
  method BuildRoutes(configs: seq<RouteConfig>, sets: RuleSets) returns (r: Result<seq<RouteRule>>)
    ensures r == if RoutesLoaded(configs, sets) then Ok(FlatRoutes(configs, sets)) else Err(UnknownRuleSet)
  {
    var rules: seq<RouteRule> := [];
    for i := 0 to |configs|
      invariant RoutesLoaded(configs[..i], sets) && rules == FlatRoutes(configs[..i], sets)
    {
      var item := BuildRouteRule(configs[i], sets);
      if item.Err? {
        assert configs[i] in configs;
        return Err(item.why);
      }
      FlatRoutesAppend(configs[..i], configs[i], sets);
      assert configs[..i + 1] == configs[..i] + [configs[i]];
      rules := rules + [item.value];
    }
    assert configs[..|configs|] == configs;
    return Ok(rules);
  }

  lemma TaggedAppend(a: seq<Rule>, b: seq<Rule>, server: bytes)
    ensures Tagged(a + b, server) == Tagged(a, server) + Tagged(b, server)
  {
  }

  /** The two inner loops of `buildDnsCenter`: the rules of one configured rule. */
  method BuildDnsGroup(config: DnsConfig, sets: RuleSets) returns (r: Result<seq<DnsRule>>)
    ensures r == if Loaded(config.ruleSets, sets)
                 then Ok(Tagged(Splice(config.ruleSets, sets), config.server)
                         + [DnsRule(config.own, config.server)])
                 else Err(UnknownRuleSet)
  {
    var rules: seq<DnsRule> := [];
    var tags := config.ruleSets;
    for i := 0 to |tags|
      invariant Loaded(tags[..i], sets) && rules == Tagged(Splice(tags[..i], sets), config.server)
    {
      if tags[i] !in sets { return Err(UnknownRuleSet); }
      ghost var before := rules;
      var members := sets[tags[i]];
      for k := 0 to |members|
        invariant rules == before + Tagged(members[..k], config.server)
      {
        rules := rules + [DnsRule(members[k].domainRule, config.server)];
      }
      assert members[..|members|] == members;
      SpliceAppend(tags[..i], tags[i], sets);
      TaggedAppend(Splice(tags[..i], sets), members, config.server);
      assert tags[..i + 1] == tags[..i] + [tags[i]];
    }
    assert tags[..|tags|] == tags;
    return Ok(rules + [DnsRule(config.own, config.server)]);
  }

  lemma {:induction false} FlatDnsAppend(configs: seq<DnsConfig>, c: DnsConfig, sets: RuleSets)
    requires DnsLoaded(configs, sets) && Loaded(c.ruleSets, sets)
    ensures DnsLoaded(configs + [c], sets)
    ensures FlatDns(configs + [c], sets)
         == FlatDns(configs, sets) + (Tagged(Splice(c.ruleSets, sets), c.server) + [DnsRule(c.own, c.server)])
    decreases |configs|
  {
    assert forall x :: x in configs + [c] ==> x in configs || x == c;
    if configs == [] {
      assert configs + [c] == [c] && [c][1..] == [];
      assert FlatDns([c][1..], sets) == [];
    } else {
      assert (configs + [c])[1..] == configs[1..] + [c];
      FlatDnsAppend(configs[1..], c, sets);
    }
  }

  /** The rule loop of `buildDnsCenter`. */
  method BuildDnsRules(configs: seq<DnsConfig>, sets: RuleSets) returns (r: Result<seq<DnsRule>>)
    ensures r == if DnsLoaded(configs, sets) then Ok(FlatDns(configs, sets)) else Err(UnknownRuleSet)
  {
    var rules: seq<DnsRule> := [];
    for i := 0 to |configs|
      invariant DnsLoaded(configs[..i], sets) && rules == FlatDns(configs[..i], sets)
    {
      var group := BuildDnsGroup(configs[i], sets);
      if group.Err? {
        assert configs[i] in configs;
        return Err(group.why);
      }
      FlatDnsAppend(configs[..i], configs[i], sets);
      assert configs[..i + 1] == configs[..i] + [configs[i]];
      rules := rules + group.value;
    }
    assert configs[..|configs|] == configs;
    return Ok(rules);
  }

  // ---- match_ of the DNS center ----

  function FirstServer(rules: seq<DnsRule>, final: bytes, domain: bytes, regex: RegexMatch): bytes {
    if rules == [] then final
    else if DomainMatches(rules[0].rule, domain, regex) then rules[0].server
    else FirstServer(rules[1..], final, domain, regex)
  }

  method MatchServer(rules: seq<DnsRule>, final: bytes, domain: bytes, regex: RegexMatch)
    returns (server: bytes)
    ensures server == FirstServer(rules, final, domain, regex)
  {
    assert rules[0..] == rules;
    for i := 0 to |rules|
      invariant FirstServer(rules, final, domain, regex) == FirstServer(rules[i..], final, domain, regex)
    {
      var matches := MatchDomain(rules[i].rule, domain, regex);
      if matches { return rules[i].server; }
      assert rules[i..][1..] == rules[i + 1..];
    }
    return final;
  }

  // ---- Flattening preserves meaning ----

  lemma {:induction false} SplicedRules(tags: seq<bytes>, sets: RuleSets, r: Rule)
    requires Loaded(tags, sets)
    ensures r in Splice(tags, sets) <==> exists t <- tags :: r in sets[t]
    decreases |tags|
  {
    if tags != [] {
      SplicedRules(tags[1..], sets, r);
      if t :| t in tags && r in sets[t] {
        assert t == tags[0] || t in tags[1..];
      }
    }
  }

  lemma SplicedGroup(own: Rule, tags: seq<bytes>, sets: RuleSets, address: Address, regex: RegexMatch)
    requires Loaded(tags, sets)
    ensures GroupMatches([own] + Splice(tags, sets), address, regex)
       <==> RuleMatches(own, address, regex) || SetsMatch(tags, sets, address, regex)
  {
    var group := [own] + Splice(tags, sets);
    forall r: Rule ensures r in group <==> r == own || exists t <- tags :: r in sets[t] {
      SplicedRules(tags, sets, r);
    }
  }

  /** The router over the flattened rules answers what the configuration means. */
  lemma {:induction false} FlatRoutesMean(configs: seq<RouteConfig>, sets: RuleSets, final: bytes,
                                          address: Address, regex: RegexMatch)
    requires RoutesLoaded(configs, sets)
    ensures Route(FlatRoutes(configs, sets), final, address, regex)
         == OutboundFor(configs, sets, final, address, regex)
    decreases |configs|
  {
    if configs != [] {
      var c := configs[0];
      assert Loaded(c.ruleSets, sets);
      SplicedGroup(c.own, c.ruleSets, sets, address, regex);
      FlatRoutesMean(configs[1..], sets, final, address, regex);
    }
  }

  predicate AnyMatches(rules: seq<Rule>, domain: bytes, regex: RegexMatch) {
    exists r <- rules :: DomainMatches(r.domainRule, domain, regex)
  }

  lemma {:induction false} TaggedRun(rules: seq<Rule>, server: bytes, rest: seq<DnsRule>,
                                     final: bytes, domain: bytes, regex: RegexMatch)
    ensures FirstServer(Tagged(rules, server) + rest, final, domain, regex)
         == if AnyMatches(rules, domain, regex) then server else FirstServer(rest, final, domain, regex)
    decreases |rules|
  {
    var all := Tagged(rules, server) + rest;
    if rules == [] {
      assert all == rest;
    } else {
      assert all[1..] == Tagged(rules[1..], server) + rest;
      TaggedRun(rules[1..], server, rest, final, domain, regex);
      assert rules[0] in rules;
      assert forall r :: r in rules <==> r == rules[0] || r in rules[1..];
    }
  }

  /** Scanning the flattened DNS rules answers what the configuration means. */
  lemma {:induction false} FlatDnsMeans(configs: seq<DnsConfig>, sets: RuleSets, final: bytes,
                                        domain: bytes, regex: RegexMatch)
    requires DnsLoaded(configs, sets)
    ensures FirstServer(FlatDns(configs, sets), final, domain, regex)
         == ServerFor(configs, sets, final, domain, regex)
    decreases |configs|
  {
    if configs != [] {
      var c, rest := configs[0], FlatDns(configs[1..], sets);
      assert Loaded(c.ruleSets, sets);
      var spliced, own := Splice(c.ruleSets, sets), [DnsRule(c.own, c.server)];
      assert FlatDns(configs, sets) == Tagged(spliced, c.server) + (own + rest);
      TaggedRun(spliced, c.server, own + rest, final, domain, regex);
      assert (own + rest)[1..] == rest;
      forall r: Rule ensures r in spliced <==> exists t <- c.ruleSets :: r in sets[t] {
        SplicedRules(c.ruleSets, sets, r);
      }
      FlatDnsMeans(configs[1..], sets, final, domain, regex);
    }
  }

  // ---- Order inside a group does not matter ----

  /** Two configurations that differ only in how each rule orders its rule sets. */
  ghost predicate SameUpToSetOrder(a: seq<DnsConfig>, b: seq<DnsConfig>) {
    && |a| == |b|
    && forall i :: 0 <= i < |a| ==>
         && a[i].own == b[i].own && a[i].server == b[i].server
         && forall t :: t in a[i].ruleSets <==> t in b[i].ruleSets
  }

  lemma {:induction false} SetOrderIsIrrelevant(a: seq<DnsConfig>, b: seq<DnsConfig>, sets: RuleSets,
                                                final: bytes, domain: bytes, regex: RegexMatch)
    requires DnsLoaded(a, sets) && SameUpToSetOrder(a, b)
    ensures DnsLoaded(b, sets)
    ensures FirstServer(FlatDns(a, sets), final, domain, regex)
         == FirstServer(FlatDns(b, sets), final, domain, regex)
    decreases |a|
  {
    forall c | c in b ensures Loaded(c.ruleSets, sets) {
      var i :| 0 <= i < |b| && b[i] == c;
      assert Loaded(a[i].ruleSets, sets);
    }
    FlatDnsMeans(a, sets, final, domain, regex);
    FlatDnsMeans(b, sets, final, domain, regex);
    if a != [] {
      SetOrderIsIrrelevant(a[1..], b[1..], sets, final, domain, regex);
      FlatDnsMeans(a[1..], sets, final, domain, regex);
      FlatDnsMeans(b[1..], sets, final, domain, regex);
    }
  }

  /** Rules of one route group may be listed in any order. */
  lemma {:induction false} GroupOrderIsIrrelevant(rules: seq<RouteRule>, rules': seq<RouteRule>, final: bytes,
                               address: Address, regex: RegexMatch)
    requires |rules| == |rules'|
    requires forall i :: 0 <= i < |rules| ==> rules[i].outbound == rules'[i].outbound
    requires forall i :: 0 <= i < |rules| ==> multiset(rules[i].rules) == multiset(rules'[i].rules)
    ensures Route(rules, final, address, regex) == Route(rules', final, address, regex)
    decreases |rules|
  {
    if rules != [] {
      var a, b := rules[0].rules, rules'[0].rules;
      forall r: Rule ensures r in a <==> r in b {
        assert r in multiset(a) <==> r in multiset(b);
      }
      GroupOrderIsIrrelevant(rules[1..], rules'[1..], final, address, regex);
    }
  }
}
