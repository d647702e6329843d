/**
 Domain rules, routing rules and the router: src/router/rule.cpp and
 src/router/router.cpp. The rules are set once and only read, so they are values;
 the scanning loops are methods. `std::regex_match` is the parameter `regex`.
 */
module Rules {
  import opened Bytes
  import opened Address
  import opened IpNet
  import opened DnsName

  type RegexMatch = (bytes, bytes) -> bool

  datatype DomainRule = DomainRule(
    domain: seq<bytes>, suffix: seq<bytes>, keyword: seq<bytes>, regex: seq<bytes>)

  datatype Rule = Rule(domainRule: DomainRule, cidr: seq<IpNetwork>)

  datatype RouteRule = RouteRule(rules: seq<Rule>, outbound: bytes)

  predicate ValidRule(r: Rule) { forall n <- r.cidr :: ValidNetwork(n) }

  predicate ValidRoute(r: RouteRule) { forall rule <- r.rules :: ValidRule(rule) }

  predicate ValidRoutes(rs: seq<RouteRule>) { forall r <- rs :: ValidRoute(r) }

  // ---- matchDomain ----

  /** The suffix test: the item ends the domain, at its start or behind a dot. */
  predicate EndsDomain(domain: bytes, item: bytes) {
    && |item| <= |domain|
    && domain[|domain| - |item|..] == item
    && (|item| == |domain| || domain[|domain| - |item| - 1] == DOT)
  }

  predicate DomainMatches(r: DomainRule, domain: bytes, regex: RegexMatch) {
    || domain in r.domain
    || (exists item <- r.suffix :: EndsDomain(domain, item))
    || (exists item <- r.keyword :: Find(domain, item, 0).Some?)
    || (exists item <- r.regex :: regex(domain, item))
  }

  method MatchDomain(r: DomainRule, domain: bytes, regex: RegexMatch) returns (m: bool)
    ensures m == DomainMatches(r, domain, regex)
  {
    for i := 0 to |r.domain|
      invariant forall k :: 0 <= k < i ==> domain != r.domain[k]
    {
      if domain == r.domain[i] { return true; }
    }
    for i := 0 to |r.suffix|
      invariant forall k :: 0 <= k < i ==> !EndsDomain(domain, r.suffix[k])
    {
      var item := r.suffix[i];
      if |domain| >= |item| && domain[|domain| - |item|..] == item {
        if |domain| == |item| || domain[|domain| - |item| - 1] == DOT {
          assert item in r.suffix && EndsDomain(domain, item);
          return true;
        }
      }
    }
    for i := 0 to |r.keyword|
      invariant forall k :: 0 <= k < i ==> Find(domain, r.keyword[k], 0).None?
    {
      if Find(domain, r.keyword[i], 0).Some? { return true; }
    }
    for i := 0 to |r.regex|
      invariant forall k :: 0 <= k < i ==> !regex(domain, r.regex[k])
    {
      if regex(domain, r.regex[i]) { return true; }
    }
    return false;
  }

  // ---- The suffix test is a test on labels ----

  /** A text split at every dot; there is always at least one label, possibly empty. */
  function Labels(text: bytes): (ls: seq<bytes>)
    ensures ls != []
    decreases |text|
  {
    match Find(text, [0x2E], 0)
    case None => [text]
    case Some(i) => [text[..i]] + Labels(text[i + 1..])
  }

  predicate IsSuffix<T(==)>(s: seq<T>, whole: seq<T>) {
    |s| <= |whole| && whole[|whole| - |s|..] == s
  }

  lemma {:induction false} LabelsAtDot(a: bytes, b: bytes)
    ensures Labels(a + [DOT] + b) == Labels(a) + Labels(b)
    decreases |a|
  {
    hide At;
    var text, dot := a + [DOT] + b, Find(a, [DOT], 0);
    var l := if dot.Some? then a[..dot.value] else a;
    assert DOT !in l by { NoDotBefore(a, |l|); }
    if dot.None? {
      FirstDot(a, b);
      assert text[..|a|] == a && text[|a| + 1..] == b;
    } else {
      DotFound(a);
      var rest := a[dot.value + 1..];
      assert text == l + [DOT] + (rest + [DOT] + b);
      FirstDot(l, rest + [DOT] + b);
      assert text[..|l|] == l && text[|l| + 1..] == rest + [DOT] + b;
      LabelsAtDot(rest, b);
    }
  }

  lemma {:induction false} JoinLabels(text: bytes)
    ensures Join(Labels(text)) == text
    decreases |text|
  {
    hide At;
    var dot := Find(text, [DOT], 0);
    if dot.Some? {
      DotFound(text);
      var rest := text[dot.value + 1..];
      JoinLabels(rest);
      assert Labels(text)[1..] == Labels(rest);
      assert text[..dot.value] + ([DOT] + rest) == text;
    }
  }

  lemma {:induction false} JoinSplit(a: seq<bytes>, b: seq<bytes>)
    requires a != [] && b != []
    ensures Join(a + b) == Join(a) + [DOT] + Join(b)
    decreases |a|
  {
    assert (a + b)[1..] == a[1..] + b;
    if |a| > 1 {
      JoinSplit(a[1..], b);
      assert a[0] + ([DOT] + (Join(a[1..]) + [DOT] + Join(b)))
          == a[0] + ([DOT] + Join(a[1..])) + [DOT] + Join(b);
    } else {
      assert a[0] + ([DOT] + Join(b)) == a[0] + [DOT] + Join(b);
    }
  }

  /**
   For all texts, the suffix test holds exactly when the labels of the item are the
   last labels of the domain; empty items and doubled dots included.
   */
  lemma SuffixIsOnLabels(domain: bytes, item: bytes)
    ensures EndsDomain(domain, item) <==> IsSuffix(Labels(item), Labels(domain))
  {
    var n := |domain| - |item|;
    if EndsDomain(domain, item) {
      if n == 0 {
        assert domain == item;
      } else {
        assert domain == domain[..n - 1] + [DOT] + item;
        LabelsAtDot(domain[..n - 1], item);
      }
    }
    if IsSuffix(Labels(item), Labels(domain)) {
      JoinLabels(domain);
      JoinLabels(item);
      var front := Labels(domain)[..|Labels(domain)| - |Labels(item)|];
      assert Labels(domain) == front + Labels(item);
      if front != [] {
        JoinSplit(front, Labels(item));
        assert domain == Join(front) + [DOT] + item;
      }
    }
  }

  // ---- What each list contributes ----

  ghost predicate HasPart(domain: bytes, part: bytes) {
    exists a: bytes, b: bytes :: domain == a + part + b
  }

  lemma PartIsFound(domain: bytes, part: bytes)
    ensures Find(domain, part, 0).Some? <==> HasPart(domain, part)
  {
    var r := Find(domain, part, 0);
    if r.Some? {
      assert domain == domain[..r.value] + part + domain[r.value + |part|..];
    }
    if a: bytes, b: bytes :| domain == a + part + b {
      assert At(domain, |a|, part);
    }
  }

  /** A domain rule, told by its lists: equal, last labels, part of the text, or regex. */
  ghost predicate InLists(r: DomainRule, domain: bytes, regex: RegexMatch) {
    || domain in r.domain
    || (exists item <- r.suffix :: IsSuffix(Labels(item), Labels(domain)))
    || (exists item <- r.keyword :: HasPart(domain, item))
    || (exists item <- r.regex :: regex(domain, item))
  }

  lemma {:induction false} DomainMatchesExactly(r: DomainRule, domain: bytes, regex: RegexMatch)
    ensures DomainMatches(r, domain, regex) <==> InLists(r, domain, regex)
  {
    hide HasPart, Find, Labels, IsSuffix, EndsDomain;
    forall item: bytes ensures EndsDomain(domain, item) <==> IsSuffix(Labels(item), Labels(domain)) {
      SuffixIsOnLabels(domain, item);
    }
    forall item: bytes ensures Find(domain, item, 0).Some? <==> HasPart(domain, item) {
      PartIsFound(domain, item);
    }
  }

  // ---- Rule::match and Router::match ----

  predicate RuleMatches(r: Rule, address: Address, regex: RegexMatch) {
    match address.host
    case Domain(name) => DomainMatches(r.domainRule, name, regex)
    case Literal(ip) => exists n <- r.cidr :: AsWritten(n, ip)
  }

  method MatchRule(r: Rule, address: Address, regex: RegexMatch) returns (m: bool)
    requires ValidRule(r)
    ensures m == RuleMatches(r, address, regex)
  {
    match address.host {
      case Domain(name) =>
        m := MatchDomain(r.domainRule, name, regex);
      case Literal(ip) =>
        for i := 0 to |r.cidr|
          invariant forall k :: 0 <= k < i ==> !AsWritten(r.cidr[k], ip)
        {
          assert ValidNetwork(r.cidr[i]);
          var inside := Contains(r.cidr[i], ip);
          if inside { return true; }
        }
        return false;
    }
  }

  /**
   A rule, told by its lists: names are matched by the domain lists alone, and addresses
   by the family of some network, whatever its bits are.
   */
  lemma {:induction false} RuleMatchesExactly(r: Rule, address: Address, regex: RegexMatch)
    requires ValidRule(r)
    ensures RuleMatches(r, address, regex)
       <==> match address.host
            case Domain(name) => InLists(r.domainRule, name, regex)
            case Literal(ip) => exists n <- r.cidr :: n.network.V4? == ip.V4?
  {
    hide InLists, DomainMatches;
    match address.host {
      case Domain(name) => DomainMatchesExactly(r.domainRule, name, regex);
      case Literal(ip) =>
        assert forall n <- r.cidr :: ValidNetwork(n) && (AsWritten(n, ip) <==> n.network.V4? == ip.V4?);
    }
  }

  predicate GroupMatches(rules: seq<Rule>, address: Address, regex: RegexMatch) {
    exists r <- rules :: RuleMatches(r, address, regex)
  }

  /** The outbound of the first group with a matching rule, else `final`. */
  function Route(rules: seq<RouteRule>, final: bytes, address: Address, regex: RegexMatch): bytes {
    if rules == [] then final
    else if GroupMatches(rules[0].rules, address, regex) then rules[0].outbound
    else Route(rules[1..], final, address, regex)
  }

  method MatchRoute(rules: seq<RouteRule>, final: bytes, address: Address, regex: RegexMatch)
    returns (outbound: bytes)
    requires ValidRoutes(rules)
    ensures outbound == Route(rules, final, address, regex)
  {
    assert rules[0..] == rules;
    for i := 0 to |rules|
      invariant Route(rules, final, address, regex) == Route(rules[i..], final, address, regex)
    {
      var item := rules[i];
      assert ValidRoute(item);
      for k := 0 to |item.rules|
        invariant forall j :: 0 <= j < k ==> !RuleMatches(item.rules[j], address, regex)
      {
        assert ValidRule(item.rules[k]);
        var matches := MatchRule(item.rules[k], address, regex);
        if matches { return item.outbound; }
      }
      assert rules[i..][1..] == rules[i + 1..];
    }
    return final;
  }

  /** The outbound is the one of the first matching group, by position. */
  lemma {:induction false} RouteIsFirstMatch(rules: seq<RouteRule>, final: bytes, address: Address,
                                             regex: RegexMatch, i: nat)
    requires i <= |rules|
    requires forall k :: 0 <= k < i ==> !GroupMatches(rules[k].rules, address, regex)
    requires i < |rules| ==> GroupMatches(rules[i].rules, address, regex)
    ensures Route(rules, final, address, regex) == if i < |rules| then rules[i].outbound else final
    decreases i
  {
    if i > 0 {
      RouteIsFirstMatch(rules[1..], final, address, regex, i - 1);
    }
  }

  /**
   As written, the CIDR rules cannot tell two addresses of one family apart: the
   router sends them to the same outbound, whatever the networks are.
   */
  lemma {:induction false} RouteSeesOnlyTheFamily(rules: seq<RouteRule>, final: bytes,
                                                  a: Ip, b: Ip, port: u16, port': u16, regex: RegexMatch)
    requires SameFamily(a, b)
    ensures Route(rules, final, Address(Literal(a), port), regex)
         == Route(rules, final, Address(Literal(b), port'), regex)
    decreases |rules|
  {
    if rules != [] {
      var x, y := Address(Literal(a), port), Address(Literal(b), port');
      forall r: Rule ensures RuleMatches(r, x, regex) == RuleMatches(r, y, regex) {
        forall n: IpNetwork ensures AsWritten(n, a) == AsWritten(n, b) {}
      }
      RouteSeesOnlyTheFamily(rules[1..], final, a, b, port, port', regex);
    }
  }
}
