/** What Classifier.Domain and Classifier.IP decide, in terms of the configured rules and the China data. */
module ClassifierMeanings {
  import opened Actions
  import opened Addresses
  import opened Bytes
  import opened Classifiers
  import opened Datasets
  import opened Domains
  import D = DomainTrees
  import I = Ipv4Trees

  // ----- Domains -----

  /** `name` is `tail` or ends with a dot and `tail`. */
  ghost predicate Below(name: Text, tail: Text)
  {
    name == tail || (|name| > |tail| && name[|name| - |tail| - 1..] == [DOT] + tail)
  }

  /** Some domain rule with this action covers the name. */
  ghost predicate NameRule(rules: seq<RuleConfig>, name: Text, action: string)
  {
    exists c :: c in rules && c.kind == "domain" && c.action == action &&
                Normalize(c.value).Some? && Below(name, Normalize(c.value).value)
  }

  ghost predicate ChinaName(ds: seq<Domain>, name: Text)
  {
    exists d :: d in ds && Normalize(d.name).Some? &&
                if d.exact then name == Normalize(d.name).value else Below(name, Normalize(d.name).value)
  }

  lemma {:induction false} DomainRuleOrigin(rules: seq<RuleConfig>, parse: PrefixParser, name: Text, action: Action, word: string)
    requires RulesOk(rules, parse) && ((action == Direct && word == "direct") || (action == Proxy && word == "proxy"))
    ensures SomeMatch(DomainRules(rules, parse), name, action) <==> NameRule(rules, name, word)
  {
    hide Normalize;
    if rules == [] {
    } else {
      var init, last := rules[..|rules| - 1], rules[|rules| - 1];
      DomainRuleOrigin(init, parse, name, action, word);
      assert forall c :: c in rules <==> c in init || c == last;
      var before, all := DomainRules(init, parse), DomainRules(rules, parse);
      if last.kind == "domain" {
        var r := D.Rule(Normalize(last.value).value, false, ParseAction(last.action).value);
        assert forall x :: x in all <==> x in before || x == r;
        assert D.Matches(r, name) <==> Below(name, r.name);
      }
    }
  }

  lemma {:induction false} ChinaDomainOrigin(ds: seq<Domain>, name: Text)
    requires NamesOk(ds)
    ensures SomeMatch(ChinaDomainRules(ds), name, Direct) <==> ChinaName(ds, name)
    ensures !SomeMatch(ChinaDomainRules(ds), name, Proxy)
  {
    hide Normalize;
    if ds == [] {
    } else {
      var init, last := ds[..|ds| - 1], ds[|ds| - 1];
      ChinaDomainOrigin(init, name);
      assert forall d :: d in ds <==> d in init || d == last;
      var r := D.Rule(Normalize(last.name).value, last.exact, Direct);
      assert forall x :: x in ChinaDomainRules(ds) <==> x in ChinaDomainRules(init) || x == r;
      assert D.Matches(r, name) <==> if last.exact then name == r.name else Below(name, r.name);
    }
  }

  /** Explicit rules first, Proxy winning among them; then the China names; then Proxy by default. */
  lemma {:induction false} DomainDecided(data: Data, rules: seq<RuleConfig>, parse: PrefixParser, query: Text)
    requires Buildable(data, rules, parse)
    ensures ScanDomain(data, rules, parse, query) ==
            if Normalize(query) == None then Decision(Proxy, Default, [])
            else
              var name := Normalize(query).value;
              if NameRule(rules, name, "proxy") then Decision(Proxy, ExplicitDomain, name)
              else if NameRule(rules, name, "direct") then Decision(Direct, ExplicitDomain, name)
              else if ChinaName(data.domains, name) then Decision(Direct, ChinaDomain, name)
              else Decision(Proxy, Default, name)
  {
    hide Normalize, DomainRules, ChinaDomainRules, NameRule, ChinaName, D.Matches;
    if Normalize(query).Some? {
      var name := Normalize(query).value;
      DomainRuleOrigin(rules, parse, name, Proxy, "proxy");
      DomainRuleOrigin(rules, parse, name, Direct, "direct");
      ChinaDomainOrigin(data.domains, name);
      D.ScanIsJoin(DomainRules(rules, parse), name);
      D.ScanIsJoin(ChinaDomainRules(data.domains), name);
    }
  }

  // ----- Addresses -----

  /** Some IP rule with this action has a prefix of `bits` bits that contains the address. */
  ghost predicate PrefixRule(rules: seq<RuleConfig>, parse: PrefixParser, addr: u32, action: string, bits: int)
  {
    exists c :: c in rules && c.kind == "ip" && c.action == action && Covers(parse(c.value), addr, bits)
  }

  ghost predicate Covers(prefix: Option<Parsed>, addr: u32, bits: int)
  {
    prefix.Some? && prefix.value.Valid4() && prefix.value.bits == bits && Contains(prefix.value, addr)
  }

  ghost predicate AnyRule(rules: seq<RuleConfig>, parse: PrefixParser, addr: u32, bits: int)
  {
    PrefixRule(rules, parse, addr, "proxy", bits) || PrefixRule(rules, parse, addr, "direct", bits)
  }

  /** The longest prefix of the explicit rules that contains the address. */
  ghost predicate LongestRule(rules: seq<RuleConfig>, parse: PrefixParser, addr: u32, bits: int)
  {
    AnyRule(rules, parse, addr, bits) && forall b :: AnyRule(rules, parse, addr, b) ==> b <= bits
  }

  ghost predicate ChinaPrefix(ps: seq<Prefix>, addr: u32)
  {
    exists p :: p in ps && p.Valid4() && Contains(p, addr)
  }

  ghost predicate Listed(rules: seq<I.Rule>, addr: u32, action: Action, bits: int)
    requires I.AllValid(rules)
  {
    exists r :: r in rules && I.Matches(r, addr) && r.action == action && r.prefix.bits == bits
  }

  lemma {:induction false} IPRuleOrigin(rules: seq<RuleConfig>, parse: PrefixParser, addr: u32, action: Action, word: string, bits: int)
    requires RulesOk(rules, parse) && ((action == Direct && word == "direct") || (action == Proxy && word == "proxy"))
    ensures Listed(IPRules(rules, parse), addr, action, bits) <==> PrefixRule(rules, parse, addr, word, bits)
  {
    hide Normalize, Contains;
    if rules == [] {
    } else {
      var init, last := rules[..|rules| - 1], rules[|rules| - 1];
      IPRuleOrigin(init, parse, addr, action, word, bits);
      assert forall c :: c in rules <==> c in init || c == last;
      var before, all := IPRules(init, parse), IPRules(rules, parse);
      if last.kind == "ip" {
        var r := I.Rule(parse(last.value).value, ParseAction(last.action).value);
        assert forall x :: x in all <==> x in before || x == r;
        assert I.Matches(r, addr) && r.prefix.bits == bits <==> Covers(parse(last.value), addr, bits);
      }
    }
  }

  lemma {:induction false} ScanByLength(rules: seq<I.Rule>, addr: u32)
    requires I.AllValid(rules)
    ensures var best := I.ScanBest(rules, addr);
            && (best.action == Proxy ==> Listed(rules, addr, Proxy, best.bits))
            && (best.action == Direct ==> Listed(rules, addr, Direct, best.bits) && !Listed(rules, addr, Proxy, best.bits))
            && (forall action, bits :: action != Unknown && Listed(rules, addr, action, bits) ==>
                                         best.action != Unknown && bits <= best.bits)
  {
    I.ScanIsLongest(rules, addr);
    I.LongestFound(rules, addr);
  }

  lemma {:induction false} ChinaIPScan(ps: seq<Prefix>, addr: u32)
    requires forall i :: 0 <= i < |ps| ==> ps[i].Valid4()
    ensures I.ScanBest(ChinaIPRules(ps), addr).action == if ChinaPrefix(ps, addr) then Direct else Unknown
  {
    hide Contains;
    var rules := ChinaIPRules(ps);
    ScanByLength(rules, addr);
    assert forall i :: 0 <= i < |ps| ==> rules[i] == I.Rule(ps[i], Direct);
    if p :| p in ps && p.Valid4() && Contains(p, addr) {
      var i :| 0 <= i < |ps| && ps[i] == p;
      assert rules[i] in rules && I.Matches(rules[i], addr);
      assert Listed(rules, addr, Direct, p.bits);
    }
  }

  /**
   * The longest explicit prefix first, Proxy winning among the rules that have it; then the China
   * prefixes; then Proxy by default. An address that is not IPv4 is Proxy by default.
   */
  lemma {:induction false} IPDecided(data: Data, rules: seq<RuleConfig>, parse: PrefixParser, addr: Addr)
    requires Buildable(data, rules, parse)
    ensures var d := ScanIP(data, rules, parse, addr);
            if !addr.IPv4? then d == Decision(Proxy, Default, [])
            else
              && (d == Decision(Proxy, ExplicitIP, []) <==>
                    exists bits :: LongestRule(rules, parse, addr.value, bits) && PrefixRule(rules, parse, addr.value, "proxy", bits))
              && (d == Decision(Direct, ExplicitIP, []) <==>
                    exists bits :: LongestRule(rules, parse, addr.value, bits) && !PrefixRule(rules, parse, addr.value, "proxy", bits))
              && (d == Decision(Direct, ChinaIP, []) <==>
                    (forall bits :: !AnyRule(rules, parse, addr.value, bits)) && ChinaPrefix(data.prefixes, addr.value))
              && (d == Decision(Proxy, Default, []) <==>
                    (forall bits :: !AnyRule(rules, parse, addr.value, bits)) && !ChinaPrefix(data.prefixes, addr.value))
  {
    hide Normalize, IPRules, ChinaIPRules, PrefixRule, ChinaPrefix, Listed, I.ScanBest;
    if addr.IPv4? {
      var explicit := IPRules(rules, parse);
      ScanByLength(explicit, addr.value);
      ChinaIPScan(data.prefixes, addr.value);
      forall bits
        ensures Listed(explicit, addr.value, Proxy, bits) <==> PrefixRule(rules, parse, addr.value, "proxy", bits)
        ensures Listed(explicit, addr.value, Direct, bits) <==> PrefixRule(rules, parse, addr.value, "direct", bits)
      {
        IPRuleOrigin(rules, parse, addr.value, Proxy, "proxy", bits);
        IPRuleOrigin(rules, parse, addr.value, Direct, "direct", bits);
      }
      var best := I.ScanBest(explicit, addr.value);
      assert best.action != Unknown ==> LongestRule(rules, parse, addr.value, best.bits);
      forall bits | LongestRule(rules, parse, addr.value, bits) ensures best.action != Unknown && bits == best.bits {
      }
    }
  }
}
