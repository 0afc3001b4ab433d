/** internal/policy/classifier.go: explicit rules, then China data, then Proxy. */
module Classifiers {
  import opened Actions
  import opened Addresses
  import opened Bytes
  import opened Domains
  import opened Datasets
  import D = DomainTrees
  import I = Ipv4Trees

  datatype RuleConfig = RuleConfig(action: string, kind: string, value: Text)

  datatype Source = ExplicitDomain | ExplicitIP | ChinaDomain | ChinaIP | Default

  datatype Decision = Decision(action: Action, source: Source, domain: Text)

  /** What `netip.ParsePrefix` may return: an IPv4 prefix it accepts has 0 to 32 bits. */
  type Parsed = p: Prefix | p.addr.IPv4? ==> p.Valid4() witness Prefix(IPv4(0), 0)
  type PrefixParser = Text -> Option<Parsed>

  function ParseAction(value: string): (a: Option<Action>)
    ensures a.Some? <==> value == "direct" || value == "proxy"
    ensures a.Some? ==> a.value == if value == "proxy" then Proxy else Direct
  {
    if value == "direct" then Some(Direct) else if value == "proxy" then Some(Proxy) else None
  }

  // ----- Reference: plain scans -----

  predicate RuleOk(rule: RuleConfig, parse: PrefixParser)
  {
    && ParseAction(rule.action).Some?
    && (|| (rule.kind == "domain" && Normalize(rule.value).Some?)
        || (rule.kind == "ip" && parse(rule.value).Some? && parse(rule.value).value.addr.IPv4?))
  }

  ghost predicate NamesOk(ds: seq<Domain>)
  {
    ds == [] || (NamesOk(ds[..|ds| - 1]) && Normalize(ds[|ds| - 1].name).Some?)
  }

  ghost predicate RulesOk(rules: seq<RuleConfig>, parse: PrefixParser)
  {
    rules == [] || (RulesOk(rules[..|rules| - 1], parse) && RuleOk(rules[|rules| - 1], parse))
  }

  ghost predicate Buildable(data: Data, rules: seq<RuleConfig>, parse: PrefixParser)
  {
    && NamesOk(data.domains)
    && (forall i :: 0 <= i < |data.prefixes| ==> data.prefixes[i].Valid4())
    && RulesOk(rules, parse)
  }

  ghost function DomainRules(rules: seq<RuleConfig>, parse: PrefixParser): seq<D.Rule>
    requires RulesOk(rules, parse)
  {
    if rules == [] then []
    else
      var init, last := DomainRules(rules[..|rules| - 1], parse), rules[|rules| - 1];
      if last.kind == "domain"
      then init + [D.Rule(Normalize(last.value).value, false, ParseAction(last.action).value)] else init
  }

  ghost function IPRules(rules: seq<RuleConfig>, parse: PrefixParser): (r: seq<I.Rule>)
    requires RulesOk(rules, parse)
    ensures I.AllValid(r)
  {
    if rules == [] then []
    else
      var init, last := IPRules(rules[..|rules| - 1], parse), rules[|rules| - 1];
      if last.kind == "ip" then init + [I.Rule(parse(last.value).value, ParseAction(last.action).value)] else init
  }

  ghost function ChinaDomainRules(ds: seq<Domain>): (r: seq<D.Rule>)
    requires NamesOk(ds)
  {
    if ds == [] then []
    else
      var last := ds[|ds| - 1];
      ChinaDomainRules(ds[..|ds| - 1]) + [D.Rule(Normalize(last.name).value, last.exact, Direct)]
  }

  ghost function ChinaIPRules(ps: seq<Prefix>): (r: seq<I.Rule>)
    requires forall i :: 0 <= i < |ps| ==> ps[i].Valid4()
    ensures I.AllValid(r)
  {
    seq(|ps|, i requires 0 <= i < |ps| => I.Rule(ps[i], Direct))
  }

  /** Scans the explicit rules, then the China domains, then falls back to Proxy. */
  ghost function ScanDomain(data: Data, rules: seq<RuleConfig>, parse: PrefixParser, query: Text): Decision
    requires Buildable(data, rules, parse)
  {
    match Normalize(query)
    case None => Decision(Proxy, Default, [])
    case Some(name) =>
      var explicit := D.Scan(DomainRules(rules, parse), name);
      var china := D.Scan(ChinaDomainRules(data.domains), name);
      if explicit != Unknown then Decision(explicit, ExplicitDomain, name)
      else if china != Unknown then Decision(china, ChinaDomain, name)
      else Decision(Proxy, Default, name)
  }

  ghost function ScanIP(data: Data, rules: seq<RuleConfig>, parse: PrefixParser, addr: Addr): Decision
    requires Buildable(data, rules, parse)
  {
    var explicit := I.Scan(IPRules(rules, parse), addr);
    var china := I.Scan(ChinaIPRules(data.prefixes), addr);
    if explicit != Unknown then Decision(explicit, ExplicitIP, [])
    else if china != Unknown then Decision(china, ChinaIP, [])
    else Decision(Proxy, Default, [])
  }

  ghost predicate SomeMatch(rules: seq<D.Rule>, name: Text, action: Action)
  {
    exists r :: r in rules && D.Matches(r, name) && r.action == action
  }

  lemma {:induction false} ChinaIsDirect(ds: seq<Domain>)
    requires NamesOk(ds)
    ensures forall r :: r in ChinaDomainRules(ds) ==> r.action == Direct
  {
    hide Normalize;
    if ds == [] {
    } else {
      ChinaIsDirect(ds[..|ds| - 1]);
    }
  }

  /** A name goes direct exactly if an explicit direct rule and no proxy rule matches, or no explicit rule and a China domain. */
  lemma {:induction false} DirectExactly(data: Data, rules: seq<RuleConfig>, parse: PrefixParser, query: Text)
    requires Buildable(data, rules, parse)
    ensures ScanDomain(data, rules, parse, query).action == Direct <==>
            && Normalize(query).Some?
            && var name, explicit := Normalize(query).value, DomainRules(rules, parse);
               && !SomeMatch(explicit, name, Proxy)
               && (SomeMatch(explicit, name, Direct) || SomeMatch(ChinaDomainRules(data.domains), name, Direct))
    ensures ScanDomain(data, rules, parse, query).action != Unknown
  {
    hide Normalize, D.Matches, DomainRules;
    ChinaIsDirect(data.domains);
    if Normalize(query).Some? {
      D.ScanIsJoin(DomainRules(rules, parse), Normalize(query).value);
      D.ScanIsJoin(ChinaDomainRules(data.domains), Normalize(query).value);
    }
  }

  /** The same answer for any letter case, with or without one trailing dot. */
  lemma {:induction false} ScanDomainIgnoresSpelling(data: Data, rules: seq<RuleConfig>, parse: PrefixParser, a: Text, b: Text)
    requires Buildable(data, rules, parse)
    requires SameLetters(a, b) && (a == [] || a[|a| - 1] != DOT)
    ensures ScanDomain(data, rules, parse, a) == ScanDomain(data, rules, parse, b)
    ensures ScanDomain(data, rules, parse, a) == ScanDomain(data, rules, parse, b + [DOT])
  {
    NormalizeIgnoresCaseAndDot(a, b);
  }

  // ----- The classifier -----

  class Classifier {
    const explicitDomains: D.DomainTree
    const chinaDomains: D.DomainTree
    const explicitIPv4: I.Ipv4Tree
    const chinaIPv4: I.Ipv4Tree

    ghost const data: Data
    ghost const rules: seq<RuleConfig>
    ghost const parse: PrefixParser

    ghost predicate Valid()
      reads explicitDomains, explicitDomains.nodes.Values, chinaDomains, chinaDomains.nodes.Values
      reads explicitIPv4, explicitIPv4.nodes.Values, chinaIPv4, chinaIPv4.nodes.Values
    {
      && Buildable(data, rules, parse)
      && explicitDomains.Valid() && explicitDomains.rules == DomainRules(rules, parse)
      && chinaDomains.Valid() && chinaDomains.rules == ChinaDomainRules(data.domains)
      && explicitIPv4.Valid() && explicitIPv4.rules == IPRules(rules, parse)
      && chinaIPv4.Valid() && chinaIPv4.rules == ChinaIPRules(data.prefixes)
    }

    constructor (explicitDomains: D.DomainTree, chinaDomains: D.DomainTree, explicitIPv4: I.Ipv4Tree, chinaIPv4: I.Ipv4Tree,
                 ghost data: Data, ghost rules: seq<RuleConfig>, ghost parse: PrefixParser)
      ensures this.explicitDomains == explicitDomains && this.chinaDomains == chinaDomains
      ensures this.explicitIPv4 == explicitIPv4 && this.chinaIPv4 == chinaIPv4
      ensures this.data == data && this.rules == rules && this.parse == parse
    {
      this.explicitDomains, this.chinaDomains := explicitDomains, chinaDomains;
      this.explicitIPv4, this.chinaIPv4 := explicitIPv4, chinaIPv4;
      this.data, this.rules, this.parse := data, rules, parse;
    }

    method ClassifyDomain(query: Text) returns (r: Decision)
      requires Valid()
      ensures r == ScanDomain(data, rules, parse, query)
    {
      var normalized := NormalizeDomain(query);
      if normalized == None {
        return Decision(Proxy, Default, []);
      }
      var name := normalized.value;
      var action, ok := explicitDomains.Match(name);
      if ok {
        return Decision(action, ExplicitDomain, name);
      }
      action, ok := chinaDomains.Match(name);
      if ok {
        return Decision(action, ChinaDomain, name);
      }
      r := Decision(Proxy, Default, name);
    }

    method ClassifyIP(addr: Addr) returns (r: Decision)
      requires Valid()
      ensures r == ScanIP(data, rules, parse, addr)
    {
      var action, ok := explicitIPv4.Match(addr);
      if ok {
        return Decision(action, ExplicitIP, []);
      }
      action, ok := chinaIPv4.Match(addr);
      if ok {
        return Decision(action, ChinaIP, []);
      }
      r := Decision(Proxy, Default, []);
    }
  }

  method BuildChinaDomains(ds: seq<Domain>) returns (ok: bool, tree: D.DomainTree)
    ensures fresh(tree) && fresh(tree.nodes.Values) && tree.Valid()
    ensures ok <==> NamesOk(ds)
    ensures ok ==> tree.rules == ChinaDomainRules(ds)
  {
    hide D.DomainTree.Valid, I.Ipv4Tree.Valid, Normalize;
    tree := new D.DomainTree();
    for i := 0 to |ds|
      invariant fresh(tree) && fresh(tree.nodes.Values) && tree.Valid()
      invariant NamesOk(ds[..i])
      invariant tree.rules == ChinaDomainRules(ds[..i])
    {
      var normalized := NormalizeDomain(ds[i].name);
      assert ds[..i + 1][..i] == ds[..i];
      if normalized == None {
        NamesPrefix(ds, i + 1);
        return false, tree;
      }
      tree.Add(normalized.value, ds[i].exact, Direct);
    }
    ok := true;
    assert ds[..|ds|] == ds;
  }

  method BuildChinaIPs(ps: seq<Prefix>) returns (ok: bool, tree: I.Ipv4Tree)
    ensures fresh(tree) && fresh(tree.nodes.Values) && tree.Valid()
    ensures ok <==> forall i :: 0 <= i < |ps| ==> ps[i].Valid4()
    ensures ok ==> tree.rules == ChinaIPRules(ps)
  {
    hide I.Ipv4Tree.Valid;
    tree := new I.Ipv4Tree();
    for i := 0 to |ps|
      invariant fresh(tree) && fresh(tree.nodes.Values) && tree.Valid()
      invariant forall k :: 0 <= k < i ==> ps[k].Valid4()
      invariant tree.rules == ChinaIPRules(ps[..i])
    {
      if !ps[i].Valid4() {
        return false, tree;
      }
      tree.Add(ps[i], Direct);
    }
    ok := true;
    assert ps[..|ps|] == ps;
  }

  lemma {:induction false} NamesPrefix(ds: seq<Domain>, n: nat)
    requires n <= |ds| && !NamesOk(ds[..n])
    ensures !NamesOk(ds)
    decreases |ds|
  {
    if n < |ds| {
      assert ds[..|ds| - 1][..n] == ds[..n];
      NamesPrefix(ds[..|ds| - 1], n);
    } else {
      assert ds[..n] == ds;
    }
  }

  lemma {:induction false} RulesPrefix(rules: seq<RuleConfig>, parse: PrefixParser, n: nat)
    requires n <= |rules| && !RulesOk(rules[..n], parse)
    ensures !RulesOk(rules, parse)
    decreases |rules|
  {
    if n < |rules| {
      assert rules[..|rules| - 1][..n] == rules[..n];
      RulesPrefix(rules[..|rules| - 1], parse, n);
    } else {
      assert rules[..n] == rules;
    }
  }

  /** Adds one rule to the tree of its kind. */
  method AddRule(domains: D.DomainTree, ips: I.Ipv4Tree, rule: RuleConfig, parse: PrefixParser) returns (ok: bool)
    requires domains.Valid() && ips.Valid()
    modifies domains, domains.nodes.Values, ips, ips.nodes.Values
    ensures domains.Valid() && fresh(domains.nodes.Values - old(domains.nodes.Values))
    ensures ips.Valid() && fresh(ips.nodes.Values - old(ips.nodes.Values))
    ensures ok <==> RuleOk(rule, parse)
    ensures ok ==> domains.rules == old(domains.rules) +
                   if rule.kind == "domain" then [D.Rule(Normalize(rule.value).value, false, ParseAction(rule.action).value)] else []
    ensures ok ==> ips.rules == old(ips.rules) +
                   if rule.kind == "ip" then [I.Rule(parse(rule.value).value, ParseAction(rule.action).value)] else []
  {
    hide D.DomainTree.Valid, I.Ipv4Tree.Valid, Normalize;
    var action := ParseAction(rule.action);
    if action == None {
      return false;
    }
    if rule.kind == "domain" {
      var normalized := NormalizeDomain(rule.value);
      if normalized == None {
        return false;
      }
      domains.Add(normalized.value, false, action.value);
    } else if rule.kind == "ip" {
      var prefix := parse(rule.value);
      if prefix == None || !prefix.value.addr.IPv4? {
        return false;
      }
      ips.Add(prefix.value, action.value);
    } else {
      return false;
    }
    ok := true;
  }

  method BuildExplicit(rules: seq<RuleConfig>, parse: PrefixParser)
    returns (ok: bool, domains: D.DomainTree, ips: I.Ipv4Tree)
    ensures fresh(domains) && fresh(domains.nodes.Values) && domains.Valid()
    ensures fresh(ips) && fresh(ips.nodes.Values) && ips.Valid()
    ensures ok <==> RulesOk(rules, parse)
    ensures ok ==> domains.rules == DomainRules(rules, parse) && ips.rules == IPRules(rules, parse)
  {
    hide D.DomainTree.Valid, I.Ipv4Tree.Valid, Normalize;
    domains := new D.DomainTree();
    ips := new I.Ipv4Tree();
    for i := 0 to |rules|
      invariant fresh(domains) && fresh(domains.nodes.Values) && domains.Valid()
      invariant fresh(ips) && fresh(ips.nodes.Values) && ips.Valid()
      invariant RulesOk(rules[..i], parse)
      invariant domains.rules == DomainRules(rules[..i], parse) && ips.rules == IPRules(rules[..i], parse)
    {
      assert rules[..i + 1][..i] == rules[..i];
      ok := AddRule(domains, ips, rules[i], parse);
      if !ok {
        RulesPrefix(rules, parse, i + 1);
        return;
      }
    }
    ok := true;
    assert rules[..|rules|] == rules;
  }

  /** Builds exactly when every name, prefix and rule is acceptable. */
  method New(data: Data, rules: seq<RuleConfig>, parse: PrefixParser) returns (r: Classifier?)
    ensures r != null <==> Buildable(data, rules, parse)
    ensures r != null ==> fresh(r) && r.Valid() && r.data == data && r.rules == rules && r.parse == parse
  {
    hide D.DomainTree.Valid, I.Ipv4Tree.Valid, Normalize;
    var ok1, chinaDomains := BuildChinaDomains(data.domains);
    if !ok1 {
      return null;
    }
    var ok2, chinaIPs := BuildChinaIPs(data.prefixes);
    if !ok2 {
      return null;
    }
    var ok3, explicitDomains, explicitIPs := BuildExplicit(rules, parse);
    if !ok3 {
      return null;
    }
    r := new Classifier(explicitDomains, chinaDomains, explicitIPs, chinaIPs, data, rules, parse);
  }

  /** Answers from a classifier built on a written and re-read dataset are scans of the original. */
  method ClassifyStored(sha: Hash, data: Data, room: nat, rules: seq<RuleConfig>, parse: PrefixParser, query: Text, addr: Addr)
    returns (built: bool, domain: Decision, ip: Decision)
    ensures built <==> ValidData(data) && |Encode(sha, data)| <= room && Buildable(data, rules, parse)
    ensures built ==> domain == ScanDomain(data, rules, parse, query) && ip == ScanIP(data, rules, parse, addr)
  {
    hide D.DomainTree.Valid, I.Ipv4Tree.Valid, Classifier.Valid, Encode;
    domain, ip := Decision(Proxy, Default, []), Decision(Proxy, Default, []);
    var ok, raw := Write(sha, data, room);
    if !ok {
      return false, domain, ip;
    }
    var loaded := Read(sha, raw, false);
    assert loaded == Some(data);
    var classifier := New(loaded.value, rules, parse);
    if classifier == null {
      return false, domain, ip;
    }
    domain := classifier.ClassifyDomain(query);
    ip := classifier.ClassifyIP(addr);
    built := true;
  }
}
