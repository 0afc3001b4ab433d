/** domainTree of internal/policy/domains.go: a label trie, top-level label first. */
module DomainTrees {
  import opened Actions
  import opened Bytes
  import opened Domains

  type Path = seq<Text>

  datatype Rule = Rule(name: Text, exact: bool, action: Action)

  /** The labels of a name, last label first: the order in which the trie is walked. */
  function PathOf(name: Text): (p: Path)
    ensures |p| >= 1
  {
    Reverse(Split(name, DOT))
  }

  ghost function Snoc(p: Path, part: Text): Path
  {
    p + [part]
  }

  function Reverse(s: Path): (r: Path)
    ensures |r| == |s|
    ensures forall i :: 0 <= i < |s| ==> r[i] == s[|s| - 1 - i]
  {
    seq(|s|, i requires 0 <= i < |s| => s[|s| - 1 - i])
  }

  // ----- Reference: a scan of the rule list -----

  /** A suffix rule matches at a label boundary, an exact rule the whole name. */
  predicate Matches(rule: Rule, name: Text)
  {
    || name == rule.name
    || (!rule.exact && |name| > |rule.name| && name[|name| - |rule.name| - 1..] == [DOT] + rule.name)
  }

  /** The join of the actions of all matching rules. */
  function Scan(rules: seq<Rule>, name: Text): (a: Action)
  {
    if rules == [] then Unknown
    else
      var rest := Scan(rules[..|rules| - 1], name);
      var rule := rules[|rules| - 1];
      if Matches(rule, name) then Select(rest, rule.action) else rest
  }

  /** Proxy if any match is Proxy, Direct if some match and none is Proxy, no match otherwise. */
  lemma {:induction false} ScanIsJoin(rules: seq<Rule>, name: Text)
    ensures Scan(rules, name) == Proxy <==> exists r :: r in rules && Matches(r, name) && r.action == Proxy
    ensures Scan(rules, name) != Unknown <==> exists r :: r in rules && Matches(r, name) && r.action != Unknown
  {
    if rules == [] {
    } else {
      var init, last := rules[..|rules| - 1], rules[|rules| - 1];
      ScanIsJoin(init, name);
      assert rules == init + [last];
    }
  }

  /** Only which rules are present matters, not the order or the number of their additions. */
  lemma {:induction false} ScanIgnoresOrder(a: seq<Rule>, b: seq<Rule>, name: Text)
    requires forall r :: r in a <==> r in b
    ensures Scan(a, name) == Scan(b, name)
  {
    ScanIsJoin(a, name);
    ScanIsJoin(b, name);
  }

  // ----- The trie in terms of paths -----

  predicate OnPath(rule: Rule, path: Path, depth: nat)
  {
    && |PathOf(rule.name)| <= depth
    && PathOf(rule.name) <= path
    && (rule.exact ==> |PathOf(rule.name)| == |path|)
  }

  /** What a walk of `path` has collected once it is `depth` labels deep. */
  ghost function Walked(rules: seq<Rule>, path: Path, depth: nat): Action
  {
    if rules == [] then Unknown
    else
      var rest := Walked(rules[..|rules| - 1], path, depth);
      var rule := rules[|rules| - 1];
      if OnPath(rule, path, depth) then Select(rest, rule.action) else rest
  }

  /** The action a node at `path` holds: the join of the rules that end exactly there. */
  ghost function At(rules: seq<Rule>, path: Path, exact: bool): Action
  {
    if rules == [] then Unknown
    else
      var rest := At(rules[..|rules| - 1], path, exact);
      var rule := rules[|rules| - 1];
      if rule.exact == exact && PathOf(rule.name) == path then Select(rest, rule.action) else rest
  }

  lemma {:induction false} WalkedAtRoot(rules: seq<Rule>, path: Path)
    ensures Walked(rules, path, 0) == Unknown
  {
    if rules == [] {
    } else {
      WalkedAtRoot(rules[..|rules| - 1], path);
    }
  }

  lemma {:induction false} WalkOneLabel(rules: seq<Rule>, path: Path, depth: nat)
    requires depth < |path|
    ensures var here := path[..depth + 1];
            Walked(rules, path, depth + 1) ==
            Select(Select(Walked(rules, path, depth), At(rules, here, false)),
                   if depth + 1 == |path| then At(rules, here, true) else Unknown)
  {
    if rules == [] {
    } else {
      WalkOneLabel(rules[..|rules| - 1], path, depth);
      var p := PathOf(rules[|rules| - 1].name);
      assert |p| == depth + 1 ==> (p <= path <==> p == path[..depth + 1]);
    }
  }

  lemma {:induction false} WalkStops(rules: seq<Rule>, path: Path, depth: nat)
    requires depth < |path|
    requires forall r :: r in rules ==> !(path[..depth + 1] <= PathOf(r.name))
    ensures Walked(rules, path, |path|) == Walked(rules, path, depth)
  {
    if rules == [] {
    } else {
      WalkStops(rules[..|rules| - 1], path, depth);
      var last := rules[|rules| - 1];
      var p := PathOf(last.name);
      assert last in rules && !(path[..depth + 1] <= p);
      assert p <= path ==> p == path[..|p|];
    }
  }

  lemma {:induction false} AtAbsent(rules: seq<Rule>, path: Path, exact: bool)
    requires forall r :: r in rules ==> PathOf(r.name) != path
    ensures At(rules, path, exact) == Unknown
  {
    if rules == [] {
    } else {
      assert rules[|rules| - 1] in rules;
      AtAbsent(rules[..|rules| - 1], path, exact);
    }
  }

  lemma {:induction false} AtAppend(rules: seq<Rule>, rule: Rule, path: Path)
    ensures forall exact :: At(rules + [rule], path, exact) ==
                            if rule.exact == exact && PathOf(rule.name) == path
                            then Select(At(rules, path, exact), rule.action) else At(rules, path, exact)
  {
  }

  /** Walking all labels collects exactly the rules a scan of strings would match. */
  lemma {:induction false} FullWalkIsScan(rules: seq<Rule>, name: Text)
    ensures Walked(rules, PathOf(name), |PathOf(name)|) == Scan(rules, name)
  {
    if rules == [] {
    } else {
      var last := rules[|rules| - 1];
      FullWalkIsScan(rules[..|rules| - 1], name);
      PathPrefix(name, last.name);
      if PathOf(last.name) <= PathOf(name) {
        PathEqual(name, last.name);
      }
    }
  }

  lemma {:induction false} PrefixIsSuffix(p: Path, w: Path, t: Path)
    requires p == Reverse(t) && p <= Reverse(w)
    ensures IsSuffix(w, t)
  {
    assert |t| <= |w|;
    forall i | 0 <= i < |t| ensures w[|w| - |t| + i] == t[i] {
      assert p[|t| - 1 - i] == Reverse(w)[|t| - 1 - i];
    }
  }

  lemma {:induction false} SuffixIsPrefix(w: Path, t: Path)
    requires IsSuffix(w, t)
    ensures Reverse(t) <= Reverse(w)
  {
    forall i | 0 <= i < |t| ensures Reverse(t)[i] == Reverse(w)[i] {
      assert w[|w| - |t|..][|t| - 1 - i] == t[|t| - 1 - i];
    }
  }

  lemma {:induction false} PathPrefix(name: Text, tail: Text)
    ensures PathOf(tail) <= PathOf(name) <==>
            name == tail || (|name| > |tail| && name[|name| - |tail| - 1..] == [DOT] + tail)
  {
    hide Split, Reverse;
    var w, t := Split(name, DOT), Split(tail, DOT);
    LabelSuffix(name, tail, DOT);
    if PathOf(tail) <= PathOf(name) {
      PrefixIsSuffix(PathOf(tail), w, t);
    }
    if IsSuffix(w, t) {
      SuffixIsPrefix(w, t);
    }
  }

  lemma {:induction false} PathEqual(name: Text, other: Text)
    requires PathOf(other) <= PathOf(name)
    ensures |PathOf(other)| == |PathOf(name)| <==> name == other
  {
    if |PathOf(other)| == |PathOf(name)| {
      var w, t := Split(name, DOT), Split(other, DOT);
      forall i | 0 <= i < |w| ensures w[i] == t[i] {
        assert PathOf(name)[|w| - 1 - i] == PathOf(other)[|w| - 1 - i];
      }
      assert w == t;
      JoinOfSplit(name, DOT);
      JoinOfSplit(other, DOT);
    }
  }

  lemma {:induction false} ExtendPath(name: Text, index: nat)
    requires index < |Split(name, DOT)|
    ensures var path, depth := PathOf(name), |Split(name, DOT)| - index - 1;
            path[depth] == Split(name, DOT)[index] && path[..depth + 1] == Snoc(path[..depth], path[depth])
  {
  }

  // ----- The trie -----

  class DomainNode {
    var children: map<Text, DomainNode>
    var suffix: Action
    var exact: Action
    ghost const path: Path  // where the node hangs

    constructor (ghost path: Path)
      ensures children == map[] && suffix == Unknown && exact == Unknown && this.path == path
    {
      this.path := path;
      children, suffix, exact := map[], Unknown, Unknown;
    }
  }

  class DomainTree {
    const root: DomainNode
    ghost var nodes: map<Path, DomainNode>  // every node, by its path from the root
    ghost var rules: seq<Rule>              // every addition so far

    ghost predicate Shape()
      reads this, nodes.Values
    {
      && [] in nodes && nodes[[]] == root
      && (forall p :: p in nodes ==> nodes[p].path == p)
      && (forall p, l :: p in nodes && l in nodes[p].children ==>
                           Snoc(p, l) in nodes && nodes[p].children[l] == nodes[Snoc(p, l)])
      && (forall p, l :: Snoc(p, l) in nodes ==> p in nodes && l in nodes[p].children)
    }

    ghost predicate Valid()
      reads this, nodes.Values
    {
      && Shape()
      && (forall p :: p in nodes ==> nodes[p].suffix == At(rules, p, false) && nodes[p].exact == At(rules, p, true))
      && (forall r :: r in rules ==> PathOf(r.name) in nodes)
    }

    constructor ()
      ensures Valid() && fresh(nodes.Values) && rules == []
    {
      var node := new DomainNode([]);
      root := node;
      nodes := map[[] := node];
      rules := [];
    }

    lemma {:induction false} PrefixInNodes(p: Path, n: nat)
      requires Shape() && p in nodes && n <= |p|
      ensures p[..n] in nodes
      decreases |p|
    {
      if n < |p| {
        assert p == Snoc(p[..|p| - 1], p[|p| - 1]);
        PrefixInNodes(p[..|p| - 1], n);
        assert p[..|p| - 1][..n] == p[..n];
      } else {
        assert p[..n] == p;
      }
    }

    lemma {:induction false} RootNode()
      requires Valid()
      ensures [] in nodes && nodes[[]] == root
    {
    }

    /** What a node says about its children and about the rules that end at it. */
    lemma {:induction false} NodeAt(p: Path, part: Text)
      requires Valid() && p in nodes
      ensures part in nodes[p].children <==> Snoc(p, part) in nodes
      ensures part in nodes[p].children ==> nodes[p].children[part] == nodes[Snoc(p, part)]
      ensures part in nodes[p].children ==>
                && nodes[Snoc(p, part)].suffix == At(rules, Snoc(p, part), false)
                && nodes[Snoc(p, part)].exact == At(rules, Snoc(p, part), true)
    {
    }

    method Add(domain: Text, exact: bool, action: Action)
      requires Valid()
      modifies this, nodes.Values
      ensures Valid() && fresh(nodes.Values - old(nodes.Values))
      ensures rules == old(rules) + [Rule(domain, exact, action)]
    {
      hide Valid, Snoc;
      RootNode();
      var node := root;
      var labels := Split(domain, DOT);
      var index := |labels|;
      ghost var path, depth := PathOf(domain), 0;
      while index > 0
        invariant 0 <= index <= |labels| && depth == |labels| - index
        invariant Valid() && rules == old(rules) && fresh(nodes.Values - old(nodes.Values))
        invariant path[..depth] in nodes && node == nodes[path[..depth]]
      {
        index := index - 1;
        ExtendPath(domain, index);
        node := Child(node, path[..depth], labels[index]);
        depth := depth + 1;
      }
      assert path[..depth] == path;
      Record(node, Rule(domain, exact, action));
    }

    /** The child of a node under a label, created empty where it is missing. */
    method Child(node: DomainNode, ghost here: Path, part: Text) returns (child: DomainNode)
      requires Valid() && here in nodes && nodes[here] == node
      modifies this`nodes, node`children
      ensures Valid() && fresh(nodes.Values - old(nodes.Values))
      ensures Snoc(here, part) in nodes && child == nodes[Snoc(here, part)]
    {
      if part !in node.children {
        ghost var at := Snoc(here, part);
        Grow(node, here, part);
        AtAbsent(rules, at, false);
        AtAbsent(rules, at, true);
        assert forall p :: p in nodes && p != at ==> nodes[p] == old(nodes)[p];
      }
      child := node.children[part];
    }

    /** Hangs an empty node under a label that has none. */
    method Grow(node: DomainNode, ghost here: Path, part: Text)
      requires Shape() && here in nodes && nodes[here] == node && part !in node.children
      modifies this`nodes, node`children
      ensures Shape() && part in node.children && fresh(node.children[part])
      ensures Snoc(here, part) !in old(nodes) && nodes == old(nodes)[Snoc(here, part) := node.children[part]]
      ensures node.children[part].suffix == Unknown && node.children[part].exact == Unknown
    {
      hide At, PathOf;
      var leaf := new DomainNode(Snoc(here, part));
      node.children := node.children[part := leaf];
      nodes := nodes[Snoc(here, part) := leaf];
      assert forall p :: p in old(nodes) ==> nodes[p] == old(nodes)[p] && (nodes[p] == node ==> p == here);
      forall p, l | p in nodes && l in nodes[p].children
        ensures Snoc(p, l) in nodes && nodes[p].children[l] == nodes[Snoc(p, l)]
      {
        if p != Snoc(here, part) && !(p == here && l == part) {
          assert l in old(nodes[p].children) && Snoc(p, l) in old(nodes);
        }
      }
      forall p, l | Snoc(p, l) in nodes ensures p in nodes && l in nodes[p].children {
        if Snoc(p, l) == Snoc(here, part) {
          assert p == Snoc(p, l)[..|p|] == here && l == Snoc(p, l)[|p|];
        }
      }
    }

    /** Merges one rule into its node. */
    method Record(node: DomainNode, rule: Rule)
      requires Valid() && PathOf(rule.name) in nodes && nodes[PathOf(rule.name)] == node
      modifies this`rules, node`suffix, node`exact
      ensures Valid() && rules == old(rules) + [rule]
    {
      if rule.exact {
        node.exact := Select(node.exact, rule.action);
      } else {
        node.suffix := Select(node.suffix, rule.action);
      }
      rules := rules + [rule];
      assert Shape();
      forall r | r in rules ensures PathOf(r.name) in nodes {
        assert r in old(rules) || r == rule;
      }
      forall p | p in nodes ensures nodes[p].suffix == At(rules, p, false) && nodes[p].exact == At(rules, p, true) {
        AtAppend(old(rules), rule, p);
        assert p != PathOf(rule.name) ==> nodes[p] != node;
      }
    }

    method Match(domain: Text) returns (result: Action, ok: bool)
      requires Valid()
      ensures result == Scan(rules, domain)
      ensures ok == (result != Unknown)
    {
      hide Valid, Snoc, At, Walked, Scan;
      RootNode();
      var node := root;
      var labels := Split(domain, DOT);
      ghost var path, depth := PathOf(domain), 0;
      result := Unknown;
      var index := |labels|;
      WalkedAtRoot(rules, path);
      while index > 0
        invariant 0 <= index <= |labels| && depth == |labels| - index
        invariant path[..depth] in nodes && node == nodes[path[..depth]]
        invariant result == Walked(rules, path, depth)
      {
        index := index - 1;
        ExtendPath(domain, index);
        NodeAt(path[..depth], labels[index]);
        if labels[index] !in node.children {
          NoRuleBeyond(path, depth);
          WalkStops(rules, path, depth);
          break;
        }
        node := node.children[labels[index]];
        WalkOneLabel(rules, path, depth);
        depth := depth + 1;
        if node.suffix != Unknown {
          result := Select(result, node.suffix);
        }
        if index == 0 && node.exact != Unknown {
          result := Select(result, node.exact);
        }
      }
      FullWalkIsScan(rules, domain);
      ok := result != Unknown;
    }

    lemma {:induction false} NoRuleBeyond(path: Path, depth: nat)
      requires Valid() && depth < |path| && path[..depth] in nodes
      requires path[depth] !in nodes[path[..depth]].children
      ensures forall r :: r in rules ==> !(path[..depth + 1] <= PathOf(r.name))
    {
      var next := path[..depth + 1];
      assert next == Snoc(path[..depth], path[depth]);
      forall r | r in rules ensures !(next <= PathOf(r.name)) {
        if next <= PathOf(r.name) {
          assert PathOf(r.name)[..depth + 1] == next;
          PrefixInNodes(PathOf(r.name), depth + 1);
        }
      }
    }
  }
}
