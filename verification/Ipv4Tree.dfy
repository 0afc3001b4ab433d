/** ipv4Tree of internal/policy/ipv4.go: a bit trie over IPv4 prefixes. */
module Ipv4Trees {
  import opened Actions
  import opened Addresses
  import opened Bytes

  type Path = seq<bool>

  datatype Rule = Rule(prefix: Prefix, action: Action)

  // ----- Bits -----

  /** `v >> k`: halving `k` times. */
  function Shr(v: nat, k: nat): (r: nat)
    ensures r <= v
  {
    if k == 0 then v else Shr(v / 2, k - 1)
  }

  /** The byte at index `k` of `netip.Addr.As4()`. */
  function OctetOf(value: u32, k: nat): (b: byte)
    requires k < 4
  {
    Shr(value, 24 - 8 * k) % 256
  }

  /** `(bytes[i/8] >> (7 - i%8)) & 1`. */
  function ShiftMask(value: u32, i: nat): (bit: int)
    requires i < 32
  {
    Shr(OctetOf(value, i / 8), 7 - i % 8) % 2
  }

  /** Bit `i` of the 32-bit integer, most significant first. */
  ghost function Bit(value: u32, i: nat): bool
    requires i < 32
  {
    value / Pow2(31 - i) % 2 == 1
  }

  lemma {:induction false} HalfDiv(v: nat, d: nat)
    requires d >= 1
    ensures v / (2 * d) == v / d / 2 == v / 2 / d
  {
    var w := v / 2;
    var q, h := w / d, w % d;
    var p := q * d;
    assert w == p + h;
    Doubles(q, d);
    DivUnique(v, 2 * d, q, 2 * h + v % 2);
    DivThenHalve(v, d, q, p, 2 * h + v % 2);
  }

  lemma {:induction false} Doubles(q: nat, d: nat)
    ensures q * (2 * d) == 2 * (q * d) == (2 * q) * d && (2 * q + 1) * d == 2 * (q * d) + d
  {
  }

  lemma {:induction false} DivThenHalve(v: nat, d: nat, q: nat, p: nat, r: nat)
    requires d >= 1 && p == q * d && r < 2 * d && v == 2 * p + r
    ensures v / d / 2 == q
  {
    Doubles(q, d);
    if r < d {
      DivUnique(v, d, 2 * q, r);
    } else {
      DivUnique(v, d, 2 * q + 1, r - d);
    }
  }

  lemma {:induction false} DivUnique(v: nat, d: nat, q: nat, r: nat)
    requires d >= 1 && v == q * d + r && r < d
    ensures v / d == q && v % d == r
  {
    var k := v / d;
    assert v == k * d + v % d;
    assert (k - q) * d == k * d - q * d == r - v % d;
    if k > q {
      AtLeastOnce(k - q, d);
    } else if k < q {
      assert (q - k) * d == -((k - q) * d);
      AtLeastOnce(q - k, d);
    }
  }

  lemma {:induction false} AtLeastOnce(a: nat, d: nat)
    requires a >= 1
    ensures a * d >= d
  {
  }

  lemma {:induction false} ShrIsDiv(v: nat, k: nat)
    ensures Shr(v, k) == v / Pow2(k)
    decreases k
  {
    if k == 0 {
    } else {
      ShrIsDiv(v / 2, k - 1);
      HalfDiv(v, Pow2(k - 1));
    }
  }

  lemma {:induction false} ShrShr(v: nat, a: nat, b: nat)
    ensures Shr(Shr(v, a), b) == Shr(v, a + b)
    decreases a
  {
    if a == 0 {
    } else {
      ShrShr(v / 2, a - 1, b);
    }
  }

  /** `q << n`. */
  ghost function Shl(q: nat, n: nat): nat
  {
    if n == 0 then q else 2 * Shl(q, n - 1)
  }

  /** The bits below `n` do not see what was shifted above them. */
  lemma {:induction false} LowBits(q: nat, m: nat, n: nat, j: nat)
    requires j < n
    ensures Shr(Shl(q, n) + m, j) % 2 == Shr(m, j) % 2
    decreases j
  {
    if j == 0 {
    } else {
      assert (Shl(q, n) + m) / 2 == Shl(q, n - 1) + m / 2;
      LowBits(q, m / 2, n - 1, j - 1);
    }
  }

  /** The shift-and-mask walk reads the bits of the address in order. */
  lemma {:induction false} ShiftMaskIsBit(value: u32, i: nat)
    requires i < 32
    ensures ShiftMask(value, i) == if Bit(value, i) then 1 else 0
  {
    hide Pow2, Shr;
    var k, j := 24 - 8 * (i / 8), 7 - i % 8;
    var x := Shr(value, k);
    var q := x / 256;
    assert Shl(q, 8) == 256 * q by {
      assert Shl(q, 0) == q;
      assert Shl(q, 2) == 2 * Shl(q, 1) == 4 * q;
      assert Shl(q, 4) == 2 * Shl(q, 3) == 4 * Shl(q, 2);
      assert Shl(q, 6) == 2 * Shl(q, 5) == 4 * Shl(q, 4);
      assert Shl(q, 8) == 2 * Shl(q, 7) == 4 * Shl(q, 6);
    }
    LowBits(q, x % 256, 8, j);
    ShrShr(value, k, j);
    ShrIsDiv(value, k + j);
  }

  /** The first `n` bits of an address. */
  ghost function Bits(value: u32, n: nat): (p: Path)
    requires n <= 32
    ensures |p| == n
  {
    seq(n, i requires 0 <= i < n => Bit(value, i))
  }

  /** Two addresses share their first `n` bits exactly when they agree above the low `32 - n`. */
  lemma {:induction false} SameBits(a: u32, b: u32, n: nat)
    requires n <= 32
    ensures Bits(a, n) == Bits(b, n) <==> a / Pow2(32 - n) == b / Pow2(32 - n)
  {
    if n == 0 {
      Pow2Of32();
    } else {
      SameBits(a, b, n - 1);
      HalfDiv(a, Pow2(32 - n));
      HalfDiv(b, Pow2(32 - n));
      assert Pow2(33 - n) == 2 * Pow2(32 - n);
      assert Bits(a, n) == Bits(a, n - 1) + [Bit(a, n - 1)];
      assert Bits(b, n) == Bits(b, n - 1) + [Bit(b, n - 1)];
      assert Bits(a, n)[..n - 1] == Bits(a, n - 1) && Bits(b, n)[..n - 1] == Bits(b, n - 1);
    }
  }

  lemma {:induction false} Pow2Of32()
    ensures Pow2(32) == 0x1_0000_0000
  {
    assert Pow2(8) == 256;
    assert Pow2(16) == 256 * Pow2(8);
    assert Pow2(24) == 256 * Pow2(16);
    assert Pow2(32) == 256 * Pow2(24);
  }

  // ----- Reference: a scan of the rule list -----

  /** The best match so far: the longest prefix and the joined action of the rules that have it. */
  datatype Best = Best(bits: int, action: Action)

  predicate Matches(rule: Rule, addr: u32)
    requires rule.prefix.Valid4()
  {
    rule.action != Unknown && Contains(rule.prefix, addr)
  }

  predicate AllValid(rules: seq<Rule>)
  {
    forall i :: 0 <= i < |rules| ==> rules[i].prefix.Valid4()
  }

  function ScanBest(rules: seq<Rule>, addr: u32): (best: Best)
    requires AllValid(rules)
  {
    if rules == [] then Best(-1, Unknown)
    else
      var rest := ScanBest(rules[..|rules| - 1], addr);
      var rule := rules[|rules| - 1];
      if !Matches(rule, addr) || rule.prefix.bits < rest.bits then rest
      else if rule.prefix.bits > rest.bits then Best(rule.prefix.bits, rule.action)
      else Best(rest.bits, Select(rest.action, rule.action))
  }

  function Scan(rules: seq<Rule>, addr: Addr): (a: Action)
    requires AllValid(rules)
  {
    if addr.IPv4? then ScanBest(rules, addr.value).action else Unknown
  }

  /** The longest matching prefix decides; Proxy wins over Direct only between equal prefixes. */
  ghost predicate IsLongest(rules: seq<Rule>, addr: u32, best: Best)
    requires AllValid(rules)
  {
    && (forall r :: r in rules && Matches(r, addr) ==> r.prefix.bits <= best.bits)
    && (best.action == Unknown <==> best.bits == -1)
    && (best.bits != -1 ==> exists r :: r in rules && Matches(r, addr) && r.prefix.bits == best.bits)
    && (best.action == Proxy <==>
        exists r :: r in rules && Matches(r, addr) && r.prefix.bits == best.bits && r.action == Proxy)
  }

  lemma {:induction false} ScanIsLongest(rules: seq<Rule>, addr: u32)
    requires AllValid(rules)
    ensures IsLongest(rules, addr, ScanBest(rules, addr))
  {
    if rules == [] {
    } else {
      var init, last := rules[..|rules| - 1], rules[|rules| - 1];
      ScanIsLongest(init, addr);
      assert rules == init + [last];
      assert forall r :: r in rules <==> r in init || r == last;
    }
  }

  lemma {:induction false} LongestIsUnique(rules: seq<Rule>, addr: u32, a: Best, b: Best)
    requires AllValid(rules) && a.bits >= -1 && b.bits >= -1
    requires IsLongest(rules, addr, a) && IsLongest(rules, addr, b)
    ensures a == b
  {
  }

  /** Where the scan finds Direct, a matching rule with the longest prefix says so; no rule matches where it finds nothing. */
  lemma {:induction false} LongestFound(rules: seq<Rule>, addr: u32)
    requires AllValid(rules)
    ensures var best := ScanBest(rules, addr);
            && (best.action == Direct ==> exists r :: r in rules && Matches(r, addr) && r.prefix.bits == best.bits && r.action == Direct)
            && (best.action == Unknown ==> forall r :: r in rules ==> !Matches(r, addr))
  {
    ScanIsLongest(rules, addr);
  }

  /** Only which rules are present matters, not the order or the number of their additions. */
  lemma {:induction false} ScanIgnoresOrder(a: seq<Rule>, b: seq<Rule>, addr: Addr)
    requires AllValid(a) && AllValid(b) && forall r :: r in a <==> r in b
    ensures Scan(a, addr) == Scan(b, addr)
  {
    if addr.IPv4? {
      ScanIsLongest(a, addr.value);
      ScanIsLongest(b, addr.value);
      assert IsLongest(a, addr.value, ScanBest(b, addr.value));
    }
  }

  // ----- The trie in terms of paths -----

  ghost function PathOf(prefix: Prefix): (p: Path)
    requires prefix.Valid4()
  {
    Bits(prefix.addr.value, prefix.bits)
  }

  /** The action a node at `path` holds: the join of the rules that end exactly there. */
  ghost function At(rules: seq<Rule>, path: Path): Action
    requires AllValid(rules)
  {
    if rules == [] then Unknown
    else
      var rest := At(rules[..|rules| - 1], path);
      var rule := rules[|rules| - 1];
      if PathOf(rule.prefix) == path then Select(rest, rule.action) else rest
  }

  /** What a walk of the bits of `addr` has collected once it is `depth` bits deep. */
  ghost function Walked(rules: seq<Rule>, addr: u32, depth: nat): Action
    requires AllValid(rules) && depth <= 32
  {
    var here := At(rules, Bits(addr, depth));
    if here != Unknown then here else if depth == 0 then Unknown else Walked(rules, addr, depth - 1)
  }

  lemma {:induction false} AtIsJoin(rules: seq<Rule>, addr: u32, depth: nat)
    requires AllValid(rules) && depth <= 32
    ensures At(rules, Bits(addr, depth)) != Unknown <==>
            exists r :: r in rules && r.prefix.bits == depth && Matches(r, addr)
    ensures At(rules, Bits(addr, depth)) == Proxy <==>
            exists r :: r in rules && r.prefix.bits == depth && Matches(r, addr) && r.action == Proxy
  {
    if rules == [] {
    } else {
      var init, last := rules[..|rules| - 1], rules[|rules| - 1];
      AtIsJoin(init, addr, depth);
      assert rules == init + [last];
      assert forall r :: r in rules <==> r in init || r == last;
      if last.prefix.bits == depth {
        SameBits(last.prefix.addr.value, addr, depth);
      }
    }
  }

  ghost function Deepest(rules: seq<Rule>, addr: u32, depth: nat): Best
    requires AllValid(rules) && depth <= 32
  {
    var here := At(rules, Bits(addr, depth));
    if here != Unknown then Best(depth, here) else if depth == 0 then Best(-1, Unknown) else Deepest(rules, addr, depth - 1)
  }

  lemma {:induction false} DeepestIsLongest(rules: seq<Rule>, addr: u32, depth: nat)
    requires AllValid(rules) && depth <= 32
    requires forall r :: r in rules && Matches(r, addr) ==> r.prefix.bits <= depth
    ensures IsLongest(rules, addr, Deepest(rules, addr, depth))
    ensures Deepest(rules, addr, depth).bits >= -1
    ensures Deepest(rules, addr, depth).action == Walked(rules, addr, depth)
  {
    AtIsJoin(rules, addr, depth);
    if At(rules, Bits(addr, depth)) != Unknown || depth == 0 {
    } else {
      DeepestIsLongest(rules, addr, depth - 1);
    }
  }

  /** Walking all 32 bits finds exactly what the scan finds. */
  lemma {:induction false} FullWalkIsScan(rules: seq<Rule>, addr: u32)
    requires AllValid(rules)
    ensures Walked(rules, addr, 32) == ScanBest(rules, addr).action
  {
    DeepestIsLongest(rules, addr, 32);
    ScanIsLongest(rules, addr);
    LongestIsUnique(rules, addr, Deepest(rules, addr, 32), ScanBest(rules, addr));
  }

  lemma {:induction false} AtAbsent(rules: seq<Rule>, path: Path)
    requires AllValid(rules)
    requires forall r :: r in rules ==> PathOf(r.prefix) != path
    ensures At(rules, path) == Unknown
  {
    if rules == [] {
    } else {
      assert rules[|rules| - 1] in rules;
      AtAbsent(rules[..|rules| - 1], path);
    }
  }

  lemma {:induction false} AtAppend(rules: seq<Rule>, rule: Rule, path: Path)
    requires AllValid(rules) && rule.prefix.Valid4()
    ensures AllValid(rules + [rule])
    ensures At(rules + [rule], path) ==
            if PathOf(rule.prefix) == path then Select(At(rules, path), rule.action) else At(rules, path)
  {
  }

  /** Past a missing node no rule is left to match. */
  lemma {:induction false} WalkStops(rules: seq<Rule>, addr: u32, depth: nat, deeper: nat)
    requires AllValid(rules) && depth < deeper <= 32
    requires forall r :: r in rules ==> !(Bits(addr, depth + 1) <= PathOf(r.prefix))
    ensures Walked(rules, addr, deeper) == Walked(rules, addr, depth)
    decreases deeper
  {
    assert Bits(addr, depth + 1) <= Bits(addr, deeper);
    AtAbsent(rules, Bits(addr, deeper));
    if deeper == depth + 1 {
    } else {
      WalkStops(rules, addr, depth, deeper - 1);
    }
  }

  // ----- The trie -----

  ghost function Snoc(p: Path, bit: bool): Path
  {
    p + [bit]
  }

  lemma {:induction false} BitsSnoc(value: u32, n: nat)
    requires n < 32
    ensures Bits(value, n + 1) == Snoc(Bits(value, n), Bit(value, n))
  {
  }

  /** `prefix.Masked().Addr()`: the host bits cleared. */
  function Masked(value: u32, bits: nat): (m: u32)
    requires bits <= 32
  {
    Clear(value, Pow2(32 - bits));
    value / Pow2(32 - bits) * Pow2(32 - bits)
  }

  lemma {:induction false} Clear(v: nat, d: nat)
    requires d >= 1
    ensures 0 <= v / d * d <= v
    ensures v / d * d / d == v / d
  {
    assert v == v / d * d + v % d;
    DivUnique(v / d * d, d, v / d, 0);
  }

  lemma {:induction false} MaskedKeepsBits(value: u32, bits: nat)
    requires bits <= 32
    ensures Bits(Masked(value, bits), bits) == Bits(value, bits)
  {
    Clear(value, Pow2(32 - bits));
    SameBits(Masked(value, bits), value, bits);
  }

  class Ipv4Node {
    var zero: Ipv4Node?
    var one: Ipv4Node?
    var action: Action
    ghost const path: Path  // where the node hangs

    constructor (ghost path: Path)
      ensures zero == null && one == null && action == Unknown && this.path == path
    {
      this.path := path;
      zero, one, action := null, null, Unknown;
    }

    function Next(bit: bool): Ipv4Node?
      reads this
    {
      if bit then one else zero
    }
  }

  class Ipv4Tree {
    const root: Ipv4Node
    ghost var nodes: map<Path, Ipv4Node>  // every node, by its path from the root
    ghost var rules: seq<Rule>            // every addition so far

    ghost predicate Shape()
      reads this, nodes.Values
    {
      && [] in nodes && nodes[[]] == root
      && (forall p :: p in nodes ==> nodes[p].path == p)
      && (forall p, b :: p in nodes && nodes[p].Next(b) != null ==>
                           Snoc(p, b) in nodes && nodes[p].Next(b) == nodes[Snoc(p, b)])
      && (forall p, b :: Snoc(p, b) in nodes ==> p in nodes && nodes[p].Next(b) != null)
    }

    ghost predicate Valid()
      reads this, nodes.Values
    {
      && Shape() && AllValid(rules)
      && (forall p :: p in nodes ==> nodes[p].action == At(rules, p))
      && (forall r :: r in rules ==> PathOf(r.prefix) in nodes)
    }

    constructor ()
      ensures Valid() && fresh(nodes.Values) && rules == []
    {
      var node := new Ipv4Node([]);
      root := node;
      nodes := map[[] := node];
      rules := [];
    }

    lemma {:induction false} PrefixInNodes(p: Path, n: nat)
      requires Shape() && p in nodes && n <= |p|
      ensures p[..n] in nodes
      decreases |p|
    {
      if n < |p| {
        assert p == Snoc(p[..|p| - 1], p[|p| - 1]);
        PrefixInNodes(p[..|p| - 1], n);
        assert p[..|p| - 1][..n] == p[..n];
      } else {
        assert p[..n] == p;
      }
    }

    lemma {:induction false} RootNode()
      requires Valid()
      ensures [] in nodes && nodes[[]] == root && AllValid(rules) && root.action == At(rules, [])
    {
    }

    /** What a node says about its children and about the rules that end at them. */
    lemma {:induction false} NodeAt(p: Path, b: bool)
      requires Valid() && p in nodes
      ensures nodes[p].Next(b) != null <==> Snoc(p, b) in nodes
      ensures nodes[p].Next(b) != null ==> nodes[p].Next(b) == nodes[Snoc(p, b)]
      ensures AllValid(rules)
      ensures nodes[p].Next(b) != null ==> nodes[Snoc(p, b)].action == At(rules, Snoc(p, b))
    {
    }

    method Add(prefix: Prefix, action: Action)
      requires Valid() && prefix.Valid4()
      modifies this, nodes.Values
      ensures Valid() && fresh(nodes.Values - old(nodes.Values))
      ensures rules == old(rules) + [Rule(prefix, action)]
    {
      hide Valid, Snoc, Bit, ShiftMask;
      RootNode();
      var node := root;
      assert Bits(Masked(prefix.addr.value, prefix.bits), 0) == [];
      var masked := Masked(prefix.addr.value, prefix.bits);
      var bitIndex := 0;
      while bitIndex < prefix.bits
        invariant 0 <= bitIndex <= prefix.bits
        invariant Valid() && rules == old(rules) && fresh(nodes.Values - old(nodes.Values))
        invariant Bits(masked, bitIndex) in nodes && node == nodes[Bits(masked, bitIndex)]
      {
        var bit := ShiftMask(masked, bitIndex);
        ShiftMaskIsBit(masked, bitIndex);
        BitsSnoc(masked, bitIndex);
        node := Child(node, Bits(masked, bitIndex), bit != 0);
        bitIndex := bitIndex + 1;
      }
      MaskedKeepsBits(prefix.addr.value, prefix.bits);
      Record(node, Rule(prefix, action));
    }

    /** The child of a node on one side, created empty where it is missing. */
    method Child(node: Ipv4Node, ghost here: Path, bit: bool) returns (child: Ipv4Node)
      requires Valid() && here in nodes && nodes[here] == node
      modifies this`nodes, node`zero, node`one
      ensures Valid() && fresh(nodes.Values - old(nodes.Values))
      ensures Snoc(here, bit) in nodes && child == nodes[Snoc(here, bit)]
    {
      if node.Next(bit) == null {
        ghost var at := Snoc(here, bit);
        Grow(node, here, bit);
        AtAbsent(rules, at);
        assert forall p :: p in nodes && p != at ==> nodes[p] == old(nodes)[p];
      }
      child := node.Next(bit);
    }

    /** Hangs an empty node on a side that has none. */
    method Grow(node: Ipv4Node, ghost here: Path, bit: bool)
      requires Shape() && here in nodes && nodes[here] == node && node.Next(bit) == null
      modifies this`nodes, node`zero, node`one
      ensures Shape() && node.Next(bit) != null && fresh(node.Next(bit)) && node.Next(bit).action == Unknown
      ensures Snoc(here, bit) !in old(nodes) && nodes == old(nodes)[Snoc(here, bit) := node.Next(bit)]
    {
      hide At, PathOf;
      var leaf := new Ipv4Node(Snoc(here, bit));
      if bit {
        node.one := leaf;
      } else {
        node.zero := leaf;
      }
      nodes := nodes[Snoc(here, bit) := leaf];
      assert forall p :: p in old(nodes) ==> nodes[p] == old(nodes)[p] && (nodes[p] == node ==> p == here);
      forall p, b | p in nodes && nodes[p].Next(b) != null
        ensures Snoc(p, b) in nodes && nodes[p].Next(b) == nodes[Snoc(p, b)]
      {
        if p != Snoc(here, bit) && !(p == here && b == bit) {
          assert old(nodes[p].Next(b)) != null && Snoc(p, b) in old(nodes);
        }
      }
      forall p, b | Snoc(p, b) in nodes ensures p in nodes && nodes[p].Next(b) != null {
        if Snoc(p, b) == Snoc(here, bit) {
          assert p == Snoc(p, b)[..|p|] == here && b == Snoc(p, b)[|p|];
        }
      }
    }

    /** Merges one rule into its node. */
    method Record(node: Ipv4Node, rule: Rule)
      requires Valid() && rule.prefix.Valid4() && PathOf(rule.prefix) in nodes && nodes[PathOf(rule.prefix)] == node
      modifies this`rules, node`action
      ensures Valid() && rules == old(rules) + [rule]
    {
      node.action := Select(node.action, rule.action);
      rules := rules + [rule];
      assert Shape();
      forall r | r in rules ensures PathOf(r.prefix) in nodes {
        assert r in old(rules) || r == rule;
      }
      forall p | p in nodes ensures nodes[p].action == At(rules, p) {
        AtAppend(old(rules), rule, p);
        assert p != PathOf(rule.prefix) ==> nodes[p] != node;
      }
    }

    method Match(addr: Addr) returns (result: Action, ok: bool)
      requires Valid()
      ensures result == Scan(rules, addr)
      ensures ok == (result != Unknown)
    {
      if !addr.IPv4? {
        return Unknown, false;
      }
      hide Valid, Snoc, Bit, ShiftMask, At, Scan, AllValid;
      RootNode();
      assert Bits(addr.value, 0) == [];
      var node: Ipv4Node? := root;
      result := node.action;
      var bitIndex := 0;
      while bitIndex < 32
        invariant 0 <= bitIndex <= 32
        invariant Bits(addr.value, bitIndex) in nodes && node == nodes[Bits(addr.value, bitIndex)]
        invariant result == Walked(rules, addr.value, bitIndex)
      {
        var bit := ShiftMask(addr.value, bitIndex);
        ShiftMaskIsBit(addr.value, bitIndex);
        BitsSnoc(addr.value, bitIndex);
        NodeAt(Bits(addr.value, bitIndex), bit != 0);
        if bit == 0 {
          node := node.zero;
        } else {
          node := node.one;
        }
        if node == null {
          NoRuleBeyond(addr.value, bitIndex);
          WalkStops(rules, addr.value, bitIndex, 32);
          break;
        }
        if node.action != Unknown {
          result := node.action;
        }
        bitIndex := bitIndex + 1;
      }
      FullWalkIsScan(rules, addr.value);
      ok := result != Unknown;
    }

    lemma {:induction false} NoRuleBeyond(addr: u32, depth: nat)
      requires Valid() && depth < 32 && Bits(addr, depth) in nodes
      requires nodes[Bits(addr, depth)].Next(Bit(addr, depth)) == null
      ensures forall r :: r in rules ==> !(Bits(addr, depth + 1) <= PathOf(r.prefix))
    {
      BitsSnoc(addr, depth);
      forall r | r in rules ensures !(Bits(addr, depth + 1) <= PathOf(r.prefix)) {
        if Bits(addr, depth + 1) <= PathOf(r.prefix) {
          assert PathOf(r.prefix)[..depth + 1] == Bits(addr, depth + 1);
          PrefixInNodes(PathOf(r.prefix), depth + 1);
        }
      }
    }
  }
}
