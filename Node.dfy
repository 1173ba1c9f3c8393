/** The per-node state of the layered substring graph and the local
    operations on it (checker/Node.h).

    A node is identified by its string: the store keeps one `Node` value
    per string key, and the links that the source keeps as pointers are
    determined by the key (`Prefix`, `Suffix` for the links down,
    `PrefixParents`, `SuffixParents` for the back-references up). */
module Nodes {
  import opened Strings

  /** Largest value of a 64-bit `size_t`: what `0UL - 1` wraps to. */
  const SIZE_MAX: nat := 0xFFFF_FFFF_FFFF_FFFF

  /** The mutable part of a node: the two edge counters and the root flag.
      `fromPrefix` counts edges entering from the prefix side, `toSuffix`
      edges leaving towards the suffix side. */
  datatype Node = Node(fromPrefix: nat, toSuffix: nat, isRoot: bool)

  /** A node as both constructors leave it: no edges, not a root. */
  const Fresh: Node := Node(0, 0, false)

  /** The whole store: one node per distinct string. */
  type Graph = map<string, Node>

  /** The store's shape invariant: every stored non-empty string has its
      prefix and suffix stored too, so every link can be followed. */
  ghost predicate Closed(keys: set<string>)
  {
    forall s {:trigger Prefix(s)} :: s in keys && s != "" ==> Prefix(s) in keys && Suffix(s) in keys
  }

  /** A closed key set holds every substring of each of its strings,
      down to the empty string. */
  lemma {:induction false} ClosedHoldsSubstrings(keys: set<string>, s: string)
    requires Closed(keys) && s in keys
    ensures Substrings(s) <= keys
    decreases |s|
  {
    if s != "" {
      assert Prefix(s) in keys && Suffix(s) in keys;
      ClosedHoldsSubstrings(keys, Prefix(s));
      ClosedHoldsSubstrings(keys, Suffix(s));
    }
  }

  /** Adding a string whose own links are already stored keeps the store closed. */
  lemma ClosedInsert(keys: set<string>, s: string)
    requires Closed(keys)
    requires s != "" ==> Prefix(s) in keys && Suffix(s) in keys
    ensures Closed(keys + {s})
  {
    forall x {:trigger Prefix(x)} | x in keys + {s} && x != ""
      ensures Prefix(x) in keys + {s} && Suffix(x) in keys + {s}
    {
      if x != s {
        assert Prefix(x) in keys;
      }
    }
  }

  /** The nodes whose prefix link points at `p` (`p`'s `prefix_parents`). */
  function PrefixParents(g: Graph, p: string): set<string>
  {
    set y | y in g && y != "" && Prefix(y) == p
  }

  /** The nodes whose suffix link points at `q` (`q`'s `suffix_parents`). */
  function SuffixParents(g: Graph, q: string): set<string>
  {
    set y | y in g && y != "" && Suffix(y) == q
  }

  function Min(a: nat, b: nat): nat
  {
    if a <= b then a else b
  }

  /** `is_balanced`: as many edges enter from the prefix side as leave to the suffix side. */
  predicate IsBalanced(n: Node)
  {
    n.fromPrefix == n.toSuffix
  }

  /** `has_parents`: the node is a root, or a prefix-parent carries an edge
      from its prefix, or a suffix-parent carries an edge to its suffix. */
  predicate HasParents(g: Graph, s: string)
    requires s in g
  {
    || g[s].isRoot
    || (exists y :: y in PrefixParents(g, s) && g[y].fromPrefix > 0)
    || (exists y :: y in SuffixParents(g, s) && g[y].toSuffix > 0)
  }

  /** `has_parents` as the source computes it: a scan of the root flag and
      then of the two parent lists, stopping at the first live parent. */
  method ScanParents(g: Graph, s: string) returns (b: bool)
    requires s in g
    ensures b == HasParents(g, s)
  {
    if g[s].isRoot {
      return true;
    }
    var ps := PrefixParents(g, s);
    while ps != {}
      invariant ps <= PrefixParents(g, s)
      invariant forall y :: y in PrefixParents(g, s) && y !in ps ==> g[y].fromPrefix == 0
      decreases ps
    {
      var y :| y in ps;
      if g[y].fromPrefix > 0 {
        return true;
      }
      ps := ps - {y};
    }
    var ss := SuffixParents(g, s);
    while ss != {}
      invariant ss <= SuffixParents(g, s)
      invariant forall y :: y in SuffixParents(g, s) && y !in ss ==> g[y].toSuffix == 0
      decreases ss
    {
      var y :| y in ss;
      if g[y].toSuffix > 0 {
        return true;
      }
      ss := ss - {y};
    }
    return false;
  }

  /** `collapse(n)` of node `s`: `m = min(n, fromPrefix, toSuffix)` matched
      pairs leave `s` and move one layer down, onto the prefix node's
      outgoing counter and the suffix node's incoming counter. */
  function Collapse(g: Graph, s: string, n: nat): (r: Graph)
    requires s in g && s != "" && Prefix(s) in g && Suffix(s) in g
    ensures r.Keys == g.Keys
  {
    var m := Min(n, Min(g[s].fromPrefix, g[s].toSuffix));
    var g1 := g[s := g[s].(fromPrefix := g[s].fromPrefix - m, toSuffix := g[s].toSuffix - m)];
    var g2 := g1[Prefix(s) := g1[Prefix(s)].(toSuffix := g1[Prefix(s)].toSuffix + m)];
    g2[Suffix(s) := g2[Suffix(s)].(fromPrefix := g2[Suffix(s)].fromPrefix + m)]
  }

  /** What collapsing does, key by key: `s` loses exactly `m` from each
      counter, its prefix gains `m` outgoing, its suffix gains `m`
      incoming (both when they are one node), no other counter and no
      root flag changes. */
  lemma CollapseEffect(g: Graph, s: string, n: nat)
    requires s in g && s != "" && Prefix(s) in g && Suffix(s) in g
    ensures var m := Min(n, Min(g[s].fromPrefix, g[s].toSuffix));
            var r := Collapse(g, s, n);
            && r[s] == Node(g[s].fromPrefix - m, g[s].toSuffix - m, g[s].isRoot)
            && r[Prefix(s)].toSuffix == g[Prefix(s)].toSuffix + m
            && r[Suffix(s)].fromPrefix == g[Suffix(s)].fromPrefix + m
            && (Prefix(s) != Suffix(s) ==> r[Prefix(s)].fromPrefix == g[Prefix(s)].fromPrefix)
            && (Prefix(s) != Suffix(s) ==> r[Suffix(s)].toSuffix == g[Suffix(s)].toSuffix)
            && (forall k :: k in g ==> r[k].isRoot == g[k].isRoot)
            && (forall k :: k in g && k != s && k != Prefix(s) && k != Suffix(s) ==> r[k] == g[k])
  {
    assert |Prefix(s)| < |s| && |Suffix(s)| < |s|;
  }

  /** `0UL - 1` on a `size_t`: wraps to `SIZE_MAX` at zero. On a value a
      `size_t` can hold, it is the predecessor modulo 2^64. */
  function SizeDecrement(m: nat): (r: nat)
    ensures m <= SIZE_MAX ==> r <= SIZE_MAX && (r + 1) % (SIZE_MAX + 1) == m
  {
    if m == 0 then SIZE_MAX else m - 1
  }

  /** Collapsing takes as many edges from each side of `s`, so it keeps
      `s` balanced exactly when `s` was balanced. */
  lemma CollapseKeepsBalance(g: Graph, s: string, n: nat)
    requires s in g && s != "" && Prefix(s) in g && Suffix(s) in g
    ensures IsBalanced(Collapse(g, s, n)[s]) <==> IsBalanced(g[s])
  {
  }

  /** `collapse_all`: move every matched pair down. */
  function CollapseAll(g: Graph, s: string): (r: Graph)
    requires s in g && s != "" && Prefix(s) in g && Suffix(s) in g
  {
    Collapse(g, s, Min(g[s].fromPrefix, g[s].toSuffix))
  }

  /** `collapse_all_but_one`: `max(min(fromPrefix, toSuffix) - 1, 0UL)` in
      `size_t` arithmetic (the `max` with `0UL` never changes an unsigned
      value), which `collapse` then clamps. */
  function CollapseAllButOne(g: Graph, s: string): (r: Graph)
    requires s in g && s != "" && Prefix(s) in g && Suffix(s) in g
  {
    Collapse(g, s, SizeDecrement(Min(g[s].fromPrefix, g[s].toSuffix)))
  }

  /** After `collapse_all` one of the two counters is zero. */
  lemma CollapseAllEmpties(g: Graph, s: string)
    requires s in g && s != "" && Prefix(s) in g && Suffix(s) in g
    ensures var r := CollapseAll(g, s);
            Min(r[s].fromPrefix, r[s].toSuffix) == 0
            && r[s].fromPrefix == g[s].fromPrefix - Min(g[s].fromPrefix, g[s].toSuffix)
            && r[s].toSuffix == g[s].toSuffix - Min(g[s].fromPrefix, g[s].toSuffix)
  {
    CollapseEffect(g, s, Min(g[s].fromPrefix, g[s].toSuffix));
  }

  /** `collapse_all_but_one` keeps exactly one matched pair when there was
      one, and changes nothing when there was none: the wrapped `0UL - 1`
      is clamped back to zero. */
  lemma CollapseAllButOneKeepsOne(g: Graph, s: string)
    requires s in g && s != "" && Prefix(s) in g && Suffix(s) in g
    ensures var m := Min(g[s].fromPrefix, g[s].toSuffix);
            var r := CollapseAllButOne(g, s);
            && (m >= 1 ==> Min(r[s].fromPrefix, r[s].toSuffix) == 1
                           && r[s].fromPrefix == g[s].fromPrefix - (m - 1)
                           && r[s].toSuffix == g[s].toSuffix - (m - 1))
            && (m == 0 ==> r == g)
  {
    var m := Min(g[s].fromPrefix, g[s].toSuffix);
    CollapseEffect(g, s, SizeDecrement(m));
    if m == 0 {
      assert Collapse(g, s, SIZE_MAX) == g;
    }
  }

  // ---- Total edge weight -------------------------------------------------

  function Weight(n: Node): nat
  {
    n.fromPrefix + n.toSuffix
  }

  /** Sum of both counters over the nodes named in `keys`. */
  ghost function SumWeights(g: Graph, keys: set<string>): nat
    requires keys <= g.Keys
    decreases keys
  {
    if keys == {} then 0
    else
      var k :| k in keys;
      Weight(g[k]) + SumWeights(g, keys - {k})
  }

  /** Sum of both counters over the whole graph. */
  ghost function Total(g: Graph): nat
  {
    SumWeights(g, g.Keys)
  }

  /** The sum does not depend on which key is taken out first. */
  lemma {:induction false} SumWeightsRemove(g: Graph, keys: set<string>, k: string)
    requires keys <= g.Keys && k in keys
    ensures SumWeights(g, keys) == Weight(g[k]) + SumWeights(g, keys - {k})
    decreases keys
  {
    var c :| c in keys && SumWeights(g, keys) == Weight(g[c]) + SumWeights(g, keys - {c});
    if c != k {
      SumWeightsRemove(g, keys - {c}, k);
      SumWeightsRemove(g, keys - {k}, c);
      assert keys - {c} - {k} == keys - {k} - {c};
    }
  }

  /** Two graphs whose nodes weigh the same on `keys` have the same sum there. */
  lemma {:induction false} SumWeightsAgree(g: Graph, h: Graph, keys: set<string>)
    requires keys <= g.Keys && keys <= h.Keys
    requires forall k :: k in keys ==> Weight(g[k]) == Weight(h[k])
    ensures SumWeights(g, keys) == SumWeights(h, keys)
    decreases keys
  {
    if keys != {} {
      var k :| k in keys && SumWeights(g, keys) == Weight(g[k]) + SumWeights(g, keys - {k});
      SumWeightsRemove(h, keys, k);
      SumWeightsAgree(g, h, keys - {k});
    }
  }

  /** Replacing one node changes the total by the difference of the two weights. */
  lemma TotalUpdate(g: Graph, k: string, v: Node)
    requires k in g
    ensures Total(g[k := v]) + Weight(g[k]) == Total(g) + Weight(v)
  {
    var h := g[k := v];
    assert h.Keys == g.Keys;
    SumWeightsRemove(g, g.Keys, k);
    SumWeightsRemove(h, h.Keys, k);
    SumWeightsAgree(g, h, g.Keys - {k});
  }

  /** Collapsing moves weight but never creates or destroys any: the total
      of all counters in the graph is unchanged. */
  lemma CollapseConserves(g: Graph, s: string, n: nat)
    requires s in g && s != "" && Prefix(s) in g && Suffix(s) in g
    ensures Total(Collapse(g, s, n)) == Total(g)
  {
    var m := Min(n, Min(g[s].fromPrefix, g[s].toSuffix));
    var g1 := g[s := g[s].(fromPrefix := g[s].fromPrefix - m, toSuffix := g[s].toSuffix - m)];
    var g2 := g1[Prefix(s) := g1[Prefix(s)].(toSuffix := g1[Prefix(s)].toSuffix + m)];
    var g3 := g2[Suffix(s) := g2[Suffix(s)].(fromPrefix := g2[Suffix(s)].fromPrefix + m)];
    assert Collapse(g, s, n) == g3;
    TotalUpdate(g, s, g1[s]);
    TotalUpdate(g1, Prefix(s), g2[Prefix(s)]);
    TotalUpdate(g2, Suffix(s), g3[Suffix(s)]);
  }
}
